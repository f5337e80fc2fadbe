/** Machine words, status codes and the in-place memory move shared by the models. */
module Bytes {

  type byte = x: int | 0 <= x < 0x100
  type uint16 = x: int | 0 <= x < 0x1_0000
  type uint32 = x: int | 0 <= x < 0x1_0000_0000

  /** The status codes of `error.h` that the modelled functions return. */
  datatype Error =
    | NoError
    | Failure
    | InvalidParameter
    | InvalidMessage
    | InvalidHeader
    | InvalidVersion
    | InvalidStatus
    | BufferOverflow
    | BufferUnderflow
    | NotFound
    | EndOfStream
    | Timeout

  datatype Option<+T> = None | Some(value: T)

  type Fault = e: Error | e != NoError witness Failure

  datatype Result<+T> = Ok(value: T) | Err(error: Fault)

  /** A quotient and a remainder are determined by what they multiply out to. */
  lemma DivMod(x: int, n: nat, q: int, r: int)
    requires n > 0 && x == n * q + r && 0 <= r < n
    ensures x / n == q && x % n == r
  {
    var k := x / n;
    assert x == n * k + x % n;
    assert k < q ==> n * q >= n * (k + 1);
    assert q < k ==> n * k >= n * (q + 1);
  }

  /** A slice of a slice is a slice. */
  lemma SubSlice(s: seq<byte>, a: nat, b: nat, i: nat, j: nat)
    requires a <= b <= |s| && i <= j <= b - a
    ensures s[a..b][i..j] == s[a + i..a + j]
  {
    var x, y := s[a..b][i..j], s[a + i..a + j];
    assert |x| == |y|;
    forall k | 0 <= k < |x|
      ensures x[k] == y[k]
    {
      assert x[k] == s[a..b][i + k];
    }
  }

  function Concat(chunks: seq<seq<byte>>): (s: seq<byte>)
  {
    if chunks == [] then [] else Concat(chunks[..|chunks| - 1]) + chunks[|chunks| - 1]
  }

  lemma ConcatNone()
    ensures Concat([]) == []
  {
  }

  lemma ConcatSnoc(chunks: seq<seq<byte>>, k: nat)
    requires k < |chunks|
    ensures Concat(chunks[..k + 1]) == Concat(chunks[..k]) + chunks[k]
  {
    assert chunks[..k + 1][..k] == chunks[..k];
  }

  function Sum(sizes: seq<nat>): (n: nat)
  {
    if sizes == [] then 0 else Sum(sizes[..|sizes| - 1]) + sizes[|sizes| - 1]
  }

  lemma SumNone()
    ensures Sum([]) == 0
  {
  }

  lemma SumSnoc(sizes: seq<nat>, k: nat)
    requires k < |sizes|
    ensures Sum(sizes[..k + 1]) == Sum(sizes[..k]) + sizes[k]
  {
    assert sizes[..k + 1][..k] == sizes[..k];
  }

  lemma {:induction false} SumPrefix(sizes: seq<nat>, k: nat)
    requires k <= |sizes|
    ensures Sum(sizes[..k]) <= Sum(sizes)
    decreases |sizes| - k
  {
    if k < |sizes| {
      SumSnoc(sizes, k);
      SumPrefix(sizes, k + 1);
    } else {
      assert sizes[..k] == sizes;
    }
  }

  /** The elements `s` with `x` written over those at offset `p`. */
  function Write<T>(s: seq<T>, p: nat, x: seq<T>): (r: seq<T>)
    requires p + |x| <= |s|
    ensures |r| == |s|
  {
    s[..p] + x + s[p + |x|..]
  }

  /** Two adjacent writes are one. */
  lemma WriteWrite<T>(s: seq<T>, p: nat, x: seq<T>, y: seq<T>)
    requires p + |x| + |y| <= |s|
    ensures Write(Write(s, p, x), p + |x|, y) == Write(s, p, x + y)
  {
  }

  /** `osMemmove(a + dst, a + src, n)`: source and destination may overlap. */
  method Memmove<T>(a: array<T>, dst: nat, src: nat, n: nat)
    requires dst + n <= a.Length && src + n <= a.Length
    modifies a
    ensures a[..] == Write(old(a[..]), dst, old(a[src..src + n]))
  {
    forall i | dst <= i < dst + n {
      a[i] := a[i - dst + src];
    }
  }

  /** `osMemcpy(a + dst, data, |data|)` from storage outside `a`. */
  method Memcpy<T>(a: array<T>, dst: nat, data: seq<T>)
    requires dst + |data| <= a.Length
    modifies a
    ensures a[..] == Write(old(a[..]), dst, data)
  {
    forall i | dst <= i < dst + |data| {
      a[i] := data[i - dst];
    }
  }
}
