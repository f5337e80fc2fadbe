/**
 * The byte-level steps of the option editor: the scan that `coapSetOption` and `coapDeleteOption`
 * share, the in-place formatting of one option, and what the sequences of moves do to the buffer.
 */
module OptionEditor {
  import opened Bytes
  import opened OptionCodec
  import opened OptionList
  import opened MessageFormat

  // ---------------------------------------------------------------- scan

  /** Where a scan stopped: the offset, the option number before it and the size of the option there. */
  datatype Spot = Spot(found: bool, p: nat, prev: uint16, size: nat)

  /** The scan for occurrence `idx` of option `num`, from offset `p` on. */
  function ScanFrom(s: seq<byte>, p: nat, prev: uint16, num: uint16, idx: nat): (r: Result<Spot>)
    requires p <= |s|
    ensures r.Ok? ==> r.value.p + r.value.size <= |s|
    decreases |s| - p
  {
    if IsTail(s[p..]) then Ok(Spot(false, p, prev, 0)) else
    var q := Parse(s[p..], prev);
    if q.Err? then Err(q.error)
    else if num < q.value.number then Ok(Spot(false, p, prev, q.value.Consumed()))
    else if q.value.number == num && idx == 0 then Ok(Spot(true, p, prev, q.value.Consumed()))
    else
      ScanFrom(s, p + q.value.Consumed(), q.value.number, num,
               if q.value.number == num then idx - 1 else idx)
  }

  function Scan(s: seq<byte>, num: uint16, idx: nat): (r: Result<Spot>)
    ensures r.Ok? ==> r.value.p + r.value.size <= |s|
  {
    var h := ParseHeader(s);
    if h.Err? then Err(h.error) else ScanFrom(s, h.value, 0, num, idx)
  }

  lemma ScanStep(s: seq<byte>, p: nat, prev: uint16, num: uint16, idx: nat)
    requires p <= |s|
    ensures p == |s| || s[p] == PAYLOAD_MARKER
            ==> ScanFrom(s, p, prev, num, idx) == Ok(Spot(false, p, prev, 0))
    ensures p < |s| && s[p] != PAYLOAD_MARKER ==>
              match Parse(s[p..], prev)
              case Err(e) => ScanFrom(s, p, prev, num, idx) == Err(e)
              case Ok(q) =>
                ScanFrom(s, p, prev, num, idx)
                == if num < q.number then Ok(Spot(false, p, prev, q.Consumed()))
                   else if q.number < num then ScanFrom(s, p + q.Consumed(), q.number, num, idx)
                   else if idx == 0 then Ok(Spot(true, p, prev, q.Consumed()))
                   else ScanFrom(s, p + q.Consumed(), q.number, num, idx - 1)
  {
    hide Parse;
  }

  /** The search that opens `coapSetOption` and `coapDeleteOption`. */
  method FindOption(s: seq<byte>, num: uint16, idx: nat) returns (r: Result<Spot>)
    ensures r == Scan(s, num, idx)
  {
    hide ParseHeader, ScanFrom;
    var h := ParseHeader(s);
    if h.Err? {
      return Err(h.error);
    }
    r := FindFrom(s, h.value, num, idx);
  }

  /** Its loop through the options. */
  method FindFrom(s: seq<byte>, first: nat, num: uint16, idx: nat) returns (r: Result<Spot>)
    requires first <= |s|
    ensures r == ScanFrom(s, first, 0, num, idx)
  {
    hide *;
    var p: nat, length: nat, prev: uint16, index: nat := first, |s| - first, 0, 0;
    while length > 0
      invariant p + length == |s| && index <= idx
      invariant ScanFrom(s, p, prev, num, idx - index) == ScanFrom(s, first, 0, num, idx)
    {
      ScanStep(s, p, prev, num, idx - index);
      if s[p] == PAYLOAD_MARKER {
        return Ok(Spot(false, p, prev, 0));
      }
      var q := Parse(s[p..], prev);
      if q.Err? {
        return Err(q.error);
      }
      var n := q.value.Consumed();
      if num < q.value.number {
        return Ok(Spot(false, p, prev, n));
      }
      if q.value.number == num {
        if index == idx {
          return Ok(Spot(true, p, prev, n));
        }
        index := index + 1;
      }
      prev, p, length := q.value.number, p + n, length - n;
    }
    ScanStep(s, p, prev, num, idx - index);
    r := Ok(Spot(false, p, prev, 0));
  }

  /** What holds where a scan stops, on any byte string. */
  ghost predicate Stopped(s: seq<byte>, num: uint16, spot: Spot)
    requires spot.p + spot.size <= |s|
  {
    var r := Parse(s[spot.p..], spot.prev);
    && spot.prev <= num
    && HEADER_SIZE <= spot.p
    && (spot.found ==> r.Ok? && r.value.number == num && r.value.Consumed() == spot.size)
    && (!spot.found ==>
          IsTail(s[spot.p..]) || (r.Ok? && num < r.value.number && r.value.Consumed() == spot.size))
  }

  lemma {:induction false} ScanFromStops(s: seq<byte>, p: nat, prev: uint16, num: uint16, idx: nat)
    requires HEADER_SIZE <= p <= |s| && prev <= num && ScanFrom(s, p, prev, num, idx).Ok?
    ensures Stopped(s, num, ScanFrom(s, p, prev, num, idx).value)
    decreases |s| - p
  {
    hide Parse;
    if !IsTail(s[p..]) {
      var q := Parse(s[p..], prev).value;
      if q.number < num || (q.number == num && idx > 0) {
        ScanFromStops(s, p + q.Consumed(), q.number, num, if q.number == num then idx - 1 else idx);
      }
    }
  }

  /** On a well-formed message the scan stops where `Locate` says. */
  lemma {:induction false} ScanFromLocates(m: Msg, s: seq<byte>, p: nat, prev: uint16, k: nat, num: uint16, idx: nat)
    requires Between(m, s, p, prev, k)
    ensures var r := ScanFrom(s, p, prev, num, idx);
            var l := Locate(m.options[k..], num, idx);
            && r.Ok? && r.value.found == l.found
            && Between(m, s, r.value.p, r.value.prev, k + l.pos)
            && (l.found ==> r.value.size == |Format(r.value.prev, m.options[k + l.pos])|)
    decreases |m.options| - k
  {
    hide Parse, Between, Format, IsTail, ScanFrom, Locate;
    BetweenBounds(m, s, p, prev, k);
    if k == |m.options| {
      ScanAtEnd(m, s, p, prev, k, num, idx);
    } else {
      var o := m.options[k];
      ScanAtOption(m, s, p, prev, k, num, idx);
      if o.number < num || (o.number == num && idx > 0) {
        ScanFromLocates(m, s, p + |Format(prev, o)|, o.number, k + 1, num, if o.number == num then idx - 1 else idx);
      }
    }
  }

  lemma ScanAtEnd(m: Msg, s: seq<byte>, p: nat, prev: uint16, k: nat, num: uint16, idx: nat)
    requires Between(m, s, p, prev, k) && k == |m.options| && p <= |s|
    ensures ScanFrom(s, p, prev, num, idx) == Ok(Spot(false, p, prev, 0))
    ensures Locate(m.options[k..], num, idx) == Location(0, false)
  {
    hide Parse, Between, IsTail, ScanFrom, Locate;
    BetweenTail(m, s, p, prev, k);
    TailByte(s, p);
    ScanStep(s, p, prev, num, idx);
    LocateCases(m.options[k..], num, idx);
  }

  /** Scan and search take the same branch at every option. */
  lemma ScanAtOption(m: Msg, s: seq<byte>, p: nat, prev: uint16, k: nat, num: uint16, idx: nat)
    requires Between(m, s, p, prev, k) && k < |m.options| && p <= |s|
    ensures var o := m.options[k];
            var n := |Format(prev, o)|;
            var scan, found := ScanFrom(s, p, prev, num, idx), Locate(m.options[k..], num, idx);
            && p + n <= |s| && Between(m, s, p + n, o.number, k + 1)
            && if num < o.number then scan == Ok(Spot(false, p, prev, n)) && found == Location(0, false)
               else if o.number == num && idx == 0 then scan == Ok(Spot(true, p, prev, n)) && found == Location(0, true)
               else
                 var idx' := if o.number == num then idx - 1 else idx;
                 var l := Locate(m.options[k + 1..], num, idx');
                 scan == ScanFrom(s, p + n, o.number, num, idx') && found == Location(l.pos + 1, l.found)
  {
    hide Parse, ParsedOpt, Between, Format, IsTail, ScanFrom, Locate;
    BetweenTail(m, s, p, prev, k);
    TailByte(s, p);
    ScanStep(s, p, prev, num, idx);
    BetweenNext(m, s, p, prev, k);
    LocateCases(m.options[k..], num, idx);
    assert m.options[k..][0] == m.options[k] && m.options[k..][1..] == m.options[k + 1..];
  }

  lemma TailByte(s: seq<byte>, p: nat)
    requires p <= |s|
    ensures IsTail(s[p..]) <==> p == |s| || s[p] == PAYLOAD_MARKER
  {
  }

  lemma BetweenBounds(m: Msg, s: seq<byte>, p: nat, prev: uint16, k: nat)
    requires Between(m, s, p, prev, k)
    ensures k <= |m.options| && p <= |s|
  {
  }

  lemma ScanStops(s: seq<byte>, num: uint16, idx: nat)
    requires Scan(s, num, idx).Ok?
    ensures Stopped(s, num, Scan(s, num, idx).value)
  {
    ScanFromStops(s, ParseHeader(s).value, 0, num, idx);
  }

  lemma ScanLocates(s: seq<byte>, num: uint16, idx: nat)
    requires DecodeMsg(s).Some?
    ensures var m := DecodeMsg(s).value;
            var l := Locate(m.options, num, idx);
            var r := Scan(s, num, idx);
            && r.Ok? && r.value.found == l.found && Between(m, s, r.value.p, r.value.prev, l.pos)
            && (l.found ==> r.value.size == |Format(r.value.prev, m.options[l.pos])|)
  {
    hide DecodeMsg, ScanFrom, Between, ParseHeader, Format, Locate;
    var m := DecodeMsg(s).value;
    BetweenStart(s);
    ScanFromLocates(m, s, ParseHeader(s).value, 0, 0, num, idx);
    assert m.options[0..] == m.options;
  }

  // ---------------------------------------------------------------- formatting in place

  /** `option->value`: storage of the caller, or bytes of the message that is being edited. */
  datatype Value = Given(bytes: seq<byte>) | InPlace(at: nat, len: nat)
  {
    function Len(): nat { match this case Given(b) => |b| case InPlace(_, n) => n }

    ghost predicate Fits(n: nat, from: nat)
    {
      InPlace? ==> from <= at && at + len <= n
    }

    ghost function Read(s: seq<byte>): seq<byte>
      requires Fits(|s|, 0)
    {
      match this case Given(b) => b case InPlace(a, n) => s[a..a + n]
    }
  }

  method StoreExt(a: array<byte>, q: nat, v: nat) returns (n: nat)
    requires q + |Ext(v)| <= a.Length
    modifies a
    ensures n == |Ext(v)| && a[..] == Write(old(a[..]), q, Ext(v))
  {
    if v >= 269 {
      a[q], a[q + 1] := (v - 269) / 256 % 256, (v - 269) % 256;
      n := 2;
    } else if v >= 13 {
      a[q] := v - 13;
      n := 1;
    } else {
      n := 0;
    }
  }

  /** `coapFormatOption` with a buffer: the value may already lie in that buffer. */
  method FormatInto(a: array<byte>, p: nat, prev: uint16, number: uint16, v: Value) returns (n: nat)
    requires p + HeaderSize(Delta(prev, number), v.Len()) + v.Len() <= a.Length
    requires v.Fits(a.Length, p + HeaderSize(Delta(prev, number), v.Len()))
    modifies a
    ensures n == HeaderSize(Delta(prev, number), v.Len()) + v.Len()
    ensures a[..] == Write(old(a[..]), p, Format(prev, Opt(number, v.Read(old(a[..])))))
  {
    hide Ext, Nibble, Delta, Write;
    var d, len := Delta(prev, number), v.Len();
    ghost var s0, val := a[..], v.Read(a[..]);
    var first: byte := Nibble(d) * 16 + Nibble(len);
    Memcpy(a, p, [first]);
    var k := StoreExt(a, p + 1, d);
    WriteWrite(s0, p, [first], Ext(d));
    var l := StoreExt(a, p + 1 + k, len);
    ghost var head := [first] + Ext(d) + Ext(len);
    WriteWrite(s0, p, [first] + Ext(d), Ext(len));
    assert a[..] == Write(s0, p, head);
    n := 1 + k + l;
    match v {
      case Given(b) => Memcpy(a, p + n, b);
      case InPlace(at, _) =>
        WriteBelow(s0, p, head, at, len);
        Memmove(a, p + n, at, len);
    }
    WriteWrite(s0, p, head, val);
    n := n + len;
  }

  lemma WriteBelow(s: seq<byte>, p: nat, x: seq<byte>, at: nat, len: nat)
    requires p + |x| <= at && at + len <= |s|
    ensures Write(s, p, x)[at..at + len] == s[at..at + len]
  {
  }

  // ---------------------------------------------------------------- what the moves amount to

  /** Making room at `p` and writing `x` there inserts `x`. */
  lemma InsertAt(s: seq<byte>, p: nat, length: nat, x: seq<byte>)
    requires p <= length && length + |x| <= |s|
    ensures var t := Write(Write(s, p + |x|, s[p..length]), p, x);
            t[..length + |x|] == s[..p] + x + s[p..length]
  {
  }

  /** Moving the bytes after `p + n` down to `p` removes `n` bytes. */
  lemma RemoveAt(s: seq<byte>, p: nat, n: nat, length: nat)
    requires p + n <= length <= |s|
    ensures Write(s, p, s[p + n..length])[..length - n] == s[..p] + s[p + n..length]
  {
  }

  /** Writing `x` over the first bytes at `p` keeps what lies before and behind. */
  lemma PutAt(s: seq<byte>, p: nat, length: nat, x: seq<byte>)
    requires p + |x| <= length <= |s|
    ensures Write(s, p, x)[..length] == s[..p] + x + s[p + |x|..length]
  {
  }
}
