/**
 * The abstract option list. `Values` reads it as a multimap from option numbers to the values of
 * their occurrences, which is how the CoAP application programming interface addresses options
 * (a number and an occurrence index); `SetOpt` and `DeleteOpt` are the edits that
 * `coapSetOption` and `coapDeleteOption` promise.
 */
module OptionList {
  import opened Bytes
  import opened OptionCodec

  /** The values of the occurrences of option `num`, in message order. */
  function Values(opts: seq<Opt>, num: uint16): (v: seq<seq<byte>>)
    decreases |opts|
  {
    if opts == [] then []
    else (if opts[0].number == num then [opts[0].value] else []) + Values(opts[1..], num)
  }

  datatype Location = Location(pos: nat, found: bool)

  /** Where the scan for occurrence `idx` of `num` stops in a list of ascending numbers. */
  function Locate(opts: seq<Opt>, num: uint16, idx: nat): (l: Location)
    ensures l.pos <= |opts|
    ensures l.found ==> l.pos < |opts| && opts[l.pos].number == num
    decreases |opts|
  {
    if opts == [] || num < opts[0].number then Location(0, false)
    else if opts[0].number == num && idx == 0 then Location(0, true)
    else
      var l := Locate(opts[1..], num, if opts[0].number == num then idx - 1 else idx);
      Location(l.pos + 1, l.found)
  }

  /** The list with occurrence `idx` of `num` replaced, or the option inserted in order. */
  function SetOpt(opts: seq<Opt>, num: uint16, idx: nat, v: seq<byte>): (r: seq<Opt>)
  {
    var l := Locate(opts, num, idx);
    opts[..l.pos] + [Opt(num, v)] + opts[if l.found then l.pos + 1 else l.pos..]
  }

  /** The list without occurrence `idx` of `num`. */
  function DeleteOpt(opts: seq<Opt>, num: uint16, idx: nat): (r: seq<Opt>)
  {
    var l := Locate(opts, num, idx);
    if l.found then opts[..l.pos] + opts[l.pos + 1..] else opts
  }

  // ---------------------------------------------------------------- laws

  lemma ValuesCons(o: Opt, opts: seq<Opt>, num: uint16)
    ensures Values([o] + opts, num) == (if o.number == num then [o.value] else []) + Values(opts, num)
  {
    assert ([o] + opts)[1..] == opts;
  }

  lemma {:induction false} ValuesAppend(a: seq<Opt>, b: seq<Opt>, num: uint16)
    ensures Values(a + b, num) == Values(a, num) + Values(b, num)
    decreases |a|
  {
    if a == [] {
      assert a + b == b;
    } else {
      ValuesAppend(a[1..], b, num);
      ValuesAppendStep(a[0], a[1..], b, num);
      assert a == [a[0]] + a[1..];
    }
  }

  lemma ValuesAppendStep(o: Opt, a: seq<Opt>, b: seq<Opt>, num: uint16)
    requires Values(a + b, num) == Values(a, num) + Values(b, num)
    ensures Values([o] + a + b, num) == Values([o] + a, num) + Values(b, num)
  {
    hide *;
    ValuesCons(o, a, num);
    ValuesCons(o, a + b, num);
    assert [o] + a + b == [o] + (a + b);
  }

  /** No occurrence of a number below an ascending list. */
  lemma {:induction false} ValuesBelow(prev: uint16, opts: seq<Opt>, num: uint16)
    requires Ascending(prev, opts) && num < prev
    ensures Values(opts, num) == []
    decreases |opts|
  {
    if opts != [] {
      ValuesBelow(opts[0].number, opts[1..], num);
    }
  }

  lemma ValuesAbove(prev: uint16, opts: seq<Opt>, num: uint16)
    requires Ascending(prev, opts) && (opts == [] || num < opts[0].number)
    ensures Values(opts, num) == []
  {
    if opts != [] {
      assert Ascending(opts[0].number, opts);
      ValuesBelow(opts[0].number, opts, num);
    }
  }

  /** What `Locate` finds, in terms of the multimap and of the order. */
  ghost predicate Located(prev: uint16, opts: seq<Opt>, num: uint16, idx: nat, l: Location)
    requires l.pos <= |opts|
  {
    var before, after := opts[..l.pos], opts[l.pos..];
    && (l.found <==> idx < |Values(opts, num)|)
    && (prev <= num ==> Last(prev, before) <= num)
    && Ascending(prev, before) && Ascending(Last(prev, before), after)
    && (l.found ==>
          after != [] && after[0].number == num && |Values(before, num)| == idx
          && Values(opts, num)[idx] == after[0].value)
    && (!l.found ==> after == [] || num < after[0].number)
  }

  lemma {:induction false} LocateMeaning(prev: uint16, opts: seq<Opt>, num: uint16, idx: nat)
    requires Ascending(prev, opts)
    ensures Located(prev, opts, num, idx, Locate(opts, num, idx))
    decreases |opts|
  {
    hide Values, Ascending, Locate, Located;
    LocateCases(opts, num, idx);
    if opts == [] || num < opts[0].number {
      LocateBefore(prev, opts, num, idx);
    } else if opts[0].number == num && idx == 0 {
      LocateHere(prev, opts, num);
    } else {
      var idx' := if opts[0].number == num then idx - 1 else idx;
      var o, rest := opts[0], opts[1..];
      assert opts == [o] + rest;
      EncodeCons(prev, o, rest);
      LocateMeaning(o.number, rest, num, idx');
      LocateStep(prev, o, rest, num, idx', Locate(rest, num, idx'));
    }
  }

  /** The cases of the search. */
  lemma LocateCases(opts: seq<Opt>, num: uint16, idx: nat)
    ensures opts == [] || num < opts[0].number ==> Locate(opts, num, idx) == Location(0, false)
    ensures opts != [] && opts[0].number == num && idx == 0 ==> Locate(opts, num, idx) == Location(0, true)
    ensures opts != [] && (opts[0].number < num || (opts[0].number == num && idx > 0)) ==>
              var l := Locate(opts[1..], num, if opts[0].number == num then idx - 1 else idx);
              Locate(opts, num, idx) == Location(l.pos + 1, l.found)
  {
  }

  lemma LocateBefore(prev: uint16, opts: seq<Opt>, num: uint16, idx: nat)
    requires Ascending(prev, opts) && (opts == [] || num < opts[0].number)
    ensures Located(prev, opts, num, idx, Location(0, false))
  {
    hide Values;
    ValuesAbove(prev, opts, num);
    assert opts[..0] == [] && opts[0..] == opts;
  }

  lemma LocateHere(prev: uint16, opts: seq<Opt>, num: uint16)
    requires Ascending(prev, opts) && opts != [] && opts[0].number == num
    ensures Located(prev, opts, num, 0, Location(0, true))
  {
    assert opts == [opts[0]] + opts[1..];
    ValuesCons(opts[0], opts[1..], num);
    assert opts[..0] == [] && opts[0..] == opts;
  }

  lemma LocateStep(prev: uint16, o: Opt, opts: seq<Opt>, num: uint16, idx: nat, l: Location)
    requires Ascending(prev, [o] + opts) && o.number <= num && l.pos <= |opts|
    requires Located(o.number, opts, num, idx, l)
    ensures Located(prev, [o] + opts, num, if o.number == num then idx + 1 else idx, Location(l.pos + 1, l.found))
  {
    hide Values, Ascending, EncodeList;
    var all := [o] + opts;
    var before, after := opts[..l.pos], opts[l.pos..];
    assert all[..l.pos + 1] == [o] + before && all[l.pos + 1..] == after;
    EncodeCons(prev, o, opts);
    EncodeCons(prev, o, before);
    ValuesCons(o, opts, num);
    ValuesCons(o, before, num);
    assert Last(prev, [o] + before) == Last(o.number, before);
  }

  /** Replacing value `idx` of a value list, or adding one at the end. */
  function Put(vs: seq<seq<byte>>, idx: nat, v: seq<byte>): (r: seq<seq<byte>>)
  {
    if idx < |vs| then vs[idx := v] else vs + [v]
  }

  function Remove(vs: seq<seq<byte>>, idx: nat): (r: seq<seq<byte>>)
  {
    if idx < |vs| then vs[..idx] + vs[idx + 1..] else vs
  }

  /**
   * Setting an option replaces or appends one value of its own number, leaves every other number
   * alone and keeps the list ascending.
   */
  lemma SetMeaning(opts: seq<Opt>, num: uint16, idx: nat, v: seq<byte>)
    requires Ascending(0, opts) && |v| <= MAX_VALUE_LEN
    ensures var r := SetOpt(opts, num, idx, v);
            && Ascending(0, r)
            && Values(r, num) == Put(Values(opts, num), idx, v)
            && forall n: uint16 | n != num :: Values(r, n) == Values(opts, n)
  {
    var l := Locate(opts, num, idx);
    LocateMeaning(0, opts, num, idx);
    SplitSet(opts, num, idx, v);
    SetAscending(opts[..l.pos], opts[l.pos..], l.found, Opt(num, v));
    forall n: uint16
      ensures Values(SetOpt(opts, num, idx, v), n)
           == if n == num then Put(Values(opts, n), idx, v) else Values(opts, n)
    {
      SetMeaningAt(opts, num, idx, v, n);
    }
  }

  lemma SplitSet(opts: seq<Opt>, num: uint16, idx: nat, v: seq<byte>)
    ensures var l := Locate(opts, num, idx);
            var before, after := opts[..l.pos], opts[l.pos..];
            && opts == before + after
            && SetOpt(opts, num, idx, v) == before + ([Opt(num, v)] + if l.found then after[1..] else after)
  {
  }

  lemma SetMeaningAt(opts: seq<Opt>, num: uint16, idx: nat, v: seq<byte>, n: uint16)
    requires Ascending(0, opts)
    ensures Values(SetOpt(opts, num, idx, v), n)
         == if n == num then Put(Values(opts, n), idx, v) else Values(opts, n)
  {
    hide SetOpt, Values, Locate, Ascending;
    var l := Locate(opts, num, idx);
    var before, after := opts[..l.pos], opts[l.pos..];
    LocateMeaning(0, opts, num, idx);
    SplitSet(opts, num, idx, v);
    SetValues(before, after, l.found, Opt(num, v), n);
    if !l.found {
      ValuesAbove(Last(0, before), after, num);
    }
  }

  lemma SetAscending(before: seq<Opt>, after: seq<Opt>, found: bool, o: Opt)
    requires Ascending(0, before) && Ascending(Last(0, before), after) && Last(0, before) <= o.number
    requires |o.value| <= MAX_VALUE_LEN
    requires if found then after != [] && after[0].number == o.number
             else after == [] || o.number < after[0].number
    ensures Ascending(0, before + ([o] + if found then after[1..] else after))
  {
    var rest := if found then after[1..] else after;
    assert Ascending(o.number, rest);
    hide Ascending, EncodeList;
    EncodeCons(Last(0, before), o, rest);
    EncodeAppend(0, before, [o] + rest);
  }

  lemma SetValues(before: seq<Opt>, after: seq<Opt>, found: bool, o: Opt, n: uint16)
    requires found ==> after != [] && after[0].number == o.number
    ensures var rest := if found then after[1..] else after;
            var mine := Values(before, n) + (if n == o.number then [o.value] else []) + Values(rest, n);
            && Values(before + ([o] + rest), n) == mine
            && Values(before + after, n)
               == Values(before, n) + (if found && n == o.number then [after[0].value] else []) + Values(rest, n)
  {
    hide *;
    var rest := if found then after[1..] else after;
    ValuesAppend(before, [o] + rest, n);
    ValuesCons(o, rest, n);
    ValuesAppend(before, after, n);
    if found {
      assert after == [after[0]] + rest;
      ValuesCons(after[0], rest, n);
    }
  }

  /** Deleting an option removes one value of its own number and nothing else. */
  lemma DeleteMeaning(opts: seq<Opt>, num: uint16, idx: nat)
    requires Ascending(0, opts)
    ensures var r := DeleteOpt(opts, num, idx);
            && Ascending(0, r)
            && Values(r, num) == Remove(Values(opts, num), idx)
            && forall n: uint16 | n != num :: Values(r, n) == Values(opts, n)
  {
    hide DeleteOpt, Values, Remove, Ascending;
    DeleteKeepsOrder(opts, num, idx);
    forall n: uint16
      ensures Values(DeleteOpt(opts, num, idx), n)
           == if n == num then Remove(Values(opts, n), idx) else Values(opts, n)
    {
      DeleteMeaningAt(opts, num, idx, n);
    }
  }

  lemma SplitDelete(opts: seq<Opt>, num: uint16, idx: nat)
    requires Locate(opts, num, idx).found
    ensures var l := Locate(opts, num, idx);
            var before, after := opts[..l.pos], opts[l.pos..];
            opts == before + after && after != [] && DeleteOpt(opts, num, idx) == before + after[1..]
  {
    hide Locate;
  }

  lemma DeleteKeepsOrder(opts: seq<Opt>, num: uint16, idx: nat)
    requires Ascending(0, opts)
    ensures Ascending(0, DeleteOpt(opts, num, idx))
  {
    hide Values, Locate, Ascending;
    var l := Locate(opts, num, idx);
    LocateMeaning(0, opts, num, idx);
    if l.found {
      SplitDelete(opts, num, idx);
      DeleteAscending(opts[..l.pos], opts[l.pos..]);
    }
  }

  lemma DeleteMeaningAt(opts: seq<Opt>, num: uint16, idx: nat, n: uint16)
    requires Ascending(0, opts)
    ensures Values(DeleteOpt(opts, num, idx), n)
         == if n == num then Remove(Values(opts, n), idx) else Values(opts, n)
  {
    hide Values, Locate, Ascending;
    var l := Locate(opts, num, idx);
    LocateMeaning(0, opts, num, idx);
    if l.found {
      SplitDelete(opts, num, idx);
      DeleteValues(opts[..l.pos], opts[l.pos..], n);
    }
  }

  lemma DeleteAscending(before: seq<Opt>, after: seq<Opt>)
    requires Ascending(0, before) && Ascending(Last(0, before), after) && after != []
    ensures Ascending(0, before + after[1..])
  {
    AscendingFrom(Last(0, before), after[0].number, after[1..]);
    EncodeAppend(0, before, after[1..]);
  }

  lemma AscendingFrom(lo: uint16, hi: uint16, opts: seq<Opt>)
    requires lo <= hi && Ascending(hi, opts)
    ensures Ascending(lo, opts)
  {
  }

  lemma DeleteValues(before: seq<Opt>, after: seq<Opt>, n: uint16)
    requires after != []
    ensures Values(before + after[1..], n) == Values(before, n) + Values(after[1..], n)
    ensures Values(before + after, n)
         == Values(before, n) + (if after[0].number == n then [after[0].value] else []) + Values(after[1..], n)
  {
    hide *;
    ValuesAppend(before, after[1..], n);
    ValuesAppend(before, after, n);
    assert after == [after[0]] + after[1..];
    ValuesCons(after[0], after[1..], n);
  }

  /** The multimap view is complete: it determines an ascending list. */
  lemma {:induction false} ValuesDetermineList(prev: uint16, a: seq<Opt>, b: seq<Opt>)
    requires Ascending(prev, a) && Ascending(prev, b)
    requires forall n: uint16 :: Values(a, n) == Values(b, n)
    ensures a == b
    decreases |a|
  {
    var y := if b != [] then b[0].number else 0;
    assert Values(a, y) == Values(b, y);
    if a != [] {
      var x := a[0].number;
      assert Values(a, x) == Values(b, x);
      assert Values(a, x)[0] == a[0].value && b != [];
      FirstNumber(prev, a, b);
      FirstNumber(prev, b, a);
      assert Values(b, x)[0] == b[0].value;
      forall n: uint16
        ensures Values(a[1..], n) == Values(b[1..], n)
      {
        assert Values(a, n) == Values(b, n);
        SameTail(a[0], a[1..], b[1..], n);
      }
      ValuesDetermineList(x, a[1..], b[1..]);
      assert a == [a[0]] + a[1..] && b == [b[0]] + b[1..];
    }
  }

  lemma FirstNumber(prev: uint16, a: seq<Opt>, b: seq<Opt>)
    requires Ascending(prev, a) && Ascending(prev, b) && a != [] && b != []
    requires Values(a, b[0].number) == Values(b, b[0].number)
    ensures a[0].number <= b[0].number
  {
    if b[0].number < a[0].number {
      ValuesAbove(prev, a, b[0].number);
    }
  }

  lemma SameTail(o: Opt, a: seq<Opt>, b: seq<Opt>, n: uint16)
    requires Values([o] + a, n) == Values([o] + b, n)
    ensures Values(a, n) == Values(b, n)
  {
    hide *;
    ValuesCons(o, a, n);
    ValuesCons(o, b, n);
    var pre := if o.number == n then [o.value] else [];
    assert (pre + Values(a, n))[|pre|..] == Values(a, n);
    assert (pre + Values(b, n))[|pre|..] == Values(b, n);
  }
}
