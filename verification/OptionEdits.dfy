/**
 * What the byte-level edits of `coapSetOption` and `coapDeleteOption` mean for the abstract
 * message, and how the size of a re-encoded neighbour can change.
 */
module OptionEdits {
  import opened Bytes
  import opened OptionCodec
  import opened OptionList
  import opened MessageFormat
  import opened OptionEditor

  // ---------------------------------------------------------------- re-encoding the neighbour

  /** The bytes `s` once their first option follows `to` instead of `from`. */
  function Refit(s: seq<byte>, from: uint16, to: uint16): (r: seq<byte>)
    requires !IsTail(s) ==> Parse(s, from).Ok?
  {
    if IsTail(s) then s
    else
      var q := Parse(s, from).value;
      Format(to, ParsedOpt(s, q)) + s[q.Consumed()..]
  }

  /** A number beyond 65535, which only a message that does not decode can hold. */
  ghost predicate Wrapped(s: seq<byte>, prev: uint16)
    requires Parse(s, prev).Ok?
  {
    prev + Parse(s, prev).value.rawDelta >= 0x1_0000
  }

  /** The extra bytes the first option of `s` takes when it follows `to` instead of `from`. */
  ghost function Growth(s: seq<byte>, from: uint16, to: uint16): (n: nat)
    requires Parse(s, from).Ok?
  {
    var q := Parse(s, from).value;
    var h := HeaderSize(Delta(to, q.number), q.len);
    if h > q.at then h - q.at else 0
  }

  /** The header size of a parsed option, from the fields it was read from. */
  lemma ParsedHeader(s: seq<byte>, prev: uint16)
    requires Parse(s, prev).Ok?
    ensures var q := Parse(s, prev).value;
            && q.at == HeaderSize(q.rawDelta, q.len)
            && q.rawDelta <= MAX_VALUE_LEN
            && q.number == Wrap16(Wrap16(q.rawDelta) + prev)
            && |ParsedOpt(s, q).value| == q.len && ParsedOpt(s, q).number == q.number
  {
    hide Nibble, Ext;
    FieldUnique(s[0] / 16, s[1..]);
    FieldUnique(s[0] % 16, s[1 + ParseField(s[0] / 16, s[1..]).value.size..]);
  }

  /** Following a larger number, an option never gets longer. */
  lemma RefitShrinks(s: seq<byte>, from: uint16, to: uint16)
    requires Parse(s, from).Ok? && from <= to < Parse(s, from).value.number
    ensures var q := Parse(s, from).value;
            var h := HeaderSize(Delta(to, q.number), q.len);
            h <= q.at && |Format(to, ParsedOpt(s, q))| == h + q.len
  {
    hide Format, Parse, ParsedOpt;
    ParsedHeader(s, from);
  }

  /** Following a smaller number, an option never gets shorter, unless its number wrapped. */
  lemma RefitGrows(s: seq<byte>, from: uint16, to: uint16)
    requires Parse(s, from).Ok? && to <= from
    ensures var q := Parse(s, from).value;
            var h := HeaderSize(Delta(to, q.number), q.len);
            && |Format(to, ParsedOpt(s, q))| == h + q.len
            && Growth(s, from, to) == (if h > q.at then h - q.at else 0)
            && (!IsTail(s) ==> Refit(s, from, to) == Format(to, ParsedOpt(s, q)) + s[q.Consumed()..])
            && (!Wrapped(s, from) ==> q.at <= h)
  {
    hide Format, Parse, ParsedOpt;
    ParsedHeader(s, from);
  }

  /**
   * The option that is removed always makes room for the growth of its neighbour, whatever the
   * bytes: a deletion never makes a message longer.
   */
  lemma GrowthBounded(a: seq<byte>, b: seq<byte>, prev: uint16, num: uint16)
    requires Parse(a, prev).Ok? && Parse(a, prev).value.number == num && prev <= num
    requires Parse(b, num).Ok?
    ensures Growth(b, num, prev) <= Parse(a, prev).value.at
  {
    hide Parse, ParsedOpt;
    ParsedHeader(a, prev);
    ParsedHeader(b, num);
  }

  // ---------------------------------------------------------------- coapSetOption

  /** What `coapSetOption` leaves behind when the new option does not fit. */
  ghost function AfterFailedSet(s: seq<byte>, num: uint16, idx: nat): (t: seq<byte>)
  {
    var r := Scan(s, num, idx);
    if r.Ok? && r.value.found then s[..r.value.p] + s[r.value.p + r.value.size..] else s
  }

  /** The bytes that a successful `coapSetOption` produces. */
  ghost function SetBytes(s: seq<byte>, num: uint16, spot: Spot, value: seq<byte>): (t: seq<byte>)
    requires spot.p + spot.size <= |s| && Stopped(s, num, spot)
  {
    var back := if spot.found then s[spot.p + spot.size..] else Refit(s[spot.p..], spot.prev, num);
    s[..spot.p] + Format(spot.prev, Opt(num, value)) + back
  }

  /** The message size that `coapSetOption` compares with the size of its buffer. */
  ghost function SizeOnSet(m: Msg, num: uint16, idx: nat, value: seq<byte>): (n: int)
  {
    var l := Locate(m.options, num, idx);
    var prev := Last(0, m.options[..l.pos]);
    var removed := if l.found then |Format(prev, m.options[l.pos])| else 0;
    |EncodeMsg(m)| + |Format(prev, Opt(num, value))| - removed
  }

  /** How much shorter the header of the following option becomes when an option is inserted before it. */
  ghost function Slack(m: Msg, num: uint16, idx: nat): (n: int)
  {
    var l := Locate(m.options, num, idx);
    if l.found || l.pos == |m.options| then 0
    else |Format(Last(0, m.options[..l.pos]), m.options[l.pos])| - |Format(num, m.options[l.pos])|
  }

  /**
   * The compared size is the size of the result before the following option is encoded again: it is
   * exact for a replacement and at the end of the list, and otherwise up to two bytes too large.
   */
  lemma SetSizeExact(m: Msg, num: uint16, idx: nat, value: seq<byte>)
    requires m.WellFormed()
    ensures SizeOnSet(m, num, idx, value)
         == |EncodeMsg(m.(options := SetOpt(m.options, num, idx, value)))| + Slack(m, num, idx)
    ensures 0 <= Slack(m, num, idx) <= 2
  {
    hide Format, EncodeList, Locate, Last, Ascending, Values;
    LocateMeaning(0, m.options, num, idx);
    SplitSet(m.options, num, idx, value);
    var l := Locate(m.options, num, idx);
    var before, after := m.options[..l.pos], m.options[l.pos..];
    var rest := if l.found then after[1..] else after;
    var prev := Last(0, before);
    EncodeAppend(0, before, after);
    EncodeAppend(0, before, [Opt(num, value)] + rest);
    EncodeCons(prev, Opt(num, value), rest);
    if after == [] {
      EncodeNothing(prev);
      EncodeNothing(num);
    } else {
      assert after == [after[0]] + after[1..] && after[0] == m.options[l.pos];
      EncodeCons(prev, after[0], after[1..]);
      if !l.found {
        EncodeCons(num, after[0], after[1..]);
        ShorterHeader(prev, num, after[0]);
      }
    }
  }

  lemma ShorterHeader(prev: uint16, num: uint16, o: Opt)
    requires prev <= num <= o.number
    ensures 0 <= |Format(prev, o)| - |Format(num, o)| <= 2
  {
  }

  lemma StoppedFacts(s: seq<byte>, num: uint16, spot: Spot)
    requires spot.p + spot.size <= |s| && Stopped(s, num, spot)
    ensures spot.prev <= num
    ensures !spot.found && !IsTail(s[spot.p..]) ==>
              Parse(s[spot.p..], spot.prev).Ok? && num < Parse(s[spot.p..], spot.prev).value.number
    ensures spot.found ==>
              Parse(s[spot.p..], spot.prev).Ok? && Parse(s[spot.p..], spot.prev).value.number == num
              && Parse(s[spot.p..], spot.prev).value.Consumed() == spot.size
  {
    hide Parse;
  }

  /** The bytes behind a position are the encoding of the options behind it. */
  lemma Behind(m: Msg, s: seq<byte>, p: nat, prev: uint16, k: nat)
    requires Between(m, s, p, prev, k)
    ensures k <= |m.options| && p <= |s|
    ensures s[..p] == m.header + EncodeList(0, m.options[..k])
    ensures s[p..] == EncodeList(prev, m.options[k..]) + m.tail
    ensures prev == Last(0, m.options[..k]) && IsTail(m.tail)
  {
  }

  lemma FirstEncoded(m: Msg, k: nat, to: uint16)
    requires k < |m.options|
    ensures EncodeList(to, m.options[k..]) + m.tail
         == Format(to, m.options[k]) + (EncodeList(m.options[k].number, m.options[k + 1..]) + m.tail)
  {
    hide Format, EncodeList;
    var o, rest := m.options[k], m.options[k + 1..];
    assert m.options[k..] == [o] + rest;
    EncodeCons(to, o, rest);
    assert Format(to, o) + EncodeList(o.number, rest) + m.tail == Format(to, o) + (EncodeList(o.number, rest) + m.tail);
  }

  /** Re-encoding the option behind position `k` re-encodes the list behind it. */
  lemma RefitList(m: Msg, s: seq<byte>, p: nat, prev: uint16, k: nat, to: uint16)
    requires Between(m, s, p, prev, k)
    ensures IsTail(s[p..]) || (Parse(s[p..], prev).Ok? && !Wrapped(s[p..], prev))
    ensures Refit(s[p..], prev, to) == EncodeList(to, m.options[k..]) + m.tail
  {
    hide Parse, ParsedOpt, Format, IsTail, Between, EncodeList;
    BetweenTail(m, s, p, prev, k);
    Behind(m, s, p, prev, k);
    if k < |m.options| {
      BetweenNext(m, s, p, prev, k);
      var o := m.options[k];
      var n := Parse(s[p..], prev).value.Consumed();
      Behind(m, s, p + n, o.number, k + 1);
      assert s[p..][n..] == s[p + n..];
      FirstEncoded(m, k, to);
    } else {
      assert m.options[k..] == [];
      EncodeNothing(to);
      assert [] + m.tail == m.tail;
    }
  }

  lemma SetSize(s: seq<byte>, num: uint16, idx: nat, value: seq<byte>)
    requires DecodeMsg(s).Some?
    ensures var r := Scan(s, num, idx);
            && r.Ok?
            && SizeOnSet(DecodeMsg(s).value, num, idx, value)
               == |AfterFailedSet(s, num, idx)| + |Format(r.value.prev, Opt(num, value))|
  {
    hide DecodeMsg, Scan, Between, EncodeMsg, Format, Locate;
    ScanLocates(s, num, idx);
    EncodeOfDecodeMsg(s);
    var m := DecodeMsg(s).value;
    var spot := Scan(s, num, idx).value;
    Behind(m, s, spot.p, spot.prev, Locate(m.options, num, idx).pos);
  }

  lemma SetDecodes(s: seq<byte>, num: uint16, idx: nat, value: seq<byte>)
    requires DecodeMsg(s).Some? && |value| <= MAX_VALUE_LEN
    ensures var m := DecodeMsg(s).value;
            var r := Scan(s, num, idx);
            && r.Ok? && Stopped(s, num, r.value)
            && DecodeMsg(SetBytes(s, num, r.value, value))
               == Some(m.(options := SetOpt(m.options, num, idx, value)))
  {
    hide DecodeMsg, Scan, Between, Format, Locate, Stopped, EncodeList, SetOpt, Refit, IsTail, Last;
    var m := DecodeMsg(s).value;
    ScanLocates(s, num, idx);
    ScanStops(s, num, idx);
    StoppedFacts(s, num, Scan(s, num, idx).value);
    var l := Locate(m.options, num, idx);
    var spot := Scan(s, num, idx).value;
    Behind(m, s, spot.p, spot.prev, l.pos);
    SetBehind(m, s, spot, l, num);
    EncodeOfDecodeMsg(s);
    SetRebuild(m, num, idx, value);
  }

  lemma SetRebuild(m: Msg, num: uint16, idx: nat, value: seq<byte>)
    requires m.WellFormed() && |value| <= MAX_VALUE_LEN
    ensures var l := Locate(m.options, num, idx);
            var prev := Last(0, m.options[..l.pos]);
            var after := if l.found then m.options[l.pos + 1..] else m.options[l.pos..];
            var back := EncodeList(num, after) + m.tail;
            DecodeMsg(m.header + EncodeList(0, m.options[..l.pos]) + Format(prev, Opt(num, value)) + back)
            == Some(m.(options := SetOpt(m.options, num, idx, value)))
  {
    hide DecodeMsg, Format, Locate, Ascending, EncodeList, SetOpt, ParseHeader, IsTail, Last;
    var o := Opt(num, value);
    var l := Locate(m.options, num, idx);
    var before := m.options[..l.pos];
    var prev := Last(0, before);
    var after := if l.found then m.options[l.pos + 1..] else m.options[l.pos..];
    SplitSet(m.options, num, idx, value);
    SetMeaning(m.options, num, idx, value);
    assert m.options[l.pos..][if l.found then 1 else 0..] == after;
    Rebuild(m, l.pos, [o], after);
    SingleList(prev, o);
    var enc := EncodeList(num, after) + m.tail;
    var front := m.header + EncodeList(0, before);
    assert front + Format(prev, o) + enc == front + (Format(prev, o) + enc);
  }

  lemma SingleList(prev: uint16, o: Opt)
    ensures EncodeList(prev, [o]) == Format(prev, o) && Last(prev, [o]) == o.number
  {
    hide Format;
    EncodeCons(prev, o, []);
    assert [o] + [] == [o];
  }

  /** What follows the new option, in both modes of `coapSetOption`. */
  lemma SetBehind(m: Msg, s: seq<byte>, spot: Spot, l: Location, num: uint16)
    requires Between(m, s, spot.p, spot.prev, l.pos) && spot.found == l.found
    requires spot.p + spot.size <= |s|
    requires !spot.found && !IsTail(s[spot.p..]) ==> Parse(s[spot.p..], spot.prev).Ok?
    requires l.found ==> l.pos < |m.options| && m.options[l.pos].number == num
                         && spot.size == |Format(spot.prev, m.options[l.pos])|
    ensures if l.found then s[spot.p + spot.size..] == EncodeList(num, m.options[l.pos + 1..]) + m.tail
            else Refit(s[spot.p..], spot.prev, num) == EncodeList(num, m.options[l.pos..]) + m.tail
  {
    hide Between, Format, Parse, Refit, IsTail, EncodeList;
    if l.found {
      BetweenNext(m, s, spot.p, spot.prev, l.pos);
      Behind(m, s, spot.p + spot.size, num, l.pos + 1);
    } else {
      RefitList(m, s, spot.p, spot.prev, l.pos, num);
    }
  }

  /** The options with every number lowered by `d`. */
  function ShiftDown(opts: seq<Opt>, d: uint16): (r: seq<Opt>)
    ensures |r| == |opts|
  {
    if opts == [] then []
    else
      [Opt(if d <= opts[0].number then opts[0].number - d else 0, opts[0].value)] + ShiftDown(opts[1..], d)
  }

  /** The same bytes, read after a number that is smaller by `d`. */
  lemma {:induction false} ShiftEncodes(prev: uint16, d: uint16, opts: seq<Opt>)
    requires d <= prev && Ascending(prev, opts)
    ensures EncodeList(prev, opts) == EncodeList(prev - d, ShiftDown(opts, d))
    ensures Ascending(prev - d, ShiftDown(opts, d))
    decreases |opts|
  {
    hide Format, EncodeList, Ascending, ShiftDown;
    if opts == [] {
      ShiftNothing(prev, d);
    } else {
      var o, rest := opts[0], opts[1..];
      assert opts == [o] + rest;
      EncodeCons(prev, o, rest);
      ShiftEncodes(o.number, d, rest);
      ShiftCons(o, rest, d);
      EncodeCons(prev - d, Opt(o.number - d, o.value), ShiftDown(rest, d));
      SameDelta(prev, o, d);
    }
  }

  lemma ShiftNothing(prev: uint16, d: uint16)
    requires d <= prev
    ensures EncodeList(prev, []) == [] == EncodeList(prev - d, ShiftDown([], d)) && Ascending(prev - d, ShiftDown([], d))
  {
  }

  lemma ShiftCons(o: Opt, rest: seq<Opt>, d: uint16)
    requires d <= o.number
    ensures ShiftDown([o] + rest, d) == [Opt(o.number - d, o.value)] + ShiftDown(rest, d)
  {
    assert ([o] + rest)[1..] == rest;
  }

  lemma SameDelta(prev: uint16, o: Opt, d: uint16)
    requires d <= prev <= o.number
    ensures Format(prev, o) == Format(prev - d, Opt(o.number - d, o.value))
  {
  }

  /**
   * When a replacement does not fit, the old occurrence is already gone and the options behind it
   * are read with numbers lowered by its delta. That is a clean deletion exactly when the delta
   * was zero or no option followed.
   */
  lemma FailedReplace(s: seq<byte>, num: uint16, idx: nat)
    requires DecodeMsg(s).Some?
    requires Locate(DecodeMsg(s).value.options, num, idx).found
    ensures var m := DecodeMsg(s).value;
            var l := Locate(m.options, num, idx);
            var before, after := m.options[..l.pos], m.options[l.pos + 1..];
            var prev := Last(0, before);
            && prev <= num
            && DecodeMsg(AfterFailedSet(s, num, idx)) == Some(m.(options := before + ShiftDown(after, num - prev)))
            && (before + ShiftDown(after, num - prev) == DeleteOpt(m.options, num, idx)
                <==> num == prev || after == [])
  {
    hide DecodeMsg, Scan, Between, Format, Locate, EncodeList, ParseHeader, IsTail, Last, Ascending, ShiftDown,
         AfterFailedSet, DeleteOpt;
    var m := DecodeMsg(s).value;
    var l := Locate(m.options, num, idx);
    var before, after := m.options[..l.pos], m.options[l.pos + 1..];
    EncodeOfDecodeMsg(s);
    FailedBytes(s, num, idx);
    var d: uint16 := num - Last(0, before);
    ShiftEncodes(num, d, after);
    EncodeAppend(0, before, ShiftDown(after, d));
    RebuildWithout(m, l.pos, ShiftDown(after, d));
    ShiftedBehind(num, before, after, d);
    DeletedList(m.options, num, idx);
  }

  lemma DeletedList(opts: seq<Opt>, num: uint16, idx: nat)
    requires Locate(opts, num, idx).found
    ensures var l := Locate(opts, num, idx); DeleteOpt(opts, num, idx) == opts[..l.pos] + opts[l.pos + 1..]
  {
  }

  /** The bytes that a failed replacement leaves behind. */
  lemma FailedBytes(s: seq<byte>, num: uint16, idx: nat)
    requires DecodeMsg(s).Some?
    requires Locate(DecodeMsg(s).value.options, num, idx).found
    ensures var m := DecodeMsg(s).value;
            var l := Locate(m.options, num, idx);
            var before, after := m.options[..l.pos], m.options[l.pos + 1..];
            && Last(0, before) <= num && Ascending(0, before) && Ascending(num, after)
            && AfterFailedSet(s, num, idx)
               == m.header + EncodeList(0, before) + (EncodeList(num, after) + m.tail)
  {
    hide DecodeMsg, Scan, Between, Format, Locate, EncodeList, ParseHeader, IsTail, Last, Ascending;
    var m := DecodeMsg(s).value;
    EncodeOfDecodeMsg(s);
    ScanLocates(s, num, idx);
    var l := Locate(m.options, num, idx);
    var spot := Scan(s, num, idx).value;
    Behind(m, s, spot.p, spot.prev, l.pos);
    BetweenNext(m, s, spot.p, spot.prev, l.pos);
    Behind(m, s, spot.p + spot.size, num, l.pos + 1);
    BetweenAscends(m, s, spot.p + spot.size, num, l.pos + 1);
    BetweenAscendsTo(m, s, spot.p, spot.prev, l.pos);
  }

  lemma ShiftedBehind(prev: uint16, before: seq<Opt>, after: seq<Opt>, d: uint16)
    requires Ascending(prev, after) && d <= prev
    ensures before + ShiftDown(after, d) == before + after <==> d == 0 || after == []
  {
    hide ShiftDown, Ascending;
    ShiftIsIdentity(prev, after, d);
    assert (before + ShiftDown(after, d))[|before|..] == ShiftDown(after, d);
    assert (before + after)[|before|..] == after;
  }

  lemma RebuildWithout(m: Msg, k: nat, after: seq<Opt>)
    requires m.WellFormed() && k <= |m.options| && Ascending(0, m.options[..k] + after)
    ensures DecodeMsg(m.header + EncodeList(0, m.options[..k])
                      + (EncodeList(Last(0, m.options[..k]), after) + m.tail))
         == Some(m.(options := m.options[..k] + after))
  {
    hide DecodeMsg, ParseHeader, Ascending, IsTail, Last, EncodeList;
    var prev := Last(0, m.options[..k]);
    assert [] + after == after;
    Rebuild(m, k, [], after);
    EncodeNothing(prev);
    LastNothing(prev);
    assert [] + (EncodeList(prev, after) + m.tail) == EncodeList(prev, after) + m.tail;
  }

  lemma BetweenAscends(m: Msg, s: seq<byte>, p: nat, prev: uint16, k: nat)
    requires Between(m, s, p, prev, k)
    ensures k <= |m.options| && Ascending(prev, m.options[k..])
  {
  }

  lemma BetweenAscendsTo(m: Msg, s: seq<byte>, p: nat, prev: uint16, k: nat)
    requires Between(m, s, p, prev, k) && m.WellFormed()
    ensures k <= |m.options| && Ascending(0, m.options[..k])
  {
    hide Ascending, EncodeList, IsTail, ParseHeader;
    assert m.options == m.options[..k] + m.options[k..];
    EncodeAppend(0, m.options[..k], m.options[k..]);
  }

  lemma ShiftIsIdentity(prev: uint16, opts: seq<Opt>, d: uint16)
    requires d <= prev && Ascending(prev, opts)
    ensures ShiftDown(opts, d) == opts <==> d == 0 || opts == []
  {
    if d == 0 {
      ShiftByZero(opts);
    } else if opts != [] {
      assert ShiftDown(opts, d)[0].number != opts[0].number;
    }
  }

  lemma {:induction false} ShiftByZero(opts: seq<Opt>)
    ensures ShiftDown(opts, 0) == opts
  {
    if opts != [] {
      ShiftByZero(opts[1..]);
      assert opts == [opts[0]] + opts[1..];
    }
  }

  // ---------------------------------------------------------------- coapDeleteOption

  lemma DeleteDecodes(s: seq<byte>, num: uint16, idx: nat)
    requires DecodeMsg(s).Some? && Scan(s, num, idx).Ok? && Scan(s, num, idx).value.found
    ensures var m := DecodeMsg(s).value;
            var spot := Scan(s, num, idx).value;
            var rest := s[spot.p + spot.size..];
            && (IsTail(rest) || (Parse(rest, num).Ok? && !Wrapped(rest, num)))
            && DecodeMsg(s[..spot.p] + Refit(rest, num, spot.prev))
               == Some(m.(options := DeleteOpt(m.options, num, idx)))
  {
    hide DecodeMsg, Scan, Between, Format, Locate, Ascending, EncodeList, Refit, ParseHeader, IsTail, Last, Parse, Wrapped;
    var m := DecodeMsg(s).value;
    ScanLocates(s, num, idx);
    EncodeOfDecodeMsg(s);
    var l := Locate(m.options, num, idx);
    var spot := Scan(s, num, idx).value;
    Behind(m, s, spot.p, spot.prev, l.pos);
    BetweenNext(m, s, spot.p, spot.prev, l.pos);
    RefitList(m, s, spot.p + spot.size, num, l.pos + 1, spot.prev);
    DeleteMeaning(m.options, num, idx);
    RebuildWithout(m, l.pos, m.options[l.pos + 1..]);
  }

  lemma LastNothing(prev: uint16)
    ensures Last(prev, []) == prev
  {
  }
}
