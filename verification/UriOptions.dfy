/**
 * `coapSplitRepeatableOption` and `coapJoinRepeatableOption`: a URI path or query against one
 * option per segment (sections 6.4 and 6.5 of RFC 7252).
 */
module UriOptions {
  import opened Bytes
  import opened OptionCodec
  import opened OptionList
  import opened MessageFormat
  import opened OptionEditor
  import opened OptionEdits
  import opened CoapMessage

  const AMPERSAND: byte := 0x26

  /** The first occurrence of `sep`, or the length. */
  function FirstSep(s: seq<byte>, sep: byte): (k: nat)
    ensures k <= |s|
    ensures sep !in s[..k]
    ensures k < |s| ==> s[k] == sep
  {
    if s == [] || s[0] == sep then 0
    else
      var k := FirstSep(s[1..], sep);
      assert s[..k + 1] == [s[0]] + s[1..][..k];
      k + 1
  }

  /** The non-empty segments between separators. */
  function Segments(s: seq<byte>, sep: byte): (r: seq<seq<byte>>)
    decreases |s|
  {
    var k := FirstSep(s, sep);
    var head := if k > 0 then [s[..k]] else [];
    if k == |s| then head else head + Segments(s[k + 1..], sep)
  }

  /** The text that joining adds to what is there already. */
  function Glue(text: seq<byte>, sep: byte): (r: seq<byte>)
  {
    if sep != AMPERSAND || text != [] then [sep] else []
  }

  /** A path has a separator before each segment, a query only between segments. */
  function JoinOnto(text: seq<byte>, vs: seq<seq<byte>>, sep: byte): (r: seq<byte>)
    decreases |vs|
  {
    if vs == [] then text else JoinOnto(text + Glue(text, sep) + vs[0], vs[1..], sep)
  }

  function Join(vs: seq<seq<byte>>, sep: byte): (r: seq<byte>)
  {
    JoinOnto([], vs, sep)
  }

  /** Values written over the first of the ones that were there. */
  function Overlay(vs: seq<seq<byte>>, old_: seq<seq<byte>>): (r: seq<seq<byte>>)
  {
    vs + if |vs| < |old_| then old_[|vs|..] else []
  }

  // ---------------------------------------------------------------- split

  lemma FirstSepAt(s: seq<byte>, k: nat, sep: byte)
    requires k <= |s| && sep !in s[..k] && (k < |s| ==> s[k] == sep)
    ensures FirstSep(s, sep) == k
  {
    if k > 0 {
      assert s[..k][0] == s[0];
      assert s[1..][..k - 1] == s[..k][1..];
      FirstSepAt(s[1..], k - 1, sep);
    }
  }

  lemma PutOverlay(done: seq<seq<byte>>, before: seq<seq<byte>>, v: seq<byte>)
    ensures Put(Overlay(done, before), |done|, v) == Overlay(done + [v], before)
  {
  }

  /** Storing one more segment, seen through the multimap. */
  lemma SplitStep(opts: seq<Opt>, was: seq<Opt>, num: uint16, done: seq<seq<byte>>, v: seq<byte>)
    requires Ascending(0, opts) && |v| <= MAX_VALUE_LEN
    requires Values(opts, num) == Overlay(done, Values(was, num))
    requires forall n: uint16 | n != num :: Values(opts, n) == Values(was, n)
    ensures var r := SetOpt(opts, num, |done|, v);
            && Values(r, num) == Overlay(done + [v], Values(was, num))
            && forall n: uint16 | n != num :: Values(r, n) == Values(was, n)
  {
    hide Values, SetOpt, Overlay, Put, Ascending;
    SetMeaning(opts, num, |done|, v);
    PutOverlay(done, Values(was, num), v);
  }

  /** `coapSplitRepeatableOption`. */
  method SplitRepeatable(message: Message, num: uint16, text: seq<byte>, sep: byte) returns (e: Error)
    requires message.Valid() && sep != 0 && 0 !in text
    modifies message`length, message.buffer
    ensures message.Valid()
    ensures old(message.View()).Some? && e == NoError ==>
              Stored(message.View(), old(message.View()).value, num, Segments(text, sep))
    ensures old(message.View()).Some? ==>
              e == if HasRoom(old(message.View()).value, num, 0, Segments(text, sep)) then NoError else BufferOverflow
    ensures old(message.View()).Some? ==>
              message.Bytes() == SplitResult(old(message.View()).value, num, 0, Segments(text, sep))
  {
    hide DecodeMsg, Values, SetOpt, Segments, Overlay, EncodeMsg, Ascending, Stored, HasRoom, SegmentsFrom, SizeOnSet,
         SplitResult, AfterFailedSet;
    ghost var w := message.View();
    ghost var done: seq<seq<byte>> := [];
    if w.Some? { NothingStored(w.value, num); }
    var i, j, index := 0, 0, 0;
    AllSegments(text, sep);
    while i <= |text|
      invariant message.Valid()
      invariant j <= i <= |text| + 1 && (i <= |text| ==> sep !in text[j..i]) && (i == |text| + 1 ==> j == i)
      invariant index == |done|
      invariant done + SegmentsFrom(text, j, sep) == Segments(text, sep)
      invariant w.Some? ==> message.View().Some? && Stored(message.View(), w.value, num, done)
      invariant w.Some? ==>
                  (HasRoom(w.value, num, 0, Segments(text, sep)) <==>
                   HasRoom(message.View().value, num, index, SegmentsFrom(text, j, sep)))
      invariant w.Some? ==>
                  SplitResult(w.value, num, 0, Segments(text, sep))
                  == SplitResult(message.View().value, num, index, SegmentsFrom(text, j, sep))
    {
      if i == |text| || text[i] == sep {
        SegmentStep(text, j, i, sep);
        if i - j > 0 {
          if w.Some? { RoomStep(message.View().value, num, index, text[j..i], SegmentsFrom(text, i + 1, sep)); }
          ghost var bytes := message.Bytes();
          e := StoreSegment(message, num, index, text[j..i], w, done);
          if w.Some? { EncodeOfDecodeMsg(bytes); }
          if e != NoError {
            return;
          }
          index := index + 1;
          done := done + [text[j..i]];
        }
        j := i + 1;
      }
      i := i + 1;
    }
    e := NoError;
    NoSegments(text, i, sep);
    assert done + [] == done;
    if w.Some? {
      RoomForNone(message.View().value, num, index);
      EncodeOfDecodeMsg(message.Bytes());
    }
  }

  /** The bytes that storing the segments leads to; a segment without room is where it stops. */
  ghost function SplitResult(m: Msg, num: uint16, index: nat, segments: seq<seq<byte>>): (s: seq<byte>)
    decreases |segments|
  {
    if segments == [] then EncodeMsg(m)
    else if SizeOnSet(m, num, index, segments[0]) > COAP_MAX_MSG_SIZE then AfterFailedSet(EncodeMsg(m), num, index)
    else SplitResult(m.(options := SetOpt(m.options, num, index, segments[0])), num, index + 1, segments[1..])
  }

  /** Every segment finds room when it is stored, one after the other. */
  ghost predicate HasRoom(m: Msg, num: uint16, index: nat, segments: seq<seq<byte>>)
    decreases |segments|
  {
    segments == [] ||
    (SizeOnSet(m, num, index, segments[0]) <= COAP_MAX_MSG_SIZE &&
     HasRoom(m.(options := SetOpt(m.options, num, index, segments[0])), num, index + 1, segments[1..]))
  }

  lemma RoomStep(m: Msg, num: uint16, index: nat, v: seq<byte>, rest: seq<seq<byte>>)
    ensures HasRoom(m, num, index, [v] + rest)
         == (SizeOnSet(m, num, index, v) <= COAP_MAX_MSG_SIZE &&
             HasRoom(m.(options := SetOpt(m.options, num, index, v)), num, index + 1, rest))
    ensures SplitResult(m, num, index, [v] + rest)
         == if SizeOnSet(m, num, index, v) > COAP_MAX_MSG_SIZE then AfterFailedSet(EncodeMsg(m), num, index)
            else SplitResult(m.(options := SetOpt(m.options, num, index, v)), num, index + 1, rest)
  {
    hide SizeOnSet, SetOpt, EncodeMsg, AfterFailedSet;
    assert ([v] + rest)[1..] == rest;
  }

  lemma RoomForNone(m: Msg, num: uint16, index: nat)
    ensures HasRoom(m, num, index, []) && SplitResult(m, num, index, []) == EncodeMsg(m)
  {
  }

  /**
   * On a message without the option, a split that fails leaves exactly the segments in front of the
   * first one that finds no room.
   */
  lemma FailedSplit(m: Msg, num: uint16, segments: seq<seq<byte>>) returns (k: nat, left: Msg)
    requires m.WellFormed() && Values(m.options, num) == [] && !HasRoom(m, num, 0, segments)
    ensures k < |segments| && DecodeMsg(SplitResult(m, num, 0, segments)) == Some(left)
    ensures Stored(Some(left), m, num, segments[..k])
  {
    hide Values, HasRoom, SplitResult, DecodeMsg;
    NothingStored(m, num);
    assert segments[..0] == [] && segments[0..] == segments;
    k, left := FailedFrom(m, m, num, segments, 0);
  }

  lemma {:induction false} FailedFrom(m: Msg, was: Msg, num: uint16, segments: seq<seq<byte>>, i: nat)
    returns (k: nat, left: Msg)
    requires m.WellFormed() && Values(was.options, num) == [] && i <= |segments|
    requires Stored(Some(m), was, num, segments[..i]) && !HasRoom(m, num, i, segments[i..])
    ensures k < |segments| && DecodeMsg(SplitResult(m, num, i, segments[i..])) == Some(left)
    ensures Stored(Some(left), was, num, segments[..k])
    decreases |segments| - i
  {
    hide Values, SplitResult, HasRoom, DecodeMsg, SizeOnSet, SetOpt, EncodeMsg, Stored, AfterFailedSet;
    if i == |segments| {
      assert segments[i..] == [];
      RoomForNone(m, num, i);
      assert false;
    }
    var v, rest := segments[i], segments[i + 1..];
    assert segments[i..] == [v] + rest && segments[..i + 1] == segments[..i] + [v];
    RoomStep(m, num, i, v, rest);
    StoredCount(m, was, num, segments[..i]);
    NothingRemoved(m, num, i, v);
    if SizeOnSet(m, num, i, v) > COAP_MAX_MSG_SIZE {
      k, left := i, m;
    } else {
      var next := m.(options := SetOpt(m.options, num, i, v));
      SetMeaning(m.options, num, i, v);
      StoredStep(Some(m), Some(next), was, num, segments[..i], v);
      k, left := FailedFrom(next, was, num, segments, i + 1);
    }
  }

  lemma StoredCount(m: Msg, was: Msg, num: uint16, done: seq<seq<byte>>)
    requires Stored(Some(m), was, num, done) && Values(was.options, num) == []
    ensures |Values(m.options, num)| == |done|
  {
    hide Values;
  }

  /** A new occurrence takes the place of none, so a failure changes nothing. */
  lemma NothingRemoved(m: Msg, num: uint16, idx: nat, v: seq<byte>)
    requires m.WellFormed() && idx == |Values(m.options, num)|
    ensures DecodeMsg(AfterFailedSet(EncodeMsg(m), num, idx)) == Some(m)
    ensures SizeOnSet(m, num, idx, v) <= COAP_MAX_MSG_SIZE ==> |v| <= MAX_VALUE_LEN
  {
    hide Values, Locate, Ascending, Between, DecodeMsg, EncodeMsg, Scan, Last;
    DecodeOfEncodeMsg(m);
    LocateMeaning(0, m.options, num, idx);
    ScanLocates(EncodeMsg(m), num, idx);
  }

  lemma AllSegments(text: seq<byte>, sep: byte)
    ensures SegmentsFrom(text, 0, sep) == Segments(text, sep)
  {
    assert text[0..] == text;
  }

  lemma NoSegments(text: seq<byte>, j: nat, sep: byte)
    ensures j > |text| ==> SegmentsFrom(text, j, sep) == []
  {
  }

  /** Adds one segment as the `index`-th occurrence of the option. */
  method StoreSegment(message: Message, num: uint16, index: nat, v: seq<byte>, ghost w: Option<Msg>, ghost done: seq<seq<byte>>)
    returns (e: Error)
    requires message.Valid() && index == |done|
    requires w.Some? ==> Stored(message.View(), w.value, num, done)
    modifies message`length, message.buffer
    ensures message.Valid()
    ensures w.Some? && e == NoError ==> Stored(message.View(), w.value, num, done + [v])
    ensures old(message.View()).Some? && e == NoError ==>
              message.View() == Some(old(message.View()).value.(
                options := SetOpt(old(message.View()).value.options, num, index, v)))
    ensures old(message.View()).Some? ==>
              e == if SizeOnSet(old(message.View()).value, num, index, v) > COAP_MAX_MSG_SIZE then BufferOverflow
                   else NoError
    ensures e == BufferOverflow ==> message.Bytes() == AfterFailedSet(old(message.Bytes()), num, index)
  {
    hide DecodeMsg, Values, SetOpt, Overlay, EncodeMsg, Ascending, SizeOnSet, AfterFailedSet;
    ghost var before, bytes := message.View(), message.Bytes();
    e := message.SetOption(num, index, v);
    if e == NoError && w.Some? {
      EncodeOfDecodeMsg(bytes);
      StoredStep(before, message.View(), w.value, num, done, v);
    }
  }

  /** The segments of the text from offset `j` on; nothing once the terminator was passed. */
  ghost function SegmentsFrom(text: seq<byte>, j: nat, sep: byte): (r: seq<seq<byte>>)
  {
    if j <= |text| then Segments(text[j..], sep) else []
  }

  lemma SegmentStep(text: seq<byte>, j: nat, i: nat, sep: byte)
    requires j <= i <= |text| && sep !in text[j..i] && (i < |text| ==> text[i] == sep)
    ensures i > j ==> SegmentsFrom(text, j, sep) == [text[j..i]] + SegmentsFrom(text, i + 1, sep)
    ensures i == j ==> SegmentsFrom(text, j, sep) == SegmentsFrom(text, i + 1, sep)
  {
    var s := text[j..];
    assert s[..i - j] == text[j..i];
    FirstSepAt(s, i - j, sep);
    if i < |text| {
      assert s[i - j + 1..] == text[i + 1..];
    }
  }

  lemma NothingStored(was: Msg, num: uint16)
    ensures Stored(Some(was), was, num, [])
  {
    hide Values;
    assert Overlay([], Values(was.options, num)) == Values(was.options, num);
  }

  /** The message holds the segments stored so far and is otherwise as it was. */
  ghost predicate Stored(now: Option<Msg>, was: Msg, num: uint16, done: seq<seq<byte>>)
  {
    && now.Some? && now.value.header == was.header && now.value.tail == was.tail
    && Values(now.value.options, num) == Overlay(done, Values(was.options, num))
    && forall n: uint16 | n != num :: Values(now.value.options, n) == Values(was.options, n)
  }

  lemma StoredStep(before: Option<Msg>, now: Option<Msg>, was: Msg, num: uint16, done: seq<seq<byte>>, v: seq<byte>)
    requires Stored(before, was, num, done)
    requires now == Some(before.value.(options := SetOpt(before.value.options, num, |done|, v)))
    requires Ascending(0, before.value.options) && |v| <= MAX_VALUE_LEN
    ensures Stored(now, was, num, done + [v])
  {
    hide Values, SetOpt, Overlay, Ascending;
    SplitStep(before.value.options, was.options, num, done, v);
  }

  // ---------------------------------------------------------------- join

  /** The values without the empty ones at the end. */
  function Trimmed(vs: seq<seq<byte>>): (r: seq<seq<byte>>)
    decreases |vs|
  {
    if vs != [] && vs[|vs| - 1] == [] then Trimmed(vs[..|vs| - 1]) else vs
  }

  /** As much as the output buffer holds. */
  function Clip(s: seq<byte>, maxLen: nat): (r: seq<byte>)
  {
    if |s| <= maxLen then s else s[..maxLen]
  }

  /**
   * `coapJoinRepeatableOption`: `text` is what the output buffer holds before the terminator. The
   * buffer overflows if and only if the text up to the last value that is not empty does not fit;
   * separators of empty values behind that one are lost without notice.
   */
  method JoinRepeatable(message: Message, num: uint16, maxLen: nat, sep: byte) returns (e: Error, text: seq<byte>)
    requires message.Valid()
    ensures |text| <= maxLen
    ensures message.View().Some? ==>
              var vs := Values(message.View().value.options, num);
              var needed := |Join(Trimmed(vs), sep)|;
              && e == (if needed <= maxLen then NoError else BufferOverflow)
              && (e == NoError ==> text == Clip(Join(vs, sep), maxLen))
              && (e == NoError && text != Join(vs, sep) <==> needed <= maxLen < |Join(vs, sep)|)
  {
    hide DecodeMsg, Values, Join, Trimmed, Joined, Clip;
    text := [];
    ghost var w := message.View();
    ghost var vs := if w.Some? then Values(w.value.options, num) else [];
    JoinStart(vs, sep, maxLen);
    e := NoError;
    var index: nat := 0;
    while e == NoError
      invariant |text| <= maxLen
      invariant e == NoError ==> index <= message.length
      invariant w.Some? ==> e == NoError || e == NotFound || e == BufferOverflow
      invariant w.Some? && e == NoError ==> Joined(text, vs, index, sep, maxLen)
      invariant w.Some? && e == NotFound ==>
                  text == Clip(Join(vs, sep), maxLen) && |Join(Trimmed(vs), sep)| <= maxLen
      invariant w.Some? && e == BufferOverflow ==> maxLen < |Join(Trimmed(vs), sep)|
      decreases e == NoError, message.length - index
    {
      var r := message.GetOption(num, index);
      if r.Err? {
        e := r.error;
        if w.Some? { JoinEnd(text, vs, index, sep, maxLen); }
      } else {
        if w.Some? { JoinStep(text, vs, index, sep, maxLen); }
        if sep != AMPERSAND || text != [] {
          if |text| < maxLen {
            text := text + [sep];
          }
        }
        if |text| + |r.value| <= maxLen {
          text := text + r.value;
        } else {
          e := BufferOverflow;
        }
      }
      index := index + 1;
    }
    if w.Some? { ClipLoses(Join(vs, sep), maxLen); }
    if e == NotFound {
      e := NoError;
    }
  }

  lemma ClipLoses(s: seq<byte>, maxLen: nat)
    ensures Clip(s, maxLen) != s <==> maxLen < |s|
  {
  }

  /** `text` is what joining has produced before value `index`. */
  ghost predicate Joined(text: seq<byte>, vs: seq<seq<byte>>, index: nat, sep: byte, maxLen: nat)
  {
    && index <= |vs| && text == Clip(Join(vs[..index], sep), maxLen)
    && |Join(Trimmed(vs[..index]), sep)| <= maxLen
  }

  lemma JoinStart(vs: seq<seq<byte>>, sep: byte, maxLen: nat)
    ensures Joined([], vs, 0, sep, maxLen)
  {
    assert vs[..0] == [];
  }

  lemma JoinEnd(text: seq<byte>, vs: seq<seq<byte>>, index: nat, sep: byte, maxLen: nat)
    requires Joined(text, vs, index, sep, maxLen) && index >= |vs|
    ensures text == Clip(Join(vs, sep), maxLen) && |Join(Trimmed(vs), sep)| <= maxLen
  {
    assert vs[..index] == vs;
  }

  /** The text with a separator behind it, if there is one and room for it. */
  function Separated(text: seq<byte>, sep: byte, maxLen: nat): (r: seq<byte>)
  {
    if (sep != AMPERSAND || text != []) && |text| < maxLen then text + [sep] else text
  }

  lemma JoinStep(text: seq<byte>, vs: seq<seq<byte>>, index: nat, sep: byte, maxLen: nat)
    requires Joined(text, vs, index, sep, maxLen) && index < |vs|
    ensures var t := Separated(text, sep, maxLen);
            if |t| + |vs[index]| <= maxLen then Joined(t + vs[index], vs, index + 1, sep, maxLen)
            else maxLen < |Join(Trimmed(vs), sep)|
  {
    hide Join, Trimmed, Clip, Separated;
    var done, v := vs[..index], vs[index];
    assert vs[..index + 1] == done + [v];
    JoinSnoc(done, v, sep);
    TrimSnoc(done, v);
    if sep == AMPERSAND && maxLen == 0 {
      EmptyQuery(done);
    }
    ClipStep(text, Join(done, sep), v, sep, maxLen);
    if v != [] {
      NeededGrows(vs, index, sep);
    }
  }

  lemma ClipStep(text: seq<byte>, full: seq<byte>, v: seq<byte>, sep: byte, maxLen: nat)
    requires text == Clip(full, maxLen) && (sep == AMPERSAND && maxLen == 0 ==> full == [])
    ensures var t, next := Separated(text, sep, maxLen), full + Glue(full, sep) + v;
            && (v == [] ==> |t| <= maxLen && t + v == Clip(next, maxLen))
            && (v != [] ==> (|t| + |v| <= maxLen <==> |next| <= maxLen))
            && (v != [] && |next| <= maxLen ==> t + v == Clip(next, maxLen))
  {
    var next := full + Glue(full, sep) + v;
    assert |full| > maxLen ==> next[..maxLen] == full[..maxLen];
  }

  lemma JoinSnoc(vs: seq<seq<byte>>, v: seq<byte>, sep: byte)
    ensures Join(vs + [v], sep) == Join(vs, sep) + Glue(Join(vs, sep), sep) + v
  {
    JoinOntoSnoc([], vs, v, sep);
  }

  lemma {:induction false} JoinOntoSnoc(text: seq<byte>, vs: seq<seq<byte>>, v: seq<byte>, sep: byte)
    ensures JoinOnto(text, vs + [v], sep)
         == JoinOnto(text, vs, sep) + Glue(JoinOnto(text, vs, sep), sep) + v
    decreases |vs|
  {
    hide Glue;
    if vs == [] {
      assert (vs + [v])[1..] == [];
    } else {
      assert (vs + [v])[1..] == vs[1..] + [v];
      JoinOntoSnoc(text + Glue(text, sep) + vs[0], vs[1..], v, sep);
    }
  }

  lemma TrimSnoc(vs: seq<seq<byte>>, v: seq<byte>)
    ensures Trimmed(vs + [v]) == if v == [] then Trimmed(vs) else vs + [v]
  {
    assert (vs + [v])[..|vs|] == vs;
  }

  /** In a query, empty values in front leave no trace. */
  lemma {:induction false} EmptyQuery(vs: seq<seq<byte>>)
    requires Join(Trimmed(vs), AMPERSAND) == []
    ensures Join(vs, AMPERSAND) == []
    decreases |vs|
  {
    hide Join;
    if vs != [] && vs[|vs| - 1] == [] {
      EmptyQuery(vs[..|vs| - 1]);
      JoinSnoc(vs[..|vs| - 1], [], AMPERSAND);
      assert vs == vs[..|vs| - 1] + [[]];
    }
  }

  /** What is needed for a value that is not empty is needed in the end. */
  lemma {:induction false} NeededGrows(vs: seq<seq<byte>>, index: nat, sep: byte)
    requires index < |vs| && vs[index] != []
    ensures |Join(vs[..index + 1], sep)| <= |Join(Trimmed(vs), sep)|
    decreases |vs|
  {
    hide Join;
    if vs[|vs| - 1] == [] {
      var init := vs[..|vs| - 1];
      NeededGrows(init, index, sep);
      assert init[..index + 1] == vs[..index + 1];
    } else {
      JoinPrefix(vs, index + 1, sep);
    }
  }

  lemma JoinPrefix(vs: seq<seq<byte>>, k: nat, sep: byte)
    requires k <= |vs|
    ensures |Join(vs[..k], sep)| <= |Join(vs, sep)|
  {
    hide JoinOnto;
    JoinOntoSplit([], vs[..k], vs[k..], sep);
    assert vs == vs[..k] + vs[k..];
    JoinGrows(Join(vs[..k], sep), vs[k..], sep);
  }

  lemma {:induction false} JoinOntoSplit(text: seq<byte>, a: seq<seq<byte>>, b: seq<seq<byte>>, sep: byte)
    ensures JoinOnto(text, a + b, sep) == JoinOnto(JoinOnto(text, a, sep), b, sep)
    decreases |a|
  {
    hide Glue;
    if a == [] {
      assert a + b == b;
    } else {
      assert (a + b)[1..] == a[1..] + b;
      JoinOntoSplit(text + Glue(text, sep) + a[0], a[1..], b, sep);
    }
  }

  /** The path values "a" and "" join to "/a/"; a buffer of 2 characters gets "/a" and no error. */
  lemma LostSeparator()
    ensures var vs: seq<seq<byte>> := [[0x61], []];
            && Join(vs, 0x2F) == [0x2F, 0x61, 0x2F] && |Join(Trimmed(vs), 0x2F)| == 2
            && Clip(Join(vs, 0x2F), 2) == [0x2F, 0x61]
  {
    var a: seq<seq<byte>> := [[0x61]];
    var vs: seq<seq<byte>> := [[0x61], []];
    assert vs == a + [[]];
    TrimSnoc(a, []);
    JoinSnoc(a, [], 0x2F);
    assert a == [] + [[0x61]];
    JoinSnoc([], [0x61], 0x2F);
  }

  lemma {:induction false} JoinGrows(text: seq<byte>, vs: seq<seq<byte>>, sep: byte)
    ensures |text| <= |JoinOnto(text, vs, sep)|
    decreases |vs|
  {
    if vs != [] {
      JoinGrows(text + Glue(text, sep) + vs[0], vs[1..], sep);
    }
  }

  // ---------------------------------------------------------------- round trips

  /** What a segment is: not empty and free of the separator. */
  ghost predicate AreSegments(vs: seq<seq<byte>>, sep: byte)
  {
    forall v | v in vs :: v != [] && sep !in v
  }

  lemma {:induction false} SegmentsAreSegments(s: seq<byte>, sep: byte)
    ensures AreSegments(Segments(s, sep), sep)
    decreases |s|
  {
    var k := FirstSep(s, sep);
    if k < |s| {
      SegmentsAreSegments(s[k + 1..], sep);
    }
  }

  /** The segments of a text that ends with one more segment. */
  lemma {:induction false} SegmentsSnoc(s: seq<byte>, v: seq<byte>, sep: byte)
    requires v != [] && sep !in v && (s == [] || s[|s| - 1] == sep)
    ensures Segments(s + v, sep) == Segments(s, sep) + [v]
    decreases |s|
  {
    hide Segments;
    if s == [] {
      assert s + v == v;
      SegmentsSingle(v, sep);
    } else {
      var k := FirstSep(s, sep);
      assert s[..|s|] == s && sep in s;
      SegmentsCut(s, k, sep);
      SegmentsSnoc(s[k + 1..], v, sep);
      assert (s + v)[..k] == s[..k] && (s + v)[k + 1..] == s[k + 1..] + v;
      SegmentsCut(s + v, k, sep);
    }
  }

  lemma SegmentsSingle(v: seq<byte>, sep: byte)
    requires v != [] && sep !in v
    ensures Segments(v, sep) == [v] && Segments([], sep) == []
  {
    assert v[..|v|] == v;
    FirstSepAt(v, |v|, sep);
    FirstSepAt([], 0, sep);
  }

  lemma SegmentsCut(s: seq<byte>, k: nat, sep: byte)
    requires k < |s| && sep !in s[..k] && s[k] == sep
    ensures Segments(s, sep) == (if k > 0 then [s[..k]] else []) + Segments(s[k + 1..], sep)
  {
    FirstSepAt(s, k, sep);
  }

  /** A trailing separator adds no segment. */
  lemma {:induction false} SegmentsTrailing(s: seq<byte>, sep: byte)
    ensures Segments(s + [sep], sep) == Segments(s, sep)
    decreases |s|
  {
    var k := FirstSep(s, sep);
    assert (s + [sep])[..k] == s[..k];
    FirstSepAt(s + [sep], k, sep);
    if k < |s| {
      assert (s + [sep])[k + 1..] == s[k + 1..] + [sep];
      SegmentsTrailing(s[k + 1..], sep);
    } else {
      assert (s + [sep])[k + 1..] == [];
      FirstSepAt([], 0, sep);
    }
  }

  lemma {:induction false} SegmentsOfJoinOnto(text: seq<byte>, vs: seq<seq<byte>>, sep: byte)
    requires AreSegments(vs, sep)
    ensures Segments(JoinOnto(text, vs, sep), sep) == Segments(text, sep) + vs
    decreases |vs|
  {
    hide Segments, Glue, AreSegments;
    if vs == [] {
      assert Segments(text, sep) + vs == Segments(text, sep);
    } else {
      var v, rest := vs[0], vs[1..];
      SegmentsRest(vs, sep);
      SegmentsGlue(text, v, sep);
      SegmentsOfJoinOnto(text + Glue(text, sep) + v, rest, sep);
      assert Segments(text, sep) + [v] + rest == Segments(text, sep) + vs;
    }
  }

  lemma SegmentsRest(vs: seq<seq<byte>>, sep: byte)
    requires vs != [] && AreSegments(vs, sep)
    ensures vs[0] != [] && sep !in vs[0] && AreSegments(vs[1..], sep)
  {
    assert vs[0] in vs;
    assert forall v | v in vs[1..] :: v in vs;
  }

  lemma SegmentsGlue(text: seq<byte>, v: seq<byte>, sep: byte)
    requires v != [] && sep !in v
    ensures Segments(text + Glue(text, sep) + v, sep) == Segments(text, sep) + [v]
  {
    hide Segments;
    var glued := text + Glue(text, sep);
    if Glue(text, sep) == [] {
      assert glued == text;
    } else {
      SegmentsTrailing(text, sep);
    }
    SegmentsSnoc(glued, v, sep);
  }

  /** Splitting a joined text gives back the options it was joined from. */
  lemma SplitOfJoin(vs: seq<seq<byte>>, sep: byte)
    requires AreSegments(vs, sep)
    ensures Segments(Join(vs, sep), sep) == vs
  {
    FirstSepAt([], 0, sep);
    SegmentsOfJoinOnto([], vs, sep);
    assert [] + vs == vs;
  }

  /** Joining a split text only drops empty segments: doing both again changes nothing more. */
  lemma JoinOfSplit(s: seq<byte>, sep: byte)
    ensures var t := Join(Segments(s, sep), sep);
            && Segments(t, sep) == Segments(s, sep)
            && Join(Segments(t, sep), sep) == t
            && Letters(t, sep) == Letters(s, sep)
  {
    SegmentsAreSegments(s, sep);
    SplitOfJoin(Segments(s, sep), sep);
    LettersOfSegments(s, sep);
    LettersOfSegments(Join(Segments(s, sep), sep), sep);
  }

  /** The text without its separators. */
  function Letters(s: seq<byte>, sep: byte): (r: seq<byte>)
  {
    if s == [] then [] else (if s[0] == sep then [] else [s[0]]) + Letters(s[1..], sep)
  }

  lemma {:induction false} LettersOfSegments(s: seq<byte>, sep: byte)
    ensures Letters(s, sep) == Concat(Segments(s, sep))
    decreases |s|
  {
    var k := FirstSep(s, sep);
    LettersPrefix(s, k, sep);
    if k < |s| {
      LettersOfSegments(s[k + 1..], sep);
      LettersSkip(s, k, sep);
      var rest := Segments(s[k + 1..], sep);
      ConcatCons(s[..k], rest);
      assert [] + rest == rest;
    } else {
      ConcatCons(s[..k], []);
      assert [s[..k]] + [] == [s[..k]];
    }
  }

  lemma LettersSkip(s: seq<byte>, k: nat, sep: byte)
    requires k < |s| && s[k] == sep
    ensures Letters(s[k..], sep) == Letters(s[k + 1..], sep)
  {
    assert s[k..][1..] == s[k + 1..];
  }

  lemma {:induction false} ConcatCons(v: seq<byte>, vs: seq<seq<byte>>)
    ensures Concat([v] + vs) == v + Concat(vs)
    decreases |vs|
  {
    var all := [v] + vs;
    if vs == [] {
      assert all[..0] == [];
    } else {
      var init, last := vs[..|vs| - 1], vs[|vs| - 1];
      ConcatCons(v, init);
      assert all[..|vs|] == [v] + init;
      assert all[|vs|] == last;
      assert v + Concat(init) + last == v + (Concat(init) + last);
    }
  }

  lemma {:induction false} LettersPrefix(s: seq<byte>, k: nat, sep: byte)
    requires k <= |s| && sep !in s[..k]
    ensures Letters(s, sep) == s[..k] + Letters(s[k..], sep)
    decreases k
  {
    if k == 0 {
      assert s[0..] == s;
    } else {
      assert s[..k][0] == s[0];
      assert s[1..][..k - 1] == s[..k][1..];
      LettersPrefix(s[1..], k - 1, sep);
      assert s[1..][k - 1..] == s[k..];
      assert s[..k] == [s[0]] + s[1..][..k - 1];
    }
  }

  // ---------------------------------------------------------------- the joined text

  /** Each value with a separator in front of it. */
  function Prefixed(vs: seq<seq<byte>>, sep: byte): (r: seq<seq<byte>>)
  {
    if vs == [] then [] else Prefixed(vs[..|vs| - 1], sep) + [[sep] + vs[|vs| - 1]]
  }

  lemma PrefixedSnoc(vs: seq<seq<byte>>, v: seq<byte>, sep: byte)
    ensures Concat(Prefixed(vs + [v], sep)) == Concat(Prefixed(vs, sep)) + ([sep] + v)
  {
    assert (vs + [v])[..|vs|] == vs;
    var p := Prefixed(vs, sep);
    assert (p + [[sep] + v])[..|p|] == p;
  }

  /** A path has a separator in front of every segment. */
  lemma {:induction false} JoinedPath(vs: seq<seq<byte>>, sep: byte)
    requires sep != 0x26
    ensures Join(vs, sep) == Concat(Prefixed(vs, sep))
    decreases |vs|
  {
    hide Join;
    if vs == [] {
      JoinNothing(sep);
    } else {
      var init, v := vs[..|vs| - 1], vs[|vs| - 1];
      assert vs == init + [v];
      JoinedPath(init, sep);
      JoinSnoc(init, v, sep);
      PrefixedSnoc(init, v, sep);
    }
  }

  lemma JoinNothing(sep: byte)
    ensures Join([], sep) == []
  {
  }

  /** A query has an ampersand between its arguments, and none in front of the first. */
  lemma {:induction false} JoinedQuery(vs: seq<seq<byte>>)
    requires vs != [] && vs[0] != []
    ensures Join(vs, 0x26) == vs[0] + Concat(Prefixed(vs[1..], 0x26))
    decreases |vs|
  {
    hide Join, Prefixed;
    var init, v := vs[..|vs| - 1], vs[|vs| - 1];
    assert vs == init + [v];
    JoinSnoc(init, v, 0x26);
    if init == [] {
      JoinNothing(0x26);
      assert vs[1..] == [];
      PrefixedNothing();
    } else {
      JoinedQuery(init);
      assert vs[1..] == init[1..] + [v];
      PrefixedSnoc(init[1..], v, 0x26);
    }
  }

  lemma PrefixedNothing()
    ensures Concat(Prefixed([], 0x26)) == []
  {
  }
}
