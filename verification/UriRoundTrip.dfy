/** Splitting a URI path or query into options, joining it again and splitting the result. */
module UriRoundTrip {
  import opened Bytes
  import opened OptionCodec
  import opened OptionList
  import opened MessageFormat
  import opened OptionEdits
  import opened CoapMessage
  import opened UriOptions

  /**
   * On a message without the option, the joined text is the input with its empty segments removed,
   * and splitting that again succeeds and changes nothing: the message holds exactly the segments
   * of the input, and everything else is as it was.
   */
  method SplitJoinSplit(message: Message, num: uint16, text: seq<byte>, sep: byte, maxLen: nat)
    returns (e: Error, joined: seq<byte>)
    requires message.Valid() && message.View().Some? && sep != 0 && 0 !in text
    requires Values(message.View().value.options, num) == [] && |Join(Segments(text, sep), sep)| <= maxLen
    modifies message`length, message.buffer
    ensures message.Valid()
    ensures e == if HasRoom(old(message.View()).value, num, 0, Segments(text, sep)) then NoError else BufferOverflow
    ensures e == NoError ==>
              && joined == Join(Segments(text, sep), sep) && Segments(joined, sep) == Segments(text, sep)
              && Letters(joined, sep) == Letters(text, sep)
              && Stored(message.View(), old(message.View()).value, num, Segments(text, sep))
              && Values(message.View().value.options, num) == Segments(text, sep)
  {
    hide DecodeMsg, Values, Segments, Join, HasRoom, Trimmed, Letters, EncodeMsg, Overlay, Clip;
    ghost var segments := Segments(text, sep);
    ghost var start := message.View().value;
    joined := [];
    e := SplitRepeatable(message, num, text, sep);
    if e != NoError {
      return;
    }
    ghost var bytes := message.Bytes();
    ghost var once := message.View().value;
    FirstStored(message.View(), start, num, segments);
    SegmentsAreSegments(text, sep);
    NothingToTrim(segments, sep);
    e, joined := JoinRepeatable(message, num, maxLen, sep);
    ClipAll(Join(segments, sep), maxLen);
    JoinOfSplit(text, sep);
    JoinHasNoNul(text, sep);
    EncodeOfDecodeMsg(bytes);
    RoomAgain(once, num, 0, segments);
    assert segments[0..] == segments;
    e := SplitRepeatable(message, num, joined, sep);
    StoredTwice(message.View(), once, start, num, segments);
  }

  lemma ClipAll(s: seq<byte>, maxLen: nat)
    requires |s| <= maxLen
    ensures Clip(s, maxLen) == s
  {
  }

  lemma FirstStored(now: Option<Msg>, was: Msg, num: uint16, segments: seq<seq<byte>>)
    requires Stored(now, was, num, segments) && Values(was.options, num) == []
    ensures Values(now.value.options, num) == segments
  {
    hide Values;
  }

  lemma StoredTwice(now: Option<Msg>, once: Msg, was: Msg, num: uint16, segments: seq<seq<byte>>)
    requires Stored(Some(once), was, num, segments) && Values(was.options, num) == []
    requires Stored(now, once, num, segments)
    ensures Stored(now, was, num, segments) && Values(now.value.options, num) == segments
  {
    hide Values;
  }

  lemma NothingToTrim(vs: seq<seq<byte>>, sep: byte)
    requires AreSegments(vs, sep)
    ensures Trimmed(vs) == vs
  {
    assert vs != [] ==> vs[|vs| - 1] in vs;
  }

  /** Joining puts no NUL into a text that had none. */
  lemma JoinHasNoNul(text: seq<byte>, sep: byte)
    requires 0 !in text && sep != 0
    ensures 0 !in Join(Segments(text, sep), sep)
  {
    SegmentsNoNul(text, sep);
    JoinOntoNoNul([], Segments(text, sep), sep);
  }

  lemma {:induction false} SegmentsNoNul(text: seq<byte>, sep: byte)
    requires 0 !in text
    ensures forall v | v in Segments(text, sep) :: 0 !in v
    decreases |text|
  {
    var k := FirstSep(text, sep);
    assert forall b | b in text[..k] :: b in text;
    if k < |text| {
      assert forall b | b in text[k + 1..] :: b in text;
      SegmentsNoNul(text[k + 1..], sep);
    }
  }

  lemma {:induction false} JoinOntoNoNul(text: seq<byte>, vs: seq<seq<byte>>, sep: byte)
    requires 0 !in text && sep != 0 && forall v | v in vs :: 0 !in v
    ensures 0 !in JoinOnto(text, vs, sep)
    decreases |vs|
  {
    if vs != [] {
      assert vs[0] in vs && forall v | v in vs[1..] :: v in vs;
      JoinOntoNoNul(text + Glue(text, sep) + vs[0], vs[1..], sep);
    }
  }

  /** Storing a value that is there already changes nothing and takes no room. */
  lemma SetAgain(m: Msg, num: uint16, k: nat)
    requires m.WellFormed() && k < |Values(m.options, num)|
    ensures var v := Values(m.options, num)[k];
            SetOpt(m.options, num, k, v) == m.options && SizeOnSet(m, num, k, v) == |EncodeMsg(m)|
  {
    hide Values, Locate, Format, EncodeMsg, Last, Ascending;
    LocateMeaning(0, m.options, num, k);
    var l := Locate(m.options, num, k);
    assert m.options[l.pos..][0] == m.options[l.pos];
    assert m.options[l.pos] == Opt(num, Values(m.options, num)[k]);
  }

  lemma {:induction false} RoomAgain(m: Msg, num: uint16, k: nat, segments: seq<seq<byte>>)
    requires m.WellFormed() && Values(m.options, num) == segments && k <= |segments|
    requires |EncodeMsg(m)| <= COAP_MAX_MSG_SIZE
    ensures HasRoom(m, num, k, segments[k..])
    decreases |segments| - k
  {
    hide Values, SetOpt, SizeOnSet, EncodeMsg;
    if k < |segments| {
      SetAgain(m, num, k);
      RoomAgain(m, num, k + 1, segments);
      assert segments[k..] == [segments[k]] + segments[k + 1..];
      RoomStep(m, num, k, segments[k], segments[k + 1..]);
    }
  }
}
