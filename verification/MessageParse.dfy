/**
 * Which bytes `coapParseMessage` accepts. It looks at every option but lets option numbers wrap, so
 * it accepts some bytes that are not the encoding of any message.
 */
module MessageParse {
  import opened Bytes
  import opened OptionCodec
  import opened MessageFormat

  /** Where the options from offset `p` on end, if all of them parse; else the first error. */
  function EndFrom(s: seq<byte>, p: nat, prev: uint16): (r: Result<nat>)
    requires p <= |s|
    ensures r.Ok? ==> p <= r.value <= |s| && IsTail(s[r.value..])
    decreases |s| - p
  {
    if IsTail(s[p..]) then Ok(p)
    else
      match Parse(s[p..], prev)
      case Err(e) => Err(e)
      case Ok(q) => EndFrom(s, p + q.Consumed(), q.number)
  }

  /** Some option number passes 65535. */
  predicate Wraps(s: seq<byte>, p: nat, prev: uint16)
    requires p <= |s|
    decreases |s| - p
  {
    !IsTail(s[p..]) &&
    match Parse(s[p..], prev)
    case Err(_) => false
    case Ok(q) => prev + q.rawDelta >= 0x1_0000 || Wraps(s, p + q.Consumed(), q.number)
  }

  /** The offset behind the options of a message. */
  function PayloadOffset(s: seq<byte>): (r: Result<nat>)
    ensures r.Ok? ==> r.value <= |s| && IsTail(s[r.value..])
  {
    match ParseHeader(s)
    case Err(e) => Err(e)
    case Ok(h) => EndFrom(s, h, 0)
  }

  /** The header and every option parse, and the payload marker has a payload behind it. */
  predicate IsAccepted(s: seq<byte>)
  {
    PayloadOffset(s).Ok? && s[PayloadOffset(s).value..] != [PAYLOAD_MARKER]
  }

  lemma EndStep(s: seq<byte>, p: nat, prev: uint16)
    requires p <= |s|
    ensures p == |s| || s[p] == PAYLOAD_MARKER ==> EndFrom(s, p, prev) == Ok(p)
    ensures p < |s| && s[p] != PAYLOAD_MARKER ==>
              EndFrom(s, p, prev) == match Parse(s[p..], prev)
                                     case Err(e) => Err(e)
                                     case Ok(q) => EndFrom(s, p + q.Consumed(), q.number)
  {
    hide Parse;
    assert p < |s| ==> s[p..][0] == s[p];
  }

  /** Options decode if and only if they all parse and no number wraps. */
  lemma {:induction false} ListDecodes(s: seq<byte>, p: nat, prev: uint16)
    requires p <= |s|
    ensures DecodeList(prev, s[p..]).Some? <==> EndFrom(s, p, prev).Ok? && !Wraps(s, p, prev)
    ensures DecodeList(prev, s[p..]).Some? ==> DecodeList(prev, s[p..]).value.tail == s[EndFrom(s, p, prev).value..]
    decreases |s| - p
  {
    hide Parse, ParsedOpt;
    if !IsTail(s[p..]) && Parse(s[p..], prev).Ok? {
      var q := Parse(s[p..], prev).value;
      ParsedFacts(s[p..], prev);
      assert s[p..][q.Consumed()..] == s[p + q.Consumed()..];
      ListDecodes(s, p + q.Consumed(), q.number);
    }
  }

  /**
   * The accepted bytes without a wrapping number are exactly the encodings of well-formed messages
   * in which a payload marker has a payload.
   */
  lemma AcceptedIff(s: seq<byte>)
    ensures DecodeMsg(s).Some? && DecodeMsg(s).value.tail != [PAYLOAD_MARKER]
       <==> IsAccepted(s) && !Wraps(s, ParseHeader(s).value, 0)
    ensures DecodeMsg(s).Some? ==> PayloadOffset(s).Ok? && s[PayloadOffset(s).value..] == DecodeMsg(s).value.tail
  {
    hide DecodeList, EndFrom, Wraps;
    if ParseHeader(s).Ok? {
      ListDecodes(s, ParseHeader(s).value, 0);
    }
  }

  /** An accepted message with an option number that wraps. */
  lemma WrappingExample()
    ensures var s: seq<byte> := [0x40, 0x01, 0x00, 0x00, 0xE0, 0xFF, 0xFF]; IsAccepted(s) && DecodeMsg(s).None?
  {
    var s: seq<byte> := [0x40, 0x01, 0x00, 0x00, 0xE0, 0xFF, 0xFF];
    assert ParseHeader(s) == Ok(4);
    assert s[4..] == [0xE0, 0xFF, 0xFF];
    WrappedDeltaExample();
    WrappedOption();
    assert s[7..] == [];
    assert EndFrom(s, 7, 268) == Ok(7);
  }

  lemma WrappedOption()
    ensures var s: seq<byte> := [0xE0, 0xFF, 0xFF];
            Parse(s, 0).Ok? && Parse(s, 0).value.Consumed() == 3 && Parse(s, 0).value.rawDelta >= 0x1_0000
  {
  }
}
