/**
 * The layout of a whole CoAP message (section 3 of RFC 7252): a header with its token, the option
 * list, and nothing or the payload marker followed by the payload.
 */
module MessageFormat {
  import opened Bytes
  import opened OptionCodec
  import opened OptionList

  const COAP_MAX_TOKEN_LEN := 8
  const HEADER_SIZE := 4

  /** `coapParseMessageHeader`: the number of bytes taken by the header and the token. */
  function ParseHeader(s: seq<byte>): (r: Result<nat>)
    ensures r.Ok? ==> HEADER_SIZE <= r.value <= |s|
  {
    if |s| < HEADER_SIZE then Err(InvalidHeader)
    else if s[0] / 64 != 1 then Err(InvalidVersion)
    else if s[0] % 16 > COAP_MAX_TOKEN_LEN then Err(InvalidHeader)
    else if |s| < HEADER_SIZE + s[0] % 16 then Err(InvalidHeader)
    else Ok(HEADER_SIZE + s[0] % 16)
  }

  datatype Msg = Msg(header: seq<byte>, options: seq<Opt>, tail: seq<byte>)
  {
    ghost predicate WellFormed()
    {
      ParseHeader(header) == Ok(|header|) && Ascending(0, options) && IsTail(tail)
    }

    function Payload(): seq<byte>
    {
      if tail == [] then [] else tail[1..]
    }
  }

  /** The method or response code of a message. */
  function Code(m: Msg): (c: byte)
  {
    if |m.header| < HEADER_SIZE then 0 else m.header[1]
  }

  function EncodeMsg(m: Msg): (s: seq<byte>)
  {
    m.header + EncodeList(0, m.options) + m.tail
  }

  function DecodeMsg(s: seq<byte>): (r: Option<Msg>)
  {
    var h := ParseHeader(s);
    if h.Err? then None else
    var d := DecodeList(0, s[h.value..]);
    if d.None? then None else Some(Msg(s[..h.value], d.value.opts, d.value.tail))
  }

  // ---------------------------------------------------------------- the header

  /**
   * The header and token of section 3 of RFC 7252: version 1, the type, the length of the token, the
   * code, the message identifier and the token.
   */
  function Header(kind: nat, code: byte, mid: uint16, token: seq<byte>): (h: seq<byte>)
    requires kind < 4 && |token| <= 8
  {
    [1 * 64 + kind * 16 + |token|, code, mid / 256, mid % 256] + token
  }

  /** The first byte is made of the version, the type and the length of the token. */
  lemma FirstByte(version: nat, kind: nat, length: nat)
    requires version < 4 && kind < 4 && length < 16
    ensures var b := version * 64 + kind * 16 + length;
            b < 256 && b / 64 == version && b / 16 % 4 == kind && b % 16 == length
  {
    var b := version * 64 + kind * 16 + length;
    DivMod(b, 64, version, kind * 16 + length);
    DivMod(b, 16, version * 4 + kind, length);
    DivMod(version * 4 + kind, 4, version, kind);
  }

  /** Every header is accepted, whatever follows it, and ends behind its token. */
  lemma HeaderParses(kind: nat, code: byte, mid: uint16, token: seq<byte>, rest: seq<byte>)
    requires kind < 4 && |token| <= 8
    ensures ParseHeader(Header(kind, code, mid, token) + rest) == Ok(4 + |token|)
    ensures forall opts, tail :: Code(Msg(Header(kind, code, mid, token), opts, tail)) == code
  {
    FirstByte(1, kind, |token|);
  }

  /** Every accepted header is that of some type, code, identifier and token ... */
  lemma HeaderOfParsed(s: seq<byte>)
    requires ParseHeader(s).Ok?
    ensures var n := ParseHeader(s).value;
            && 4 <= n <= |s| && n - 4 <= 8
            && s[..n] == Header(s[0] / 16 % 4, s[1], s[2] as int * 256 + s[3] as int, s[4..n])
  {
    var n := ParseHeader(s).value;
    var v, k, l := s[0] / 64, s[0] / 16 % 4, s[0] % 16;
    assert s[0] == v * 64 + k * 16 + l by {
      DivMod(s[0] / 16, 4, s[0] / 64, s[0] / 16 % 4);
    }
    FirstByte(v, k, l);
    DivMod(s[2] as int * 256 + s[3] as int, 256, s[2], s[3]);
    assert s[..n] == [s[0], s[1], s[2], s[3]] + s[4..n];
  }

  /** ... and of no other. */
  lemma HeaderUnique(k: nat, c: byte, m: uint16, t: seq<byte>, k': nat, c': byte, m': uint16, t': seq<byte>)
    requires k < 4 && |t| <= 8 && k' < 4 && |t'| <= 8 && Header(k, c, m, t) == Header(k', c', m', t')
    ensures k == k' && c == c' && m == m' && t == t'
  {
    var h, h' := Header(k, c, m, t), Header(k', c', m', t');
    assert h[0] == h'[0] && h[1] == h'[1] && h[2] == h'[2] && h[3] == h'[3] && h[4..] == h'[4..];
    FirstByte(1, k, |t|);
    FirstByte(1, k', |t'|);
  }

  /** What is refused, and with which error. */
  lemma HeaderErrors(version: nat, kind: nat, length: nat, rest: seq<byte>)
    requires version < 4 && kind < 4 && length < 16 && |rest| >= 3
    ensures var s := [version * 64 + kind * 16 + length] + rest;
            ParseHeader(s) == if version != 1 then Err(InvalidVersion)
                              else if length >= 9 || |s| < 4 + length then Err(InvalidHeader)
                              else Ok(4 + length)
  {
    FirstByte(version, kind, length);
  }

  lemma ShortHeader(s: seq<byte>)
    requires |s| < 4
    ensures ParseHeader(s) == Err(InvalidHeader)
  {
  }

  // ---------------------------------------------------------------- encoding and decoding

  lemma HeaderPrefix(h: seq<byte>, rest: seq<byte>)
    requires ParseHeader(h) == Ok(|h|)
    ensures ParseHeader(h + rest) == Ok(|h|)
  {
  }

  /** Decoding inverts encoding on every well-formed message ... */
  lemma DecodeOfEncodeMsg(m: Msg)
    requires m.WellFormed()
    ensures DecodeMsg(EncodeMsg(m)) == Some(m)
  {
    hide ParseHeader, DecodeList, EncodeList, Ascending, IsTail;
    var body := EncodeList(0, m.options) + m.tail;
    assert EncodeMsg(m) == m.header + body;
    HeaderPrefix(m.header, body);
    assert (m.header + body)[|m.header|..] == body;
    DecodeOfEncode(0, m.options, m.tail);
  }

  /** ... and every byte string that decodes is the encoding of what it decodes to. */
  lemma EncodeOfDecodeMsg(s: seq<byte>)
    requires DecodeMsg(s).Some?
    ensures DecodeMsg(s).value.WellFormed() && EncodeMsg(DecodeMsg(s).value) == s
  {
    hide DecodeList, EncodeList, Ascending, IsTail;
    var n := ParseHeader(s).value;
    EncodeOfDecode(0, s[n..]);
    var m := DecodeMsg(s).value;
    assert s == s[..n] + s[n..];
    assert EncodeMsg(m) == m.header + (EncodeList(0, m.options) + m.tail);
  }

  // ---------------------------------------------------------------- positions inside a message

  /** Offset `p` of `s` lies between options `k - 1` and `k` of `m`; `prev` is the number before it. */
  ghost predicate Between(m: Msg, s: seq<byte>, p: nat, prev: uint16, k: nat)
  {
    && k <= |m.options| && p <= |s|
    && s[..p] == m.header + EncodeList(0, m.options[..k])
    && s[p..] == EncodeList(prev, m.options[k..]) + m.tail
    && prev == Last(0, m.options[..k])
    && Ascending(prev, m.options[k..])
    && IsTail(m.tail)
  }

  lemma BetweenStart(s: seq<byte>)
    requires DecodeMsg(s).Some?
    ensures ParseHeader(s).Ok? && Between(DecodeMsg(s).value, s, ParseHeader(s).value, 0, 0)
  {
    hide ParseHeader, DecodeList, Ascending, IsTail;
    var m := DecodeMsg(s).value;
    var n := ParseHeader(s).value;
    EncodeOfDecode(0, s[n..]);
    assert m.options[..0] == [] && m.options[0..] == m.options;
    assert m.header + [] == m.header;
  }

  /** Only the end of the option list looks like a payload marker or the end of the message. */
  lemma BetweenTail(m: Msg, s: seq<byte>, p: nat, prev: uint16, k: nat)
    requires Between(m, s, p, prev, k)
    ensures IsTail(s[p..]) <==> k == |m.options|
    ensures k == |m.options| ==> s[p..] == m.tail
  {
    if k < |m.options| {
      hide Format;
      assert EncodeList(prev, m.options[k..])[0] == Format(prev, m.options[k])[0];
    } else {
      assert m.options[k..] == [];
      assert [] + m.tail == m.tail;
    }
  }

  /** Parsing at a position yields the next option and leads to the next position. */
  lemma BetweenNext(m: Msg, s: seq<byte>, p: nat, prev: uint16, k: nat)
    requires Between(m, s, p, prev, k) && k < |m.options|
    ensures var r := Parse(s[p..], prev);
            && r.Ok? && ParsedOpt(s[p..], r.value) == m.options[k]
            && r.value.number == m.options[k].number
            && prev <= m.options[k].number
            && prev + r.value.rawDelta < 0x1_0000
            && r.value.Consumed() == |Format(prev, m.options[k])|
            && Between(m, s, p + r.value.Consumed(), m.options[k].number, k + 1)
  {
    hide EncodeList, Format, Parse, ParsedOpt, Ascending, IsTail, Last, Delta, HeaderSize;
    BetweenHead(m, s, p, prev, k);
    var o := m.options[k];
    var tail := EncodeList(o.number, m.options[k + 1..]) + m.tail;
    ParseOfFormat(prev, o, tail);
    DeltaOf(prev, o.number);
    BetweenShift(m, s, p, prev, k);
  }

  lemma DeltaOf(prev: uint16, number: uint16)
    requires prev <= number
    ensures Delta(prev, number) == number - prev
  {
  }

  /** The bytes behind a position start with the next option. */
  lemma BetweenHead(m: Msg, s: seq<byte>, p: nat, prev: uint16, k: nat)
    requires Between(m, s, p, prev, k) && k < |m.options|
    ensures p <= |s|
    ensures var o, rest := m.options[k], m.options[k + 1..];
            && prev <= o.number && |o.value| <= MAX_VALUE_LEN && Ascending(o.number, rest)
            && s[p..] == Format(prev, o) + (EncodeList(o.number, rest) + m.tail)
  {
    hide EncodeList, Format, Ascending, IsTail, Last;
    var o, rest := m.options[k], m.options[k + 1..];
    assert m.options[k..] == [o] + rest;
    EncodeCons(prev, o, rest);
    assert Format(prev, o) + EncodeList(o.number, rest) + m.tail == Format(prev, o) + (EncodeList(o.number, rest) + m.tail);
  }

  lemma BetweenShift(m: Msg, s: seq<byte>, p: nat, prev: uint16, k: nat)
    requires Between(m, s, p, prev, k) && k < |m.options|
    requires |Format(prev, m.options[k])| <= |s| - p
    requires s[p..] == Format(prev, m.options[k]) + (EncodeList(m.options[k].number, m.options[k + 1..]) + m.tail)
    requires Ascending(m.options[k].number, m.options[k + 1..])
    ensures Between(m, s, p + |Format(prev, m.options[k])|, m.options[k].number, k + 1)
  {
    hide Format, Ascending, IsTail, EncodeList;
    var o := m.options[k];
    var before := m.options[..k];
    var q := p + |Format(prev, o)|;
    assert m.options[..k + 1] == before + [o];
    EncodeAppend(0, before, [o]);
    EncodeCons(prev, o, []);
    EncodeNothing(o.number);
    assert [o] + [] == [o];
    assert s[..q] == s[..p] + s[p..][..|Format(prev, o)|];
    assert s[q..] == s[p..][|Format(prev, o)|..];
  }

  lemma EncodeNothing(prev: uint16)
    ensures EncodeList(prev, []) == []
  {
  }

  /** A message put together again around position `k`. */
  lemma Rebuild(m: Msg, k: nat, mid: seq<Opt>, after: seq<Opt>)
    requires m.WellFormed() && k <= |m.options|
    requires Ascending(0, m.options[..k] + (mid + after))
    ensures var prev := Last(0, m.options[..k]);
            var back := EncodeList(prev, mid) + (EncodeList(Last(prev, mid), after) + m.tail);
            DecodeMsg(m.header + EncodeList(0, m.options[..k]) + back)
            == Some(m.(options := m.options[..k] + (mid + after)))
  {
    hide DecodeMsg, ParseHeader, Ascending, IsTail, EncodeList, Last;
    var before := m.options[..k];
    var prev := Last(0, before);
    EncodeAppend(0, before, mid + after);
    EncodeAppend(prev, mid, after);
    var r := m.(options := before + (mid + after));
    DecodeOfEncodeMsg(r);
    assert EncodeMsg(r)
        == m.header + EncodeList(0, before)
           + (EncodeList(prev, mid) + (EncodeList(Last(prev, mid), after) + m.tail));
  }
}
