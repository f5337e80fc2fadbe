/**
 * The CoAP option format of section 3.1 of RFC 7252: `coapParseOption`, `coapFormatOption`
 * and the encoding of a whole option list.
 */
module OptionCodec {
  import opened Bytes

  const PAYLOAD_MARKER: byte := 0xFF
  /** Largest option length that the 16-bit extended field can carry. */
  const MAX_VALUE_LEN := 0xFFFF + 269

  /** An option as the application sees it: a number and a value. */
  datatype Opt = Opt(number: uint16, value: seq<byte>)

  // ---------------------------------------------------------------- formatting

  /** The 4-bit field that announces `v` (COAP_OPT_DELTA_* and COAP_OPT_LEN_*). */
  function Nibble(v: nat): (n: byte)
    ensures n <= 14
  {
    if v >= 269 then 14 else if v >= 13 then 13 else v
  }

  /** The 0, 1 or 2 extension bytes that follow the initial byte. */
  function Ext(v: nat): (s: seq<byte>)
    ensures |s| <= 2
  {
    if v >= 269 then [(v - 269) / 256 % 256, (v - 269) % 256]
    else if v >= 13 then [v - 13]
    else []
  }

  /** The 16-bit difference that `coapFormatOption` stores in `option->delta`. */
  function Delta(prev: uint16, number: uint16): (d: uint16)
  {
    if prev <= number then number - prev else number - prev + 0x1_0000
  }

  function HeaderSize(delta: nat, length: nat): (n: nat)
    ensures 1 <= n <= 5
  {
    1 + |Ext(delta)| + |Ext(length)|
  }

  function Format(prev: uint16, o: Opt): (s: seq<byte>)
    ensures |s| == HeaderSize(Delta(prev, o.number), |o.value|) + |o.value|
    ensures s[0] != PAYLOAD_MARKER
  {
    var d := Delta(prev, o.number);
    [Nibble(d) * 16 + Nibble(|o.value|)] + Ext(d) + Ext(|o.value|) + o.value
  }

  /** How a delta or a length is written: in 4 bits, in one byte more, or in two, high byte first. */
  lemma FieldLayout(v: nat)
    requires v <= MAX_VALUE_LEN
    ensures v < 13 ==> Nibble(v) == v && Ext(v) == []
    ensures 13 <= v < 269 ==> Nibble(v) == 13 && |Ext(v)| == 1 && v == 13 + Ext(v)[0] as int
    ensures 269 <= v ==> Nibble(v) == 14 && |Ext(v)| == 2 && v == 269 + 256 * (Ext(v)[0] as int) + Ext(v)[1] as int
  {
    if v >= 269 {
      var q := (v - 269) / 256;
      DivMod(q, 256, 0, q);
    }
  }

  /** An option starts with its delta in the high and its length in the low 4 bits, and ends with its value. */
  lemma OptionLayout(prev: uint16, o: Opt)
    requires prev <= o.number && |o.value| <= MAX_VALUE_LEN
    ensures var s, d, n := Format(prev, o), Nibble(o.number - prev), Nibble(|o.value|);
            && s[0] / 16 == d && s[0] % 16 == n
            && s[1..] == Ext(o.number - prev) + Ext(|o.value|) + o.value
  {
    hide Nibble, Ext;
    NibblePair(Nibble(o.number - prev), Nibble(|o.value|));
  }

  // ---------------------------------------------------------------- parsing

  function Load8(b: byte): (v: nat) { b }

  function Load16(hi: byte, lo: byte): (v: nat) { hi * 256 + lo }

  /** Storing a sum below 2^17 in a 16-bit field. */
  function Wrap16(v: nat): (r: uint16)
    requires v < 0x2_0000
  {
    if v < 0x1_0000 then v else v - 0x1_0000
  }

  datatype Field = Field(value: nat, size: nat)

  /** One Option Delta or Option Length field; `s` starts after what was already consumed. */
  function ParseField(nibble: nat, s: seq<byte>): (r: Result<Field>)
    ensures r.Ok? ==> r.value.size <= |s| && (nibble < 16 ==> r.value.value <= MAX_VALUE_LEN)
  {
    if nibble == 15 then Err(InvalidMessage)
    else if nibble == 14 then
      if |s| < 2 then Err(BufferUnderflow) else Ok(Field(Load16(s[0], s[1]) + 269, 2))
    else if nibble == 13 then
      if |s| < 1 then Err(BufferUnderflow) else Ok(Field(Load8(s[0]) + 13, 1))
    else Ok(Field(nibble, 0))
  }

  /**
   * What `coapParseOption` leaves in its out-parameters: the option number, the offset of the
   * value and its length. `rawDelta` is the delta before it is stored in 16 bits.
   */
  datatype Parsed = Parsed(number: uint16, rawDelta: nat, at: nat, len: nat)
  {
    function Consumed(): (n: nat)
      ensures at <= n
    {
      at + len
    }
  }

  function Parse(s: seq<byte>, prev: uint16): (r: Result<Parsed>)
    ensures r.Ok? ==> 0 < r.value.at && r.value.Consumed() <= |s|
  {
    if |s| < 1 then Err(BufferUnderflow) else
    var d := ParseField(s[0] / 16, s[1..]);
    if d.Err? then Err(d.error) else
    var l := ParseField(s[0] % 16, s[1 + d.value.size..]);
    if l.Err? then Err(l.error) else
    var at := 1 + d.value.size + l.value.size;
    if |s| - at < l.value.value then Err(BufferUnderflow) else
    Ok(Parsed(Wrap16(Wrap16(d.value.value) + prev), d.value.value, at, l.value.value))
  }

  /** The option that a successful parse describes. */
  function ParsedOpt(s: seq<byte>, p: Parsed): (o: Opt)
    requires p.Consumed() <= |s|
  {
    Opt(p.number, s[p.at..p.Consumed()])
  }

  // ---------------------------------------------------------------- one option: inverse both ways

  lemma FieldRoundTrip(v: nat, rest: seq<byte>)
    requires v <= MAX_VALUE_LEN
    ensures ParseField(Nibble(v), Ext(v) + rest) == Ok(Field(v, |Ext(v)|))
  {
  }

  lemma FieldUnique(nibble: nat, s: seq<byte>)
    requires nibble < 16 && ParseField(nibble, s).Ok?
    ensures var f := ParseField(nibble, s).value;
            f.value <= MAX_VALUE_LEN && Nibble(f.value) == nibble && Ext(f.value) == s[..f.size]
  {
  }

  lemma NibblePair(hi: nat, lo: nat)
    requires hi < 16 && lo < 16
    ensures (hi * 16 + lo) / 16 == hi && (hi * 16 + lo) % 16 == lo
  {
  }

  /** Parsing a formatted option returns it and consumes exactly what was written. */
  lemma ParseOfFormat(prev: uint16, o: Opt, rest: seq<byte>)
    requires |o.value| <= MAX_VALUE_LEN
    ensures var s := Format(prev, o) + rest;
            var d := Delta(prev, o.number);
            var r := Parse(s, prev);
            && r == Ok(Parsed(o.number, d, HeaderSize(d, |o.value|), |o.value|))
            && r.value.Consumed() == |Format(prev, o)|
            && ParsedOpt(s, r.value) == o
  {
    hide ParseField, Nibble, Ext;
    var d := Delta(prev, o.number);
    var s := Format(prev, o) + rest;
    NibblePair(Nibble(d), Nibble(|o.value|));
    assert s[1..] == Ext(d) + (Ext(|o.value|) + o.value + rest);
    FieldRoundTrip(d, Ext(|o.value|) + o.value + rest);
    assert s[1 + |Ext(d)|..] == Ext(|o.value|) + (o.value + rest);
    FieldRoundTrip(|o.value|, o.value + rest);
    assert s[HeaderSize(d, |o.value|)..|Format(prev, o)|] == o.value;
  }

  /**
   * Re-formatting a parsed option reproduces the bytes it was parsed from, exactly when the
   * encoded delta fits in the 16 bits of `option->delta`.
   */
  lemma FormatOfParse(s: seq<byte>, prev: uint16)
    requires Parse(s, prev).Ok?
    ensures var p := Parse(s, prev).value;
            Format(prev, ParsedOpt(s, p)) == s[..p.Consumed()] <==> p.rawDelta < 0x1_0000
  {
    hide ParseField, Nibble, Ext, HeaderSize;
    var p := Parse(s, prev).value;
    var d := ParseField(s[0] / 16, s[1..]).value;
    var l := ParseField(s[0] % 16, s[1 + d.size..]).value;
    FieldUnique(s[0] / 16, s[1..]);
    FieldUnique(s[0] % 16, s[1 + d.size..]);
    var o := ParsedOpt(s, p);
    assert Delta(prev, o.number) == Wrap16(p.rawDelta);
    ParsedBytes(s, d.size, l.size, l.value);
    if p.rawDelta >= 0x1_0000 {
      WrappedNibble(prev, o, p.rawDelta);
    }
  }

  lemma ParsedBytes(s: seq<byte>, d: nat, l: nat, n: nat)
    requires 1 + d + l + n <= |s|
    ensures s[..1 + d + l + n] == [s[0]] + s[1..][..d] + s[1 + d..][..l] + s[1 + d + l..1 + d + l + n]
  {
  }

  /** A wrapped delta is announced by another nibble. */
  lemma WrappedNibble(prev: uint16, o: Opt, raw: nat)
    requires 0x1_0000 <= raw <= MAX_VALUE_LEN && Delta(prev, o.number) == Wrap16(raw)
    ensures Format(prev, o)[0] / 16 != 14 && Nibble(raw) == 14
  {
    assert Wrap16(raw) < 269;
    NibblePair(Nibble(Delta(prev, o.number)), Nibble(|o.value|));
  }

  /** A 16-bit delta that wraps: the bytes parse, but formatting the result gives other bytes. */
  lemma WrappedDeltaExample()
    ensures var s: seq<byte> := [0xE0, 0xFF, 0xFF];
            && Parse(s, 0).Ok?
            && Parse(s, 0).value.number == 268
            && Format(0, ParsedOpt(s, Parse(s, 0).value)) == [0xD0, 0xFF]
  {
    var s: seq<byte> := [0xE0, 0xFF, 0xFF];
    assert s[1..] == [0xFF, 0xFF];
    assert ParseField(14, s[1..]) == Ok(Field(65804, 2));
    assert s[3..] == [];
    assert ParsedOpt(s, Parse(s, 0).value) == Opt(268, []);
  }

  // ---------------------------------------------------------------- option lists

  /** Numbers never decrease and every value has an encodable length. */
  predicate Ascending(prev: uint16, opts: seq<Opt>)
    decreases |opts|
  {
    opts != [] ==>
      && prev <= opts[0].number
      && |opts[0].value| <= MAX_VALUE_LEN
      && Ascending(opts[0].number, opts[1..])
  }

  function EncodeList(prev: uint16, opts: seq<Opt>): (s: seq<byte>)
    decreases |opts|
  {
    if opts == [] then [] else Format(prev, opts[0]) + EncodeList(opts[0].number, opts[1..])
  }

  /** What may follow the options: nothing, or the payload marker and the payload. */
  predicate IsTail(s: seq<byte>)
  {
    s != [] ==> s[0] == PAYLOAD_MARKER
  }

  datatype Decoded = Decoded(opts: seq<Opt>, tail: seq<byte>)

  /**
   * Decodes an option list up to the payload marker or the end. None for a malformed option and
   * for an option number beyond 65535, which the 16-bit sum of `coapParseOption` would wrap.
   */
  function DecodeList(prev: uint16, s: seq<byte>): (r: Option<Decoded>)
    decreases |s|
  {
    if IsTail(s) then Some(Decoded([], s)) else
    var p := Parse(s, prev);
    if p.Err? || prev + p.value.rawDelta >= 0x1_0000 then None else
    var o := ParsedOpt(s, p.value);
    var rest := DecodeList(o.number, s[p.value.Consumed()..]);
    if rest.None? then None else Some(Decoded([o] + rest.value.opts, rest.value.tail))
  }

  lemma EncodeCons(prev: uint16, o: Opt, opts: seq<Opt>)
    ensures EncodeList(prev, [o] + opts) == Format(prev, o) + EncodeList(o.number, opts)
    ensures Ascending(prev, [o] + opts)
            <==> prev <= o.number && |o.value| <= MAX_VALUE_LEN && Ascending(o.number, opts)
  {
    hide Format;
    assert ([o] + opts)[1..] == opts;
  }

  lemma DecodeCons(prev: uint16, s: seq<byte>)
    requires !IsTail(s) && DecodeList(prev, s).Some?
    ensures var p := Parse(s, prev);
            && p.Ok? && prev + p.value.rawDelta < 0x1_0000
            && var o := ParsedOpt(s, p.value);
               var r := DecodeList(o.number, s[p.value.Consumed()..]);
               r.Some? && DecodeList(prev, s).value == Decoded([o] + r.value.opts, r.value.tail)
  {
    hide Parse, ParsedOpt;
  }

  lemma {:induction false} DecodeOfEncode(prev: uint16, opts: seq<Opt>, tail: seq<byte>)
    requires Ascending(prev, opts) && IsTail(tail)
    ensures DecodeList(prev, EncodeList(prev, opts) + tail) == Some(Decoded(opts, tail))
    decreases |opts|
  {
    if opts == [] {
      assert [] + tail == tail;
    } else {
      DecodeOfEncode(opts[0].number, opts[1..], tail);
      DecodeOfEncodeStep(prev, opts[0], opts[1..], tail);
      assert [opts[0]] + opts[1..] == opts;
    }
  }

  lemma DecodeOfEncodeStep(prev: uint16, o: Opt, opts: seq<Opt>, tail: seq<byte>)
    requires prev <= o.number && |o.value| <= MAX_VALUE_LEN
    requires DecodeList(o.number, EncodeList(o.number, opts) + tail) == Some(Decoded(opts, tail))
    ensures DecodeList(prev, EncodeList(prev, [o] + opts) + tail) == Some(Decoded([o] + opts, tail))
  {
    hide Parse, ParsedOpt, Format, EncodeList;
    var rest := EncodeList(o.number, opts) + tail;
    var s := EncodeList(prev, [o] + opts) + tail;
    EncodeCons(prev, o, opts);
    assert s == Format(prev, o) + rest;
    ParseOfFormat(prev, o, rest);
    assert s[|Format(prev, o)|..] == rest;
  }

  lemma {:induction false} EncodeOfDecode(prev: uint16, s: seq<byte>)
    requires DecodeList(prev, s).Some?
    ensures var d := DecodeList(prev, s).value;
            Ascending(prev, d.opts) && IsTail(d.tail) && EncodeList(prev, d.opts) + d.tail == s
    decreases |s|
  {
    if IsTail(s) {
      assert [] + s == s;
    } else {
      DecodeCons(prev, s);
      var p := Parse(s, prev).value;
      EncodeOfDecode(p.number, s[p.Consumed()..]);
      EncodeOfDecodeStep(prev, s);
    }
  }

  lemma EncodeOfDecodeStep(prev: uint16, s: seq<byte>)
    requires !IsTail(s) && DecodeList(prev, s).Some? && Parse(s, prev).Ok?
    requires var p := Parse(s, prev).value;
             var r := DecodeList(p.number, s[p.Consumed()..]);
             r.Some? && Ascending(p.number, r.value.opts) && IsTail(r.value.tail)
             && EncodeList(p.number, r.value.opts) + r.value.tail == s[p.Consumed()..]
    ensures var d := DecodeList(prev, s).value;
            Ascending(prev, d.opts) && IsTail(d.tail) && EncodeList(prev, d.opts) + d.tail == s
  {
    hide *;
    DecodeCons(prev, s);
    var p := Parse(s, prev).value;
    var o := ParsedOpt(s, p);
    ParsedFacts(s, prev);
    FormatOfParse(s, prev);
    var r := DecodeList(p.number, s[p.Consumed()..]).value;
    EncodeCons(prev, o, r.opts);
    assert s == s[..p.Consumed()] + s[p.Consumed()..];
    assert Format(prev, o) + EncodeList(p.number, r.opts) + r.tail
        == Format(prev, o) + (EncodeList(p.number, r.opts) + r.tail);
  }

  lemma ParsedFacts(s: seq<byte>, prev: uint16)
    requires Parse(s, prev).Ok?
    ensures var p := Parse(s, prev).value;
            && |ParsedOpt(s, p).value| == p.len <= MAX_VALUE_LEN
            && ParsedOpt(s, p).number == p.number
            && (prev + p.rawDelta < 0x1_0000 ==> p.number == prev + p.rawDelta)
  {
  }

  /** The last option number of a list that follows option `prev`. */
  function Last(prev: uint16, opts: seq<Opt>): (n: uint16)
  {
    if opts == [] then prev else opts[|opts| - 1].number
  }

  lemma EncodeAppendStep(prev: uint16, o: Opt, a: seq<Opt>, b: seq<Opt>)
    requires EncodeList(o.number, a + b) == EncodeList(o.number, a) + EncodeList(Last(o.number, a), b)
    requires Ascending(o.number, a + b) <==> Ascending(o.number, a) && Ascending(Last(o.number, a), b)
    ensures EncodeList(prev, [o] + a + b) == EncodeList(prev, [o] + a) + EncodeList(Last(prev, [o] + a), b)
    ensures Ascending(prev, [o] + a + b) <==> Ascending(prev, [o] + a) && Ascending(Last(prev, [o] + a), b)
  {
    hide EncodeList, Ascending, Format;
    EncodeCons(prev, o, a);
    EncodeCons(prev, o, a + b);
    assert [o] + a + b == [o] + (a + b);
    assert Last(prev, [o] + a) == Last(o.number, a);
  }

  lemma {:induction false} EncodeAppend(prev: uint16, a: seq<Opt>, b: seq<Opt>)
    ensures EncodeList(prev, a + b) == EncodeList(prev, a) + EncodeList(Last(prev, a), b)
    ensures Ascending(prev, a + b) <==> Ascending(prev, a) && Ascending(Last(prev, a), b)
    decreases |a|
  {
    if a == [] {
      assert a + b == b;
    } else {
      EncodeAppend(a[0].number, a[1..], b);
      EncodeAppendStep(prev, a[0], a[1..], b);
      assert a == [a[0]] + a[1..];
    }
  }

  /** The encoding determines the list: two well-formed lists with the same bytes are equal. */
  lemma EncodingIsUnique(prev: uint16, a: seq<Opt>, ta: seq<byte>, b: seq<Opt>, tb: seq<byte>)
    requires Ascending(prev, a) && IsTail(ta) && Ascending(prev, b) && IsTail(tb)
    requires EncodeList(prev, a) + ta == EncodeList(prev, b) + tb
    ensures a == b && ta == tb
  {
    hide *;
    DecodeOfEncode(prev, a, ta);
    DecodeOfEncode(prev, b, tb);
  }
}
