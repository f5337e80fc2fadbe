/**
 * The Block1 and Block2 option values (section 2.2 of RFC 7959) as the macros of `coap_option.h`
 * compute them on 32-bit words: NUM in the upper 28 bits, then the M bit, then SZX.
 */
module BlockOption {
  import opened Bytes
  import opened OptionCodec
  import opened OptionList
  import opened OptionEdits
  import opened MessageFormat
  import opened CoapMessage

  const COAP_OPT_BLOCK2: uint16 := 23
  const COAP_OPT_BLOCK1: uint16 := 27
  const COAP_BLOCK_SIZE_RESERVED := 7
  const CODE_CLASS_SUCCESS := 2

  /** COAP_GET_BLOCK_SIZE: 16 shifted left by the size exponent. */
  function BlockSize(szx: nat): (n: nat)
    requires szx <= 7
    ensures 16 <= n <= 2048
  {
    match szx
    case 0 => 16
    case 1 => 32
    case 2 => 64
    case 3 => 128
    case 4 => 256
    case 5 => 512
    case 6 => 1024
    case _ => 2048
  }

  /** A block of size exponent `szx` has 2^(szx + 4) bytes. */
  lemma BlockSizeDoubles(szx: nat)
    requires szx < 7
    ensures BlockSize(0) == 16 && BlockSize(szx + 1) == 2 * BlockSize(szx)
  {
  }

  /** A position at which a block of this size can start. */
  predicate Aligned(pos: nat, szx: nat)
    requires szx <= 7
  {
    pos % BlockSize(szx) == 0
  }

  /** COAP_GET_BLOCK_SZX. */
  function Szx(value: uint32): (szx: nat)
    ensures szx <= 7
  {
    value % 8
  }

  /** COAP_GET_BLOCK_M. */
  function More(value: uint32): (m: nat)
    ensures m <= 1
  {
    value / 8 % 2
  }

  /** COAP_GET_BLOCK_POS: NUM scaled by the block size, in 32 bits. */
  function Pos(value: uint32): (p: uint32)
  {
    value / 16 * BlockSize(Szx(value)) % 0x1_0000_0000
  }

  /** COAP_SET_BLOCK_NUM. */
  function SetNum(value: uint32, n: nat): (v: uint32)
  {
    n % 0x1000_0000 * 16 + value % 16
  }

  /** COAP_SET_BLOCK_M. */
  function SetMore(value: uint32, m: nat): (v: uint32)
  {
    value / 16 * 16 + m % 2 * 8 + value % 8
  }

  /** COAP_SET_BLOCK_SZX. */
  function SetSzx(value: uint32, szx: nat): (v: uint32)
  {
    value / 8 * 8 + szx % 8
  }

  /** The value that stands for byte position `pos`, whatever `value` held before. */
  function Block(value: uint32, pos: uint32, m: nat, szx: nat): (v: uint32)
    requires szx <= 7
  {
    SetSzx(SetMore(SetNum(value, pos / BlockSize(szx)), m), szx)
  }

  lemma BlockFields(value: uint32, num: nat, m: nat, szx: nat)
    requires num < 0x1000_0000 && m <= 1 && szx <= 7
    ensures SetSzx(SetMore(SetNum(value, num), m), szx) == num * 16 + m * 8 + szx
  {
    hide SetNum, SetMore;
    SetNumIs(value, num);
    SetMoreIs(num, value % 16, m);
    Digits(num * 2 + m, value % 16 % 8);
  }

  lemma SetNumIs(value: uint32, num: nat)
    requires num < 0x1000_0000
    ensures SetNum(value, num) == num * 16 + value % 16
  {
  }

  lemma SetMoreIs(num: nat, low: nat, m: nat)
    requires num < 0x1000_0000 && low < 16 && m <= 1
    ensures SetMore(num * 16 + low, m) == num * 16 + m * 8 + low % 8
  {
    DivMod(num * 16 + low, 16, num, low);
    DivMod(num * 16 + low, 8, num * 2 + low / 8, low % 8);
  }

  lemma Digits(q: nat, r: nat)
    requires r < 8
    ensures (q * 8 + r) / 8 == q
  {
    DivMod(q * 8 + r, 8, q, r);
  }

  lemma Scale(pos: uint32, szx: nat)
    requires szx <= 7 && Aligned(pos, szx)
    ensures pos / BlockSize(szx) < 0x1000_0000 && pos / BlockSize(szx) * BlockSize(szx) == pos
  {
  }

  /**
   * A 32-bit position that is a multiple of the block size survives the trip through the option:
   * the shift into NUM loses no bits.
   */
  lemma BlockRoundTrip(value: uint32, pos: uint32, m: nat, szx: nat)
    requires m <= 1 && szx <= 7 && Aligned(pos, szx)
    ensures var v := Block(value, pos, m, szx);
            Pos(v) == pos && More(v) == m && Szx(v) == szx && v / 16 == pos / BlockSize(szx)
  {
    hide BlockSize, SetNum, SetMore, SetSzx, Pos, More, Szx;
    Scale(pos, szx);
    BlockFields(value, pos / BlockSize(szx), m, szx);
    FieldsOf(pos / BlockSize(szx), m, szx);
  }

  lemma FieldsOf(num: nat, m: nat, szx: nat)
    requires num < 0x1000_0000 && m <= 1 && szx <= 7
    ensures var v := num * 16 + m * 8 + szx;
            Szx(v) == szx && More(v) == m && v / 16 == num && Pos(v) == num * BlockSize(szx) % 0x1_0000_0000
  {
    var v := num * 16 + m * 8 + szx;
    DivMod(v, 8, num * 2 + m, szx);
    DivMod(v, 16, num, m * 8 + szx);
    DivMod(num * 2 + m, 2, num, m);
  }

  /** A multiple of a block size is a multiple of every smaller one. */
  lemma SmallerDivides(pos: nat, a: nat, b: nat)
    requires a <= b <= 7 && Aligned(pos, b)
    ensures Aligned(pos, a) && Aligned(pos + BlockSize(b), a) && BlockSize(a) <= BlockSize(b)
  {
    hide Aligned;
    AddOne(pos, b);
    var i := b;
    while i > a
      invariant a <= i <= b && BlockSize(i) <= BlockSize(b)
      invariant Aligned(pos, i) && Aligned(pos + BlockSize(b), i)
    {
      Halve(pos, i);
      Halve(pos + BlockSize(b), i);
      i := i - 1;
    }
  }

  lemma AddOne(pos: nat, b: nat)
    requires b <= 7 && Aligned(pos, b)
    ensures Aligned(pos + BlockSize(b), b)
  {
    var n := BlockSize(b);
    hide BlockSize;
    assert pos == n * (pos / n) + 0;
    DivMod(pos + n, n, pos / n + 1, 0);
  }

  lemma Halve(pos: nat, b: nat)
    requires 1 <= b <= 7 && Aligned(pos, b)
    ensures Aligned(pos, b - 1) && BlockSize(b - 1) <= BlockSize(b)
  {
    var n := BlockSize(b - 1);
    assert BlockSize(b) == 2 * n;
    hide BlockSize;
    var k := pos / (2 * n);
    assert pos == 2 * n * k;
    assert pos == n * (2 * k) + 0;
    DivMod(pos, n, 2 * k, 0);
  }

  // ---------------------------------------------------------------- the options in a message

  /** The first Block1 value of a message. */
  function Block1(m: Msg): (v: Option<uint32>)
  {
    var vs := Values(m.options, COAP_OPT_BLOCK1);
    if vs == [] then None else Some(UintValue(vs[0]))
  }

  /** The first Block2 value of a message. */
  function Block2(m: Msg): (v: Option<uint32>)
  {
    var vs := Values(m.options, COAP_OPT_BLOCK2);
    if vs == [] then None else Some(UintValue(vs[0]))
  }

  /** Block1 is not a repeatable option. */
  ghost predicate Single(m: Msg)
  {
    |Values(m.options, COAP_OPT_BLOCK1)| <= 1
  }

  /** Header and options stay as they are, up to the block options. */
  ghost predicate Kept(m: Msg, n: Msg)
  {
    && n.header == m.header
    && forall num: uint16 | num != COAP_OPT_BLOCK1 && num != COAP_OPT_BLOCK2 ::
         Values(n.options, num) == Values(m.options, num)
  }

  /**
   * Setting a block option makes it the value that is read back, and leaves the other one and all
   * other options alone.
   */
  lemma StoredBlock(s: seq<byte>, num: uint16, value: uint32)
    requires DecodeMsg(s).Some?
    ensures var m := DecodeMsg(s).value;
            var n := m.(options := SetOpt(m.options, num, 0, UintBytes(value)));
            && Block1(n) == (if num == COAP_OPT_BLOCK1 then Some(value) else Block1(m))
            && Block2(n) == (if num == COAP_OPT_BLOCK2 then Some(value) else Block2(m))
            && (Single(m) ==> Single(n))
            && (num == COAP_OPT_BLOCK1 || num == COAP_OPT_BLOCK2 ==> Kept(m, n))
  {
    hide DecodeMsg, Values, UintValue, UintBytes, SetOpt;
    EncodeOfDecodeMsg(s);
    UintSize(value);
    UintRoundTrip(value);
    SetMeaning(DecodeMsg(s).value.options, num, 0, UintBytes(value));
  }

  // ---------------------------------------------------------------- room for a block option

  /** Any value of the block option can be set. */
  ghost predicate IsRoomy(m: Msg, num: uint16)
  {
    forall w: uint32 :: SizeOnSet(m, num, 0, UintBytes(w)) <= COAP_MAX_MSG_SIZE
  }

  /** Setting it once leaves room for any other value. */
  lemma StaysRoomy(m: Msg, num: uint16, v: uint32)
    requires m.WellFormed() && IsRoomy(m, num)
    ensures IsRoomy(m.(options := SetOpt(m.options, num, 0, UintBytes(v))), num)
  {
    hide SizeOnSet, SetOpt, UintBytes;
    var n := m.(options := SetOpt(m.options, num, 0, UintBytes(v)));
    forall w: uint32
      ensures SizeOnSet(n, num, 0, UintBytes(w)) <= COAP_MAX_MSG_SIZE
    {
      UintSize(v);
      UintSize(w);
      SetAgainSize(m, num, UintBytes(v), UintBytes(w));
      assert SizeOnSet(m, num, 0, UintBytes(w)) <= COAP_MAX_MSG_SIZE;
    }
  }

  lemma SetAgainSize(m: Msg, num: uint16, v: seq<byte>, w: seq<byte>)
    requires m.WellFormed() && |v| <= 4 && |w| <= 4
    ensures var n := m.(options := SetOpt(m.options, num, 0, v));
            n.WellFormed() && SizeOnSet(n, num, 0, w) <= SizeOnSet(m, num, 0, w)
  {
    hide SizeOnSet, SetOpt, Values, Ascending, EncodeMsg, Locate;
    var n := m.(options := SetOpt(m.options, num, 0, v));
    SetMeaning(m.options, num, 0, v);
    SetTwice(m.options, num, v, w);
    SetSizeExact(m, num, 0, w);
    SetSizeExact(n, num, 0, w);
    LocateMeaning(0, n.options, num, 0);
  }

  lemma SetTwice(opts: seq<Opt>, num: uint16, v: seq<byte>, w: seq<byte>)
    requires Ascending(0, opts) && |v| <= 4 && |w| <= 4
    ensures SetOpt(SetOpt(opts, num, 0, v), num, 0, w) == SetOpt(opts, num, 0, w)
  {
    hide SetOpt, Values, Ascending;
    SetMeaning(opts, num, 0, v);
    SetMeaning(opts, num, 0, w);
    SetMeaning(SetOpt(opts, num, 0, v), num, 0, w);
    ValuesDetermineList(0, SetOpt(SetOpt(opts, num, 0, v), num, 0, w), SetOpt(opts, num, 0, w));
  }

  // ---------------------------------------------------------------- room for both block options

  function WithOption(m: Msg, num: uint16, w: uint32): (n: Msg)
  {
    m.(options := SetOpt(m.options, num, 0, UintBytes(w)))
  }

  /** The message with a payload of `size` bytes. */
  function Loaded(m: Msg, size: nat): (n: Msg)
  {
    m.(tail := [PAYLOAD_MARKER] + seq(size, _ => 0))
  }

  /** Block1 and Block2 can be set to any values, in any order. */
  ghost predicate IsAmple(m: Msg)
  {
    && |EncodeMsg(m)| <= COAP_MAX_MSG_SIZE && IsRoomy(m, COAP_OPT_BLOCK1) && IsRoomy(m, COAP_OPT_BLOCK2)
    && (forall w: uint32 :: IsRoomy(WithOption(m, COAP_OPT_BLOCK1, w), COAP_OPT_BLOCK2))
    && (forall w: uint32 :: IsRoomy(WithOption(m, COAP_OPT_BLOCK2, w), COAP_OPT_BLOCK1))
  }

  /** Both together take at most 14 bytes. */
  lemma AmpleSize(m: Msg)
    requires m.WellFormed() && |EncodeMsg(m)| + 14 <= COAP_MAX_MSG_SIZE
    ensures IsAmple(m)
  {
    hide SizeOnSet, EncodeMsg, SetOpt, UintBytes, Ascending;
    forall w: uint32, v: uint32
      ensures SizeOnSet(m, COAP_OPT_BLOCK1, 0, UintBytes(w)) <= COAP_MAX_MSG_SIZE
      ensures SizeOnSet(m, COAP_OPT_BLOCK2, 0, UintBytes(w)) <= COAP_MAX_MSG_SIZE
      ensures SizeOnSet(WithOption(m, COAP_OPT_BLOCK1, w), COAP_OPT_BLOCK2, 0, UintBytes(v)) <= COAP_MAX_MSG_SIZE
      ensures SizeOnSet(WithOption(m, COAP_OPT_BLOCK2, w), COAP_OPT_BLOCK1, 0, UintBytes(v)) <= COAP_MAX_MSG_SIZE
    {
      SizeBound(m, COAP_OPT_BLOCK1, w);
      SizeBound(m, COAP_OPT_BLOCK2, w);
      SizeBound(WithOption(m, COAP_OPT_BLOCK1, w), COAP_OPT_BLOCK2, v);
      SizeBound(WithOption(m, COAP_OPT_BLOCK2, w), COAP_OPT_BLOCK1, v);
    }
  }

  lemma SizeBound(m: Msg, num: uint16, w: uint32)
    requires m.WellFormed()
    ensures SizeOnSet(m, num, 0, UintBytes(w)) <= |EncodeMsg(m)| + 7
    ensures var n := WithOption(m, num, w); n.WellFormed() && |EncodeMsg(n)| <= |EncodeMsg(m)| + 7
  {
    hide EncodeMsg, SetOpt, UintBytes, Ascending, Values, Locate, Last;
    UintSize(w);
    SetMeaning(m.options, num, 0, UintBytes(w));
    SizeBoundSet(m, num, UintBytes(w));
    SetSizeExact(m, num, 0, UintBytes(w));
  }

  lemma SizeBoundSet(m: Msg, num: uint16, v: seq<byte>)
    requires |v| <= 4
    ensures SizeOnSet(m, num, 0, v) <= |EncodeMsg(m)| + 7
  {
    hide EncodeMsg, Locate, Last, Format, Delta;
  }

  /** Setting one of them leaves room for any other values. */
  lemma StaysAmple(m: Msg, num: uint16, v: uint32)
    requires m.WellFormed() && IsAmple(m) && (num == COAP_OPT_BLOCK1 || num == COAP_OPT_BLOCK2)
    ensures var n := WithOption(m, num, v); n.WellFormed() && IsAmple(n)
  {
    hide SizeOnSet, SetOpt, UintBytes, IsRoomy, EncodeMsg, Ascending, Values;
    var n := WithOption(m, num, v);
    var other := if num == COAP_OPT_BLOCK1 then COAP_OPT_BLOCK2 else COAP_OPT_BLOCK1;
    UintSize(v);
    SetMeaning(m.options, num, 0, UintBytes(v));
    RoomyAt(m, num, v);
    StaysRoomy(m, num, v);
    forall w: uint32
      ensures IsRoomy(WithOption(n, num, w), other) && IsRoomy(WithOption(n, other, w), num)
    {
      UintSize(w);
      SetTwice(m.options, num, UintBytes(v), UintBytes(w));
      assert WithOption(n, num, w) == WithOption(m, num, w);
      SetCommutes(m.options, num, other, UintBytes(v), UintBytes(w));
      SetMeaning(m.options, other, 0, UintBytes(w));
      StaysRoomy(WithOption(m, other, w), num, v);
    }
  }

  lemma RoomyAt(m: Msg, num: uint16, v: uint32)
    requires m.WellFormed() && IsRoomy(m, num)
    ensures |EncodeMsg(WithOption(m, num, v))| <= COAP_MAX_MSG_SIZE
  {
    hide SizeOnSet, SetOpt, UintBytes, EncodeMsg, Ascending;
    UintSize(v);
    SetSizeExact(m, num, 0, UintBytes(v));
    assert SizeOnSet(m, num, 0, UintBytes(v)) <= COAP_MAX_MSG_SIZE;
  }

  lemma SetCommutes(opts: seq<Opt>, num: uint16, other: uint16, v: seq<byte>, w: seq<byte>)
    requires Ascending(0, opts) && |v| <= 4 && |w| <= 4 && num != other
    ensures SetOpt(SetOpt(opts, num, 0, v), other, 0, w) == SetOpt(SetOpt(opts, other, 0, w), num, 0, v)
  {
    hide SetOpt, Values, Ascending;
    var a, b := SetOpt(opts, num, 0, v), SetOpt(opts, other, 0, w);
    SetMeaning(opts, num, 0, v);
    SetMeaning(opts, other, 0, w);
    SetMeaning(a, other, 0, w);
    SetMeaning(b, num, 0, v);
    ValuesDetermineList(0, SetOpt(a, other, 0, w), SetOpt(b, num, 0, v));
  }

  /** A message with a smaller payload has room as well. */
  lemma AmpleFor(m: Msg, size: nat, num: uint16, w: uint32)
    requires IsAmple(Loaded(m, size)) && |m.tail| <= size + 1 && (num == COAP_OPT_BLOCK1 || num == COAP_OPT_BLOCK2)
    ensures SizeOnSet(m, num, 0, UintBytes(w)) <= COAP_MAX_MSG_SIZE
    ensures |EncodeMsg(m)| - |m.tail| + 1 + size <= COAP_MAX_MSG_SIZE
  {
    hide UintBytes, Locate, Format, EncodeList, Last;
    assert SizeOnSet(Loaded(m, size), num, 0, UintBytes(w)) <= COAP_MAX_MSG_SIZE;
  }
}
