/**
 * `coapClientReadBody`: a representation read with block-wise transfers (RFC 7959). The state of
 * the transfer lives in the Block2 option of the encoded request message.
 */
module BlockRead {
  import opened Bytes
  import opened OptionCodec
  import opened OptionList
  import opened OptionEdits
  import opened MessageFormat
  import opened CoapMessage
  import opened BlockOption

  /** The byte position that a request asks for. */
  function RequestPos(m: Msg): (p: uint32)
  {
    match Block2(m) case None => 0 case Some(v) => Pos(v)
  }

  /**
   * A correct answer to a request for position `base` of `body`: the whole body without a Block2
   * option, or one block, of a size the server picks, with M set when more is to come.
   */
  ghost predicate Honest(m: Msg, body: seq<byte>, base: nat)
  {
    match Block2(m)
    case None => base == 0 && m.Payload() == body
    case Some(v) =>
      && Szx(v) < COAP_BLOCK_SIZE_RESERVED && Pos(v) == base && base <= |body|
      && Aligned(base, Szx(v))
      && if More(v) == 1 then
           base + BlockSize(Szx(v)) < |body| && m.Payload() == body[base..base + BlockSize(Szx(v))]
         else
           m.Payload() == body[base..]
  }

  lemma HonestSlice(m: Msg, body: seq<byte>, base: nat, i: nat, j: nat)
    requires Honest(m, body, base) && i <= j <= |m.Payload()|
    ensures base + j <= |body| && m.Payload()[i..j] == body[base + i..base + j]
  {
    hide Block2, BlockSize, Pos, More, Aligned, Szx;
    HonestPayload(m, body, base);
    SubSlice(body, base, base + |m.Payload()|, i, j);
  }

  lemma HonestPayload(m: Msg, body: seq<byte>, base: nat)
    requires Honest(m, body, base)
    ensures base + |m.Payload()| <= |body| && m.Payload() == body[base..base + |m.Payload()|]
  {
    hide Block2, BlockSize, Pos, More, Aligned, Szx;
  }

  // ---------------------------------------------------------------- any server

  const POSITIONS := 0x1_0000_0000

  /** The bytes of a series of responses. */
  function Collected(got: seq<Msg>): (s: seq<byte>)
  {
    if got == [] then [] else Collected(got[..|got| - 1]) + got[|got| - 1].Payload()
  }

  /** A block of the body at `pos` that more blocks follow: full, and of a valid size. */
  predicate IsFull(m: Msg, pos: uint32)
  {
    match Block2(m)
    case None => false
    case Some(v) =>
      && Szx(v) < COAP_BLOCK_SIZE_RESERVED && Pos(v) == pos && More(v) == 1
      && |m.Payload()| == BlockSize(Szx(v))
  }

  /** The end of the body: its last block, or a response that is no block at all. */
  predicate IsLast(m: Msg, pos: uint32)
  {
    match Block2(m)
    case None => pos == 0
    case Some(v) => Szx(v) < COAP_BLOCK_SIZE_RESERVED && Pos(v) == pos && More(v) == 0
  }

  /** Every response is a full block at the number of bytes in front of it, in 32 bits. */
  ghost predicate Chained(got: seq<Msg>)
  {
    forall i | 0 <= i < |got| :: IsFull(got[i], |Collected(got[..i])| % POSITIONS)
  }

  lemma CollectedSnoc(got: seq<Msg>, m: Msg)
    ensures Collected(got + [m]) == Collected(got) + m.Payload()
  {
    assert (got + [m])[..|got|] == got;
  }

  lemma ChainedSnoc(got: seq<Msg>, m: Msg)
    requires Chained(got) && IsFull(m, |Collected(got)| % POSITIONS)
    ensures Chained(got + [m])
  {
    hide Collected, IsFull;
    var all := got + [m];
    forall i | 0 <= i < |all|
      ensures IsFull(all[i], |Collected(all[..i])| % POSITIONS)
    {
      if i < |got| {
        assert all[..i] == got[..i];
      } else {
        assert all[..i] == got;
      }
    }
  }

  /** An honest response is never refused: it is full or the last one. */
  lemma HonestJudged(m: Msg, body: seq<byte>, base: uint32)
    requires Honest(m, body, base)
    ensures IsFull(m, base) <==> base + |m.Payload()| < |body|
    ensures IsLast(m, base) <==> base + |m.Payload()| == |body|
  {
    hide Block2, Pos, More, Aligned, Szx;
  }

  /** The whole body was delivered if and only if its last response was read to the end. */
  lemma HonestEnd(m: Msg, body: seq<byte>, base: uint32, at: nat, received: seq<byte>)
    requires Honest(m, body, base) && at <= |m.Payload()|
    requires |received| == base + at <= |body| && received == body[..|received|]
    ensures at == |m.Payload()| && IsLast(m, base) <==> received == body
  {
    hide Honest, IsLast, IsFull;
    HonestJudged(m, body, base);
    HonestPayload(m, body, base);
    assert body[..|body|] == body;
  }

  lemma HonestChunk(m: Msg, body: seq<byte>, base: uint32, at: nat, to: nat, received: seq<byte>)
    requires Honest(m, body, base) && at <= to <= |m.Payload()|
    requires base + at <= |body| && received == body[..base + at]
    ensures base + to <= |body| && received + m.Payload()[at..to] == body[..base + to]
  {
    hide Honest;
    HonestSlice(m, body, base, at, to);
    assert body[..base + at] + body[base + at..base + to] == body[..base + to];
  }

  /** A multiple of the block size stays one when the position wraps. */
  lemma WrapAligned(x: nat, szx: nat)
    requires szx <= 7 && Aligned(x, szx)
    ensures Aligned(x % POSITIONS, szx)
  {
    var b := BlockSize(szx);
    var k := POSITIONS / b;
    assert POSITIONS == b * k;
    hide BlockSize;
    var q, n := x / POSITIONS, x / b;
    assert x % POSITIONS == b * n - b * k * q;
    assert b * n - b * k * q == b * (n - k * q) + 0;
    DivMod(x % POSITIONS, b, n - k * q, 0);
  }

  lemma PosAligned(v: uint32)
    ensures Aligned(Pos(v), Szx(v))
  {
    var b, n := BlockSize(Szx(v)), v / 16;
    hide BlockSize, Szx;
    DivMod(n * b, b, n, 0);
    WrapAligned(n * b, Szx(v));
  }

  // ---------------------------------------------------------------- progress

  /** The position behind the responses. */
  function PosOf(got: seq<Msg>): (p: uint32)
  {
    |Collected(got)| % POSITIONS
  }

  predicate IsPrefix(received: seq<byte>, body: seq<byte>)
  {
    |received| <= |body| && received == body[..|received|]
  }

  /**
   * After the responses `got` and `at` bytes of the response `m`: what was received is theirs and, unless
   * the server lied, the beginning of the body.
   */
  ghost predicate Progress(m: Msg, at: nat, body: seq<byte>, got: seq<Msg>, received: seq<byte>, lied: bool)
  {
    && at <= |m.Payload()| && Chained(got) && received == Collected(got) + m.Payload()[..at]
    && (!lied ==> Honest(m, body, PosOf(got)) && |Collected(got)| <= |body| < POSITIONS && IsPrefix(received, body))
  }

  lemma ProgressStart(m: Msg, body: seq<byte>)
    requires |body| < POSITIONS
    ensures Progress(m, 0, body, [], [], !Honest(m, body, 0))
  {
    hide Honest;
  }

  lemma ProgressRead(m: Msg, at: nat, to: nat, body: seq<byte>, got: seq<Msg>, received: seq<byte>, lied: bool)
    requires Progress(m, at, body, got, received, lied) && at <= to <= |m.Payload()|
    ensures Progress(m, to, body, got, received + m.Payload()[at..to], lied)
  {
    hide Honest, Collected, Chained;
    if !lied {
      HonestChunk(m, body, PosOf(got), at, to, received);
    }
    assert m.Payload()[..at] + m.Payload()[at..to] == m.Payload()[..to];
  }

  lemma ProgressNext(m: Msg, n: Msg, body: seq<byte>, got: seq<Msg>, received: seq<byte>, was: bool, lied: bool)
    requires Progress(m, |m.Payload()|, body, got, received, was) && IsFull(m, PosOf(got))
    requires !lied ==> !was && Honest(n, body, PosOf(got + [m]))
    ensures Progress(n, 0, body, got + [m], received, lied)
  {
    hide Honest, Collected, Chained, IsFull;
    ChainedSnoc(got, m);
    CollectedSnoc(got, m);
    assert m.Payload()[..|m.Payload()|] == m.Payload();
    assert received + n.Payload()[..0] == received;
  }

  /** The next position. */
  lemma NextPos(got: seq<Msg>, m: Msg)
    ensures PosOf(got + [m]) == (PosOf(got) + |m.Payload()|) % POSITIONS
  {
    hide Collected;
    CollectedSnoc(got, m);
  }

  lemma ProgressEnd(m: Msg, at: nat, body: seq<byte>, got: seq<Msg>, received: seq<byte>)
    requires Progress(m, at, body, got, received, false)
    ensures IsPrefix(received, body)
    ensures at == |m.Payload()| && IsLast(m, PosOf(got)) <==> received == body
    ensures at == |m.Payload()| ==> IsLast(m, PosOf(got)) || IsFull(m, PosOf(got))
  {
    hide Honest, Collected, Chained, IsLast, IsFull;
    HonestJudged(m, body, PosOf(got));
    HonestPayload(m, body, PosOf(got));
    HonestEnd(m, body, PosOf(got), at, received);
  }

  class Reader {
    const request: Message
    const response: Message
    /** What the server is asked for. */
    const body: seq<byte>
    var rxBlockSzx: nat
    /** The responses that were read and accepted as full blocks, and all bytes delivered so far. */
    ghost var got: seq<Msg>
    ghost var received: seq<byte>
    /** Some exchange failed, or was answered with a code other than success. */
    ghost var disturbed: bool
    /** Some response reported success and was not an honest one. */
    ghost var lied: bool

    ghost predicate Separate()
      reads this
    {
      request != response && request.buffer != response.buffer && rxBlockSzx <= 7 && |body| < POSITIONS
    }

    ghost predicate Shaped()
      reads this, request, response, request.buffer, response.buffer
    {
      && Separate() && request.Valid() && response.Valid()
      && request.View().Some? && response.View().Some?
      && RequestPos(request.View().value) == PosOf(got)
      && response.pos <= |response.View().value.Payload()|
    }

    ghost predicate Valid()
      reads this, request, response, request.buffer, response.buffer
    {
      Shaped() && Progress(response.View().value, response.pos, body, got, received, lied)
    }

    /** The current response was read to its end, and it ends the body. */
    ghost predicate Over()
      reads this, request, response, request.buffer, response.buffer
    {
      && Shaped() && response.pos == |response.View().value.Payload()| && IsLast(response.View().value, PosOf(got))
    }

    /** The current response was read to its end, and is neither a full block nor the last one. */
    ghost predicate Refused()
      reads this, request, response, request.buffer, response.buffer
    {
      && Shaped() && response.pos == |response.View().value.Payload()|
      && !IsLast(response.View().value, PosOf(got)) && !IsFull(response.View().value, PosOf(got))
    }

    /** Reading starts once a first request, for position 0, was answered. */
    constructor (request: Message, response: Message, body: seq<byte>, rxBlockSzx: nat)
      requires request.Valid() && response.Valid() && request != response && request.buffer != response.buffer
      requires rxBlockSzx <= 7 && |body| < POSITIONS
      requires request.View().Some? && RequestPos(request.View().value) == 0
      requires response.View().Some? && response.pos == 0
      ensures Valid() && received == [] && got == [] && !disturbed
      ensures lied <==> !Honest(response.View().value, body, 0)
      ensures this.request == request && this.response == response
      ensures this.body == body && this.rxBlockSzx == rxBlockSzx
    {
      this.request, this.response, this.body, this.rxBlockSzx := request, response, body, rxBlockSzx;
      got, received, disturbed := [], [], false;
      lied := !Honest(response.View().value, body, 0);
      new;
      hide Honest, DecodeMsg, RequestPos, Progress;
      ProgressStart(response.View().value, body);
    }

    /**
     * One message exchange. An honest server reads the position from the request and picks the block
     * size; any other sends some message. The exchange may also fail.
     */
    method Exchange() returns (e: Error)
      requires request.Valid() && response.Valid() && request.View().Some? && request != response
      requires request.buffer != response.buffer
      modifies this`disturbed, this`lied, response`length, response`pos, response.buffer
      ensures response.Valid()
      ensures e == NoError || e == Timeout
      ensures e == NoError ==> response.View().Some? && response.pos == 0
      ensures disturbed <==> old(disturbed) || e != NoError || Code(response.View().value) / 32 != 2
      ensures lied <==>
                old(lied) || (e == NoError && Code(response.View().value) / 32 == 2
                              && !Honest(response.View().value, body, RequestPos(request.View().value)))
    {
      hide DecodeMsg, Values, UintValue, Honest;
      var fails: bool :| fails || !fails;
      if fails {
        disturbed := true;
        return Timeout;
      }
      var raw: seq<byte> := *;
      var v := request.GetUintOption(COAP_OPT_BLOCK2, 0);
      var pos: uint32 := match v case Ok(x) => Pos(x) case Err(_) => 0;
      if |raw| <= COAP_MAX_MSG_SIZE && DecodeMsg(raw).Some? {
        response.Load(raw);
      } else if pos < |body| && pos % 16 == 0 {
        var szx: nat :| szx < COAP_BLOCK_SIZE_RESERVED && Aligned(pos, szx);
        var code: byte :| 0 <= code < 256;
        Respond(pos, szx, code);
      } else {
        disturbed := true;
        return Timeout;
      }
      e := NoError;
      ghost var m := response.View().value;
      disturbed := disturbed || Code(m) / 32 != 2;
      lied := lied || (Code(m) / 32 == 2 && !Honest(m, body, pos));
    }

    /** A response with the block of size exponent `szx` at `pos`. */
    method Respond(pos: uint32, szx: nat, code: byte)
      requires response.Valid() && pos < |body| && szx < COAP_BLOCK_SIZE_RESERVED && Aligned(pos, szx)
      modifies response`length, response`pos, response.buffer
      ensures response.Valid() && response.View().Some? && response.pos == 0
      ensures Code(response.View().value) == code && Honest(response.View().value, body, pos)
    {
      hide DecodeMsg, Answer, Values, UintValue;
      var size := BlockSize(szx);
      var more := pos + size < |body|;
      var payload := if more then body[pos..pos + size] else body[pos..];
      var value := Block(0, pos, if more then 1 else 0, szx);
      BlockRoundTrip(0, pos, if more then 1 else 0, szx);
      AnswerDecodes(code, value, payload);
      response.Load(Answer(code, value, payload));
    }

    /**
     * Whether another block is to be read, and if so the Block2 value and the position that follows.
     * A response that is neither a full block at this position nor the last one is refused.
     */
    method Inspect() returns (e: Error, v: uint32, pos: uint32, szx: nat)
      requires Shaped()
      ensures e == NoError <==> IsFull(response.View().value, PosOf(got))
      ensures e == EndOfStream <==> IsLast(response.View().value, PosOf(got))
      ensures e == NoError || e == EndOfStream || e == Failure
      ensures e == NoError ==>
                && Block2(response.View().value) == Some(v)
                && pos == (PosOf(got) + |response.View().value.Payload()|) % POSITIONS
                && szx == Smaller(RequestSzx(request.View().value, rxBlockSzx), Szx(v)) && szx <= 7 && Aligned(pos, szx)
    {
      hide DecodeMsg, Values, UintValue, Pos, More, BlockSize, Szx, Aligned, Collected;
      v, pos, szx := 0, 0, rxBlockSzx;
      var rv := request.GetUintOption(COAP_OPT_BLOCK2, 0);
      if rv.Ok? {
        pos, szx := Pos(rv.value), Szx(rv.value);
      }
      assert pos == PosOf(got);
      var sv := response.GetUintOption(COAP_OPT_BLOCK2, 0);
      if sv.Err? {
        return if pos == 0 then EndOfStream else Failure, v, pos, szx;
      }
      v := sv.value;
      assert Block2(response.View().value) == Some(v);
      if Szx(v) >= COAP_BLOCK_SIZE_RESERVED || Pos(v) != pos {
        return Failure, v, pos, szx;
      }
      if More(v) == 0 {
        return EndOfStream, v, pos, szx;
      }
      var payload := response.GetPayload();
      var size := match payload case Ok(x) => |x| case Err(_) => 0;
      if size != BlockSize(Szx(v)) {
        return Failure, v, pos, szx;
      }
      if szx > Szx(v) {
        szx := Szx(v);
      }
      PosAligned(v);
      SmallerDivides(pos, szx, Szx(v));
      pos := (pos + BlockSize(Szx(v))) % POSITIONS;
      WrapAligned(PosOf(got) + BlockSize(Szx(v)), szx);
      e := NoError;
    }

    /**
     * What `coapClientReadBody` does when the current response is exhausted: it asks for the block
     * behind it, in the smaller of both block sizes, unless there is none.
     */
    method NextBlock() returns (e: Error)
      requires Valid() && response.pos == |response.View().value.Payload()|
      modifies this`got, this`disturbed, this`lied
      modifies request`length, request.buffer, response`length, response`pos, response.buffer
      ensures e == NoError ==>
                && Valid() && response.pos == 0 && old(IsFull(response.View().value, PosOf(got)))
                && got == old(got) + [old(response.View().value)]
      ensures e == EndOfStream <==> old(IsLast(response.View().value, PosOf(got)))
      ensures e == Failure <==> old(!IsLast(response.View().value, PosOf(got)) && !IsFull(response.View().value, PosOf(got)))
      ensures e == EndOfStream || e == Failure ==>
                && Valid() && request.View() == old(request.View()) && response.View() == old(response.View())
                && got == old(got) && disturbed == old(disturbed) && lied == old(lied) && response.pos == old(response.pos)
      ensures old(IsFull(response.View().value, PosOf(got))) ==>
                && old(Block2(response.View().value)).Some?
                && var w := old(Asked(request.View().value, response.View().value, rxBlockSzx,
                                      (PosOf(got) + |response.View().value.Payload()|) % POSITIONS));
                   && (e == BufferOverflow <==>
                         old(SizeOnSet(request.View().value, COAP_OPT_BLOCK2, 0, UintBytes(w))) > COAP_MAX_MSG_SIZE)
                   && (e == NoError ==>
                         request.View() == Some(old(request.View().value).(
                           options := SetOpt(old(request.View().value).options, COAP_OPT_BLOCK2, 0, UintBytes(w)))))
      ensures (old(disturbed) ==> disturbed) && (old(lied) ==> lied)
      ensures !disturbed ==> e in {NoError, EndOfStream, BufferOverflow, Failure}
      ensures e == NoError && !old(disturbed) ==> !disturbed
      ensures e == InvalidStatus ==> response.Valid() && response.View().Some? && Code(response.View().value) / 32 != 2
      ensures e in {NoError, EndOfStream, BufferOverflow, Timeout, InvalidStatus, Failure}
    {
      hide DecodeMsg, Honest, RequestPos, BlockSize, Aligned, SizeOnSet, SetOpt, UintBytes, Block2, RequestSzx, Block,
        IsFull, IsLast, PosOf, Progress, Asked, Smaller, Szx;
      var v, pos, szx;
      ghost var m := response.View().value;
      e, v, pos, szx := Inspect();
      if e != NoError {
        return;
      }
      FullMeaning(m, PosOf(got));
      AskedIs(request.View().value, m, rxBlockSzx, pos, v, szx);
      e := Request(v, pos, szx);
      if e != NoError {
        return;
      }
      NextPos(got, m);
      ProgressNext(m, response.View().value, body, got, received, old(lied), lied);
      got := got + [m];
    }

    /** Asks for a block and looks at the code of the response. */
    method Request(v: uint32, pos: uint32, szx: nat) returns (e: Error)
      requires request.Valid() && response.Valid() && request.View().Some? && Separate()
      requires szx <= 7 && Aligned(pos, szx)
      modifies this`disturbed, this`lied, request`length, request.buffer, response`length, response`pos, response.buffer
      ensures request.Valid() && (e == NoError ==> request.View().Some?)
      ensures var w := Block(v, pos, 0, szx);
              && (e == BufferOverflow <==>
                    SizeOnSet(old(request.View()).value, COAP_OPT_BLOCK2, 0, UintBytes(w)) > COAP_MAX_MSG_SIZE)
              && (e == NoError ==>
                    request.View() == Some(old(request.View()).value.(
                      options := SetOpt(old(request.View()).value.options, COAP_OPT_BLOCK2, 0, UintBytes(w)))))
      ensures e == NoError ==>
                && RequestPos(request.View().value) == pos
                && response.Valid() && response.View().Some? && response.pos == 0 && disturbed == old(disturbed)
                && (lied <==> old(lied) || !Honest(response.View().value, body, pos))
      ensures (old(disturbed) ==> disturbed) && (old(lied) ==> lied)
      ensures !disturbed ==> e in {NoError, BufferOverflow}
      ensures e == InvalidStatus ==> response.Valid() && response.View().Some? && Code(response.View().value) / 32 != 2
      ensures e in {NoError, BufferOverflow, Timeout, InvalidStatus}
    {
      hide DecodeMsg, Honest, RequestPos, BlockSize, Aligned, SizeOnSet, SetOpt, UintBytes, Block;
      e := AskFor(v, pos, szx);
      if e != NoError {
        return;
      }
      e := Exchange();
      if e != NoError {
        return;
      }
      var code := response.GetCode();
      if code.Err? || code.value / 32 != CODE_CLASS_SUCCESS {
        return InvalidStatus;
      }
    }

    /**
     * `coapClientReadBody`. With any server, the bytes delivered are those of responses that are full
     * blocks one behind the other and, at the end of the stream, a last one. An honest server's body is
     * delivered in order; while its exchanges succeed and the request has room for the option, a read
     * returns all that is asked for or left.
     */
    method ReadBody(size: nat) returns (e: Error, data: seq<byte>)
      requires Valid()
      modifies this`got, this`received, this`disturbed, this`lied
      modifies request`length, request.buffer, response`length, response`pos, response.buffer
      ensures |data| <= size && received == old(received) + data && (!lied ==> IsPrefix(received, body))
      ensures e == NoError || e == EndOfStream ==> Valid()
      ensures e == NoError && |data| < size ==> Over()
      ensures e == EndOfStream ==> data == [] && Over()
      ensures old(Over()) && size > 0 ==> e == EndOfStream
      ensures e in {NoError, EndOfStream, BufferOverflow, Timeout, InvalidStatus, Failure}
      ensures (old(disturbed) ==> disturbed) && (old(lied) ==> lied) && (e == Failure ==> lied && Refused())
      ensures e == NoError && !old(disturbed) ==> !disturbed
      ensures !disturbed ==> e in {NoError, EndOfStream, BufferOverflow, Failure}
      ensures old(HasRoom()) ==> e != BufferOverflow && (e == NoError || e == EndOfStream ==> HasRoom())
      ensures !lied && e == EndOfStream ==> received == body
      ensures !lied && e == NoError && |data| < size ==> received == body
      ensures !disturbed && !lied && old(HasRoom()) ==>
                (e == NoError || e == EndOfStream) && |data| == Least(size, |body| - |old(received)|)
    {
      hide Valid, DecodeMsg, HasRoom, Over, Refused, IsPrefix;
      InTheEnd();
      e, data := Fetch(size);
      if e == NoError || e == EndOfStream {
        InTheEnd();
        Prefixes();
      }
      if |data| > 0 && e == EndOfStream {
        e := NoError;
      }
    }

    /** The loop of `coapClientReadBody`. */
    method Fetch(size: nat) returns (e: Error, data: seq<byte>)
      requires Valid()
      modifies this`got, this`received, this`disturbed, this`lied
      modifies request`length, request.buffer, response`length, response`pos, response.buffer
      ensures |data| <= size && received == old(received) + data && (!lied ==> IsPrefix(received, body))
      ensures e == NoError ==> Valid() && |data| == size
      ensures e == EndOfStream ==> Valid() && Over() && |data| < size
      ensures old(Over()) && size > 0 ==> e == EndOfStream && data == []
      ensures e in {NoError, EndOfStream, BufferOverflow, Timeout, InvalidStatus, Failure}
      ensures (old(disturbed) ==> disturbed) && (old(lied) ==> lied) && (e == Failure ==> lied && Refused())
      ensures e == NoError || e == EndOfStream ==> disturbed == old(disturbed)
      ensures !disturbed ==> e in {NoError, EndOfStream, BufferOverflow, Failure}
      ensures old(HasRoom()) ==> e != BufferOverflow && (e == NoError || e == EndOfStream ==> HasRoom())
    {
      hide Valid, DecodeMsg, HasRoom, Over, Refused, IsPrefix, Pending;
      e, data := NoError, [];
      InTheEnd();
      while |data| < size
        invariant e == NoError && Valid() && |data| <= size && received == old(received) + data
        invariant !lied ==> IsPrefix(received, body)
        invariant old(HasRoom()) ==> HasRoom()
        invariant disturbed == old(disturbed) && (old(lied) ==> lied)
        invariant old(Over()) ==> Over() && data == []
        decreases size - |data|, Pending()
      {
        var chunk;
        e, chunk := ReadChunk(size - |data|);
        data := data + chunk;
        if e != NoError {
          e := Continue();
          if e != NoError {
            break;
          }
        }
      }
    }

    /** The delivered part of the body is no longer than the body. */
    lemma Prefixes()
      ensures IsPrefix(received, body) ==> |received| <= |body| && (received == body <==> |received| == |body|)
    {
      if IsPrefix(received, body) && |received| == |body| {
        assert body[..|body|] == body;
      }
    }

    /** What a response whose bytes are all read is worth: another one can follow unless it is empty. */
    ghost function Pending(): (n: nat)
      reads this, request, response, request.buffer, response.buffer
    {
      if !Shaped() || response.pos < |response.View().value.Payload()| then 0
      else if response.View().value.Payload() == [] then 1 else 2
    }

    /** Whatever value is to be stored in the Block2 option, the request has room for it. */
    ghost predicate HasRoom()
      reads request, request.buffer
    {
      request.Valid() && request.View().Some? && IsRoomy(request.View().value, COAP_OPT_BLOCK2)
    }

    /** An honest server's body was delivered if and only if the transfer is over. */
    lemma InTheEnd()
      requires Valid()
      ensures !lied ==> IsPrefix(received, body) && (Over() <==> received == body) && !Refused()
    {
      hide DecodeMsg, RequestPos, Progress, IsLast, IsFull, IsPrefix, PosOf;
      if !lied {
        ProgressEnd(response.View().value, response.pos, body, got, received);
      }
    }

    /** `NextBlock`, as far as the loop of `coapClientReadBody` needs it. */
    method Continue() returns (e: Error)
      requires Valid() && response.pos == |response.View().value.Payload()|
      modifies this`got, this`disturbed, this`lied
      modifies request`length, request.buffer, response`length, response`pos, response.buffer
      ensures e == NoError || e == EndOfStream ==> Valid() && disturbed == old(disturbed)
      ensures e == NoError ==> Pending() < old(Pending())
      ensures e == EndOfStream <==> old(Over())
      ensures e == EndOfStream ==> Over()
      ensures e in {NoError, EndOfStream, BufferOverflow, Timeout, InvalidStatus, Failure}
      ensures (old(disturbed) ==> disturbed) && (old(lied) ==> lied) && (e == Failure ==> lied && Refused())
      ensures !disturbed ==> e in {NoError, EndOfStream, BufferOverflow, Failure}
      ensures !lied ==> IsPrefix(received, body)
      ensures old(HasRoom()) ==> e != BufferOverflow && (e == NoError || e == EndOfStream ==> HasRoom())
    {
      hide DecodeMsg, RequestPos, SizeOnSet, SetOpt, UintBytes, Block2, Asked, IsRoomy, IsFull, IsLast, PosOf, Progress,
        IsPrefix, RequestSzx, Smaller, Szx;
      ghost var s := request.Bytes();
      ghost var m, r, base := request.View().value, response.View().value, PosOf(got);
      InTheEnd();
      RoomFor(s, Asked(m, r, rxBlockSzx, (base + |r.Payload()|) % POSITIONS));
      e := NextBlock();
      if e == NoError { FullMeaning(r, base); }
    }

    /** Takes what is left of the current response. */
    method ReadChunk(size: nat) returns (e: Error, chunk: seq<byte>)
      requires Valid() && size > 0
      modifies this`received, response`pos
      ensures Valid() && (old(HasRoom()) ==> HasRoom()) && (!lied ==> IsPrefix(received, body))
      ensures received == old(received) + chunk
      ensures e == NoError ==> 0 < |chunk| <= size && !old(Over())
      ensures e != NoError ==>
                && chunk == [] && response.pos == |response.View().value.Payload()| && Pending() == old(Pending())
                && (old(Over()) ==> Over())
    {
      hide DecodeMsg, RequestPos, IsLast, Progress, IsPrefix, PosOf;
      ghost var m, at := response.View().value, response.pos;
      e, chunk := response.ReadPayload(size);
      assert chunk == m.Payload()[at..response.pos];
      ProgressRead(m, at, response.pos, body, got, received, lied);
      received := received + chunk;
      InTheEnd();
    }

    /** A run of reads of any sizes from the start. */
    method ReadMany(sizes: seq<nat>) returns (e: Error, data: seq<byte>)
      requires Valid() && received == []
      modifies this`got, this`received, this`disturbed, this`lied
      modifies request`length, request.buffer, response`length, response`pos, response.buffer
      ensures data == received
      ensures e == EndOfStream ==> Over() && Chained(got) && data == Collected(got + [response.View().value])
      ensures !lied ==> |data| <= |body| && data == body[..|data|] && (e == EndOfStream ==> data == body)
      ensures !disturbed && !lied && old(HasRoom()) ==> |data| == Least(Sum(sizes), |body|)
    {
      hide Valid, HasRoom, Sum, Over, Collected, Chained, DecodeMsg;
      e, data := NoError, [];
      SumNone();
      assert sizes[..0] == [];
      for i := 0 to |sizes|
        invariant e == NoError && Valid() && data == received
        invariant (old(lied) ==> lied) && (old(disturbed) ==> disturbed)
        invariant old(HasRoom()) ==> HasRoom()
        invariant !lied ==> IsPrefix(received, body)
        invariant !disturbed && !lied && old(HasRoom()) ==> |data| == Least(Sum(sizes[..i]), |body|)
      {
        var chunk;
        e, chunk := ReadBody(sizes[i]);
        SumSnoc(sizes, i);
        data := data + chunk;
        if e != NoError {
          SumPrefix(sizes, i + 1);
          if e == EndOfStream { AllCollected(); }
          return;
        }
      }
      assert sizes[..|sizes|] == sizes;
    }

    /** At the end everything that was sent is delivered. */
    lemma AllCollected()
      requires Valid() && Over()
      ensures Chained(got) && received == Collected(got + [response.View().value])
    {
      hide DecodeMsg, Honest, RequestPos, Collected, Chained, IsLast;
      var m := response.View().value;
      CollectedSnoc(got, m);
      assert m.Payload()[..|m.Payload()|] == m.Payload();
    }

    /** Stores the position of the next block in the Block2 option of the request. */
    method AskFor(v: uint32, pos: uint32, szx: nat) returns (e: Error)
      requires request.Valid() && request.View().Some? && szx <= 7 && Aligned(pos, szx)
      modifies request`length, request.buffer
      ensures request.Valid()
      ensures var w := Block(v, pos, 0, szx);
              && e == (if SizeOnSet(old(request.View()).value, COAP_OPT_BLOCK2, 0, UintBytes(w)) > COAP_MAX_MSG_SIZE
                       then BufferOverflow else NoError)
              && (e == NoError ==>
                    request.View() == Some(old(request.View()).value.(
                      options := SetOpt(old(request.View()).value.options, COAP_OPT_BLOCK2, 0, UintBytes(w)))))
      ensures e == NoError ==> RequestPos(request.View().value) == pos
    {
      hide DecodeMsg, Values, UintValue, UintBytes, Pos, BlockSize, SetOpt, Block, Aligned, SizeOnSet, AfterFailedSet;
      ghost var s := request.Bytes();
      var value := Block(v, pos, 0, szx);
      BlockRoundTrip(v, pos, 0, szx);
      e := request.SetUintOption(COAP_OPT_BLOCK2, 0, value);
      if e == NoError {
        StoredBlock(s, COAP_OPT_BLOCK2, value);
      }
    }
  }

  lemma FullMeaning(m: Msg, pos: uint32)
    requires IsFull(m, pos)
    ensures Block2(m).Some? && m.Payload() != []
  {
    hide Block2, BlockSize, Pos, More, Szx;
  }

  function Least(a: int, b: int): (r: int)
  {
    if a <= b then a else b
  }

  function Smaller(a: nat, b: nat): (r: nat)
  {
    if a > b then b else a
  }

  /** The block size exponent that a request asks for. */
  function RequestSzx(m: Msg, rx: nat): (szx: nat)
  {
    match Block2(m) case None => rx case Some(v) => Szx(v)
  }

  /**
   * The Block2 value of the next request: position `pos`, M clear, and the smaller of the size asked
   * for so far and the size of the last response.
   */
  function Asked(request: Msg, response: Msg, rx: nat, pos: nat): (w: uint32)
  {
    match Block2(response)
    case Some(v) =>
      var szx := Smaller(RequestSzx(request, rx), Szx(v));
      if szx <= 7 && pos < 0x1_0000_0000 then Block(v, pos, 0, szx) else 0
    case None => 0
  }

  lemma AskedIs(request: Msg, response: Msg, rx: nat, pos: uint32, v: uint32, szx: nat)
    requires Block2(response) == Some(v) && szx == Smaller(RequestSzx(request, rx), Szx(v)) && szx <= 7
    ensures Asked(request, response, rx, pos) == Block(v, pos, 0, szx)
  {
  }

  /** Its fields. */
  lemma AskedMeaning(request: Msg, response: Msg, rx: nat, pos: uint32)
    requires Block2(response).Some? && rx <= 7 && Aligned(pos, Smaller(RequestSzx(request, rx), Szx(Block2(response).value)))
    ensures var w := Asked(request, response, rx, pos);
            Pos(w) == pos && More(w) == 0 && Szx(w) == Smaller(RequestSzx(request, rx), Szx(Block2(response).value))
  {
    hide Block2, Szx, Aligned, Block, Pos, More;
    var v := Block2(response).value;
    BlockRoundTrip(v, pos, 0, Smaller(RequestSzx(request, rx), Szx(v)));
  }

  lemma RoomFor(s: seq<byte>, w: uint32)
    requires DecodeMsg(s).Some?
    ensures var m := DecodeMsg(s).value;
            IsRoomy(m, COAP_OPT_BLOCK2) ==>
              && SizeOnSet(m, COAP_OPT_BLOCK2, 0, UintBytes(w)) <= COAP_MAX_MSG_SIZE
              && IsRoomy(m.(options := SetOpt(m.options, COAP_OPT_BLOCK2, 0, UintBytes(w))), COAP_OPT_BLOCK2)
  {
    hide DecodeMsg, EncodeMsg, SizeOnSet, SetOpt, UintBytes, ParseHeader, Ascending;
    EncodeOfDecodeMsg(s);
    var m := DecodeMsg(s).value;
    if IsRoomy(m, COAP_OPT_BLOCK2) {
      StaysRoomy(m, COAP_OPT_BLOCK2, w);
    }
  }

  /** A response with a Block2 option. */
  function Answer(code: byte, value: uint32, payload: seq<byte>): (s: seq<byte>)
  {
    [0x40, code, 0, 0]
    + Format(0, Opt(COAP_OPT_BLOCK2, UintBytes(value))) + ([PAYLOAD_MARKER] + payload)
  }

  lemma AnswerDecodes(code: byte, value: uint32, payload: seq<byte>)
    requires |payload| <= 1024
    ensures |Answer(code, value, payload)| <= COAP_MAX_MSG_SIZE
    ensures var m := DecodeMsg(Answer(code, value, payload));
            && m.Some? && Block2(m.value) == Some(value) && m.value.Payload() == payload
            && Code(m.value) == code
  {
    hide Format, EncodeList, DecodeMsg, UintBytes, UintValue, ParseHeader;
    UintSize(value);
    UintRoundTrip(value);
    var o := Opt(COAP_OPT_BLOCK2, UintBytes(value));
    var m := Msg([0x40, code, 0, 0], [o], [PAYLOAD_MARKER] + payload);
    FixedHeader(m.header);
    SingleOption(o);
    DecodeOfEncodeMsg(m);
    assert EncodeMsg(m) == Answer(code, value, payload);
  }

  lemma FixedHeader(h: seq<byte>)
    requires |h| == HEADER_SIZE && h[0] == 0x40
    ensures ParseHeader(h) == Ok(HEADER_SIZE)
  {
  }

  lemma SingleOption(o: Opt)
    requires |o.value| <= 4
    ensures EncodeList(0, [o]) == Format(0, o) && |Format(0, o)| <= 9
    ensures Ascending(0, [o]) && Values([o], o.number) == [o.value]
  {
    hide Format;
    EncodeCons(0, o, []);
    assert [o] + [] == [o];
    ValuesCons(o, [], o.number);
  }
}
