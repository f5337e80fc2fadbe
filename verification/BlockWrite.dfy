/**
 * `coapClientWriteBody`: a body sent with block-wise transfers (RFC 7959). The state of the
 * transfer lives in the Block1 option and the payload of the encoded request message.
 */
module BlockWrite {
  import opened Bytes
  import opened OptionCodec
  import opened OptionList
  import opened OptionEdits
  import opened MessageFormat
  import opened CoapMessage
  import opened BlockOption

  /** What came of sending a request: the status, and the code and Block1 value of the response. */
  datatype Reply = Reply(error: Error, code: byte, block: Option<uint32>)

  /** A request that left the client. */
  datatype Sent = Sent(request: Msg, reply: Reply)

  /** The bytes carried by a series of requests. */
  function Carried(sent: seq<Sent>): (s: seq<byte>)
  {
    if sent == [] then [] else Carried(sent[..|sent| - 1]) + sent[|sent| - 1].request.Payload()
  }

  /** The server took the request: success and, for a block, its position and a size in Block1. */
  predicate IsTaken(x: Sent)
  {
    && x.reply.error == NoError && x.reply.code / 32 == CODE_CLASS_SUCCESS
    && (Block1(x.request).Some? ==>
          && x.reply.block.Some? && Szx(x.reply.block.value) < COAP_BLOCK_SIZE_RESERVED
          && Pos(x.reply.block.value) == Pos(Block1(x.request).value))
  }

  /** The status to report for a request: each way of not taking it has its own error. */
  function Outcome(x: Sent): (e: Error)
    ensures e == NoError <==> IsTaken(x)
  {
    if x.reply.error != NoError then x.reply.error
    else if x.reply.code / 32 != CODE_CLASS_SUCCESS then InvalidStatus
    else if IsTaken(x) then NoError
    else if x.reply.block.None? then NotFound
    else Failure
  }

  /** A server that asks for a smaller block size while the transfer goes on. */
  predicate Shrinks(x: Sent)
  {
    && Block1(x.request).Some? && x.reply.block.Some?
    && Szx(x.reply.block.value) < Szx(Block1(x.request).value)
  }

  predicate Shrunk(sent: seq<Sent>)
  {
    exists i :: 0 <= i < |sent| && Shrinks(sent[i])
  }

  /** A request in the middle of a transfer: a full block with M set. */
  predicate Middle(x: Sent)
  {
    && Block1(x.request).Some? && More(Block1(x.request).value) == 1
    && Szx(Block1(x.request).value) < COAP_BLOCK_SIZE_RESERVED
    && |x.request.Payload()| == BlockSize(Szx(Block1(x.request).value))
  }

  /**
   * Request `i` names the position of its first byte, exactly as long as no server shrank the
   * blocks; until then it has the block size that the client was set up with.
   */
  ghost predicate Placed(tx: nat, sent: seq<Sent>, i: nat)
    requires i < |sent|
  {
    Block1(sent[i].request).Some? ==>
      && (Pos(Block1(sent[i].request).value) == |Carried(sent[..i])| <==> !Shrunk(sent[..i]))
      && (!Shrunk(sent[..i]) ==> Szx(Block1(sent[i].request).value) == tx)
  }

  /** Where the next block goes and how large it is. */
  function Cursor(m: Msg, tx: nat): (c: (uint32, nat))
    ensures tx <= 7 ==> c.1 <= 7
  {
    match Block1(m) case None => (0, tx) case Some(v) => (Pos(v), Szx(v))
  }

  /** A transfer in progress: `taken` is all the data accepted so far. */
  ghost predicate Open(m: Msg, tx: nat, sent: seq<Sent>, taken: seq<byte>)
  {
    var (pos, szx) := Cursor(m, tx);
    && szx <= tx && szx < COAP_BLOCK_SIZE_RESERVED && Aligned(pos, szx)
    && Single(m) && (sent == [] <==> pos == 0) && (sent == [] ==> Block1(m).None?)
    && |m.Payload()| <= BlockSize(szx)
    && taken == Carried(sent) + m.Payload()
    && pos <= |Carried(sent)|
    && (pos == |Carried(sent)| <==> !Shrunk(sent)) && (!Shrunk(sent) ==> szx == tx)
    && (forall i | 0 <= i < |sent| :: IsTaken(sent[i]) && Middle(sent[i]) && Placed(tx, sent, i))
  }

  /** A finished transfer. */
  ghost predicate Finished(tx: nat, sent: seq<Sent>, taken: seq<byte>)
  {
    && sent != [] && Carried(sent) == taken
    && (forall i | 0 <= i < |sent| - 1 :: Middle(sent[i]))
    && (forall i | 0 <= i < |sent| :: IsTaken(sent[i]) && Placed(tx, sent, i))
    && var x := sent[|sent| - 1];
       if |sent| == 1 then Block1(x.request).None?
       else Block1(x.request).Some? && More(Block1(x.request).value) == 0
            && Szx(Block1(x.request).value) < COAP_BLOCK_SIZE_RESERVED
            && |x.request.Payload()| <= BlockSize(Szx(Block1(x.request).value))
  }

  /** Up to Block1 the requests are the one that the transfer started on ... */
  ghost predicate Alike(origin: Msg, sent: seq<Sent>)
  {
    forall i | 0 <= i < |sent| :: Kept(origin, sent[i].request) && Block2(sent[i].request) == Block2(origin)
  }

  /** ... where the last one announces the preferred size of the response, if there is one. */
  ghost predicate Announced(origin: Msg, rx: nat, sent: seq<Sent>)
    requires rx <= 7
  {
    && sent != [] && Alike(origin, sent[..|sent| - 1]) && Kept(origin, sent[|sent| - 1].request)
    && Block2(sent[|sent| - 1].request) == Preferred(origin, rx)
  }

  /** NUM 0, M 0 and the preferred size exponent. */
  function Preferred(origin: Msg, rx: nat): (v: Option<uint32>)
    requires rx <= 7
  {
    if rx < COAP_BLOCK_SIZE_RESERVED then Some(rx) else Block2(origin)
  }

  /** How sending one request is reported. */
  ghost predicate Reported(e: Error, before: seq<Sent>, after: seq<Sent>, was: bool, disturbed: bool)
  {
    if after == before then e == BufferOverflow && disturbed == was
    else
      && after != []
      && var x := after[|after| - 1];
         && after == before + [x] && (disturbed <==> was || !IsTaken(x))
         && (e == Outcome(x) || (e == BufferOverflow && IsTaken(x)))
  }

  // ---------------------------------------------------------------- the log grows

  lemma CarriedSnoc(sent: seq<Sent>, x: Sent)
    ensures Carried(sent + [x]) == Carried(sent) + x.request.Payload()
  {
    assert (sent + [x])[..|sent|] == sent;
  }

  lemma ShrunkSnoc(sent: seq<Sent>, x: Sent)
    ensures Shrunk(sent + [x]) <==> Shrunk(sent) || Shrinks(x)
  {
    var all := sent + [x];
    assert forall i | 0 <= i < |sent| :: all[i] == sent[i];
    assert all[|sent|] == x;
  }

  lemma PlacedSnoc(tx: nat, sent: seq<Sent>, x: Sent, i: nat)
    requires i < |sent|
    ensures Placed(tx, sent + [x], i) <==> Placed(tx, sent, i)
  {
    assert (sent + [x])[..i] == sent[..i];
  }

  /** Recording a request that names position `pos`. */
  lemma LogPlaced(tx: nat, sent: seq<Sent>, x: Sent, pos: nat)
    requires forall i | 0 <= i < |sent| :: Placed(tx, sent, i)
    requires Block1(x.request).Some? ==> Pos(Block1(x.request).value) == pos
    requires pos == |Carried(sent)| <==> !Shrunk(sent)
    requires Block1(x.request).Some? && !Shrunk(sent) ==> Szx(Block1(x.request).value) == tx
    ensures forall i | 0 <= i < |sent| + 1 :: Placed(tx, sent + [x], i)
  {
    hide Carried, Shrunk;
    forall i | 0 <= i < |sent| + 1
      ensures Placed(tx, sent + [x], i)
    {
      if i < |sent| {
        PlacedSnoc(tx, sent, x, i);
      } else {
        assert (sent + [x])[..i] == sent;
      }
    }
  }

  /** The message after a middle block was acknowledged with block size `szx` or larger. */
  lemma MiddleStep(m: Msg, n: Msg, tx: nat, sent: seq<Sent>, taken: seq<byte>, x: Sent, szx: nat)
    requires Open(m, tx, sent, taken) && Middle(x) && IsTaken(x) && x.request.Payload() == m.Payload()
    requires var (pos, s) := Cursor(m, tx);
             && Pos(Block1(x.request).value) == pos && Szx(Block1(x.request).value) == s
             && szx == (if Szx(x.reply.block.value) < s then Szx(x.reply.block.value) else s)
             && Cursor(n, tx) == (pos + BlockSize(szx), szx)
    requires n.Payload() == [] && Single(n)
    ensures Open(n, tx, sent + [x], taken)
  {
    hide Carried, Shrunk, Values, UintValue, Placed, Pos, More, Cursor, BlockSize, Szx, Aligned, Block1, Single;
    var (pos, s) := Cursor(m, tx);
    var all := sent + [x];
    CarriedSnoc(sent, x);
    ShrunkSnoc(sent, x);
    LogPlaced(tx, sent, x, pos);
    SmallerDivides(pos, szx, s);
    SmallerDivides(pos, szx, szx);
    SizeOrder(szx, s);
    assert Carried(all) + [] == Carried(all);
    assert forall i | 0 <= i < |all| :: Middle(all[i]) && IsTaken(all[i]);
  }

  lemma SizeOrder(a: nat, b: nat)
    requires a <= b <= 7
    ensures BlockSize(a) <= BlockSize(b) && (BlockSize(a) == BlockSize(b) <==> a == b)
  {
  }

  /** The last request of a transfer. */
  lemma FinalStep(m: Msg, tx: nat, sent: seq<Sent>, taken: seq<byte>, x: Sent)
    requires Open(m, tx, sent, taken) && IsTaken(x) && x.request.Payload() == m.Payload()
    requires var (pos, s) := Cursor(m, tx);
             if pos == 0 then Block1(x.request).None?
             else
               && Block1(x.request).Some? && Pos(Block1(x.request).value) == pos
               && Szx(Block1(x.request).value) == s && More(Block1(x.request).value) == 0
    ensures Finished(tx, sent + [x], taken)
  {
    hide Carried, Shrunk, Values, UintValue, Placed, Pos, More, Cursor, BlockSize, Szx, Aligned, Block1, Single;
    var (pos, s) := Cursor(m, tx);
    CarriedSnoc(sent, x);
    LogPlaced(tx, sent, x, pos);
    assert forall i | 0 <= i < |sent| :: (sent + [x])[i] == sent[i];
  }

  /**
   * In a finished transfer every request names the position of its first byte, if and only if no
   * acknowledgement of an earlier request asked for smaller blocks; the block size then stays.
   */
  lemma PositionsAreRight(tx: nat, sent: seq<Sent>, taken: seq<byte>)
    requires Finished(tx, sent, taken)
    ensures (forall i | 0 <= i < |sent| && Block1(sent[i].request).Some? ::
               Pos(Block1(sent[i].request).value) == |Carried(sent[..i])|)
            <==> !Shrunk(sent[..|sent| - 1])
    ensures !Shrunk(sent[..|sent| - 1]) ==>
              forall i | 0 <= i < |sent| && Block1(sent[i].request).Some? :: Szx(Block1(sent[i].request).value) == tx
  {
    hide Carried, Pos, Shrinks, Szx;
    var n := |sent| - 1;
    if !Shrunk(sent[..n]) {
      forall i | 0 <= i < |sent| && Block1(sent[i].request).Some?
        ensures Pos(Block1(sent[i].request).value) == |Carried(sent[..i])| && Szx(Block1(sent[i].request).value) == tx
      {
        assert Placed(tx, sent, i);
        assert forall j | 0 <= j < i :: sent[..i][j] == sent[..n][j];
      }
    } else {
      assert Placed(tx, sent, n);
    }
  }

  /** A request with a Block1 option, acknowledged with code 2.31 and Block1 value `ack`. */
  function Acked(block: byte, payload: seq<byte>, ack: uint32): (x: Sent)
  {
    Sent(Msg([0x40, 3, 0, 0], [Opt(COAP_OPT_BLOCK1, [block])], [PAYLOAD_MARKER] + payload), Reply(NoError, 0x5F, Some(ack)))
  }

  /** Blocks of 32 bytes; the server acknowledges the first one with a size of 16. */
  function ShrunkLog(): (sent: seq<Sent>)
  {
    [Acked(9, seq(32, _ => 0), 8), Acked(16, [7], 16)]
  }

  /** A finished transfer in which byte 32 of the body is sent as byte 16. */
  lemma ShrunkExample()
    ensures var sent := ShrunkLog();
            && Finished(1, sent, Carried(sent)) && Shrunk(sent[..1])
            && Block1(sent[1].request).Some? && Pos(Block1(sent[1].request).value) == 16
            && |Carried(sent[..1])| == 32
  {
    hide Finished, Carried, Shrunk, Szx, More, Pos;
    AckedIs(9, seq(32, _ => 0), 8);
    AckedIs(16, [7], 16);
    BlockValues();
    ShrunkLogPlaced(ShrunkLog()[0], ShrunkLog()[1]);
  }

  lemma BlockValues()
    ensures Szx(9) == 1 && More(9) == 1 && Pos(9) == 0 && Szx(16) == 0 && More(16) == 0 && Pos(16) == 16
    ensures Szx(8) == 0 && Pos(8) == 0
  {
  }

  lemma AckedIs(block: byte, payload: seq<byte>, ack: uint32)
    ensures var x := Acked(block, payload, ack);
            && Block1(x.request) == Some(block) && x.request.Payload() == payload
            && x.reply.error == NoError && x.reply.code / 32 == CODE_CLASS_SUCCESS && x.reply.block == Some(ack)
  {
    hide UintValue;
    ValuesCons(Opt(COAP_OPT_BLOCK1, [block]), [], COAP_OPT_BLOCK1);
    assert [Opt(COAP_OPT_BLOCK1, [block])] + [] == [Opt(COAP_OPT_BLOCK1, [block])];
    assert [] + [block] == [block];
    BigEndian([], block);
  }

  lemma ShrunkLogPlaced(a: Sent, b: Sent)
    requires Block1(a.request) == Some(9) && |a.request.Payload()| == 32
    requires Block1(b.request) == Some(16) && |b.request.Payload()| == 1
    requires a.reply.error == NoError && a.reply.code / 32 == CODE_CLASS_SUCCESS && a.reply.block == Some(8)
    requires b.reply.error == NoError && b.reply.code / 32 == CODE_CLASS_SUCCESS && b.reply.block == Some(16)
    ensures var sent := [a, b];
            Finished(1, sent, Carried(sent)) && Shrunk(sent[..1]) && |Carried(sent[..1])| == 32
  {
    BlockValues();
    hide Szx, More, Pos, Block1;
    var sent := [a, b];
    assert sent[..1] == [a] && sent[..0] == [] && sent[..1][..0] == [];
    assert Carried(sent[..1]) == Carried([]) + a.request.Payload();
    assert Shrinks(sent[..1][0]);
    assert Middle(a);
    assert Placed(1, sent, 0) && Placed(1, sent, 1);
  }

  // ---------------------------------------------------------------- the client

  class Writer {
    const request: Message
    var txBlockSzx: nat
    var rxBlockSzx: nat
    /** The request as it was before the transfer. */
    ghost const origin: Msg
    /** The requests of this transfer, and the data that was accepted for it. */
    ghost var sent: seq<Sent>
    ghost var taken: seq<byte>
    /** Some request was not taken. */
    ghost var disturbed: bool

    ghost predicate Ready()
      reads this`txBlockSzx, this`rxBlockSzx, request, request.buffer
    {
      request.Valid() && request.View().Some? && txBlockSzx < COAP_BLOCK_SIZE_RESERVED && rxBlockSzx <= 7
    }

    ghost predicate Valid()
      reads this, request, request.buffer
    {
      && Ready() && |taken| < 0x1_0000_0000
      && Open(request.View().value, txBlockSzx, sent, taken)
      && Kept(origin, request.View().value) && Block2(request.View().value) == Block2(origin)
      && Alike(origin, sent)
    }

    /** The transfer is over: the log is complete, Block1 and payload are gone again. */
    ghost predicate Done()
      reads this, request, request.buffer
    {
      && Ready() && Finished(txBlockSzx, sent, taken) && Announced(origin, rxBlockSzx, sent)
      && Values(request.View().value.options, COAP_OPT_BLOCK1) == [] && request.View().value.Payload() == []
      && Kept(origin, request.View().value) && Block2(request.View().value) == Preferred(origin, rxBlockSzx)
    }

    /** There is room for a full block and whatever is to be stored in the block options. */
    ghost predicate HasRoom()
      reads this`txBlockSzx, this`rxBlockSzx, request, request.buffer
    {
      Ready() && IsAmple(Loaded(request.View().value, BlockSize(txBlockSzx)))
    }

    /** A transfer starts on a request without Block1 option and payload. */
    constructor (request: Message, txBlockSzx: nat, rxBlockSzx: nat)
      requires request.Valid() && request.View().Some?
      requires txBlockSzx < COAP_BLOCK_SIZE_RESERVED && rxBlockSzx <= 7
      requires Values(request.View().value.options, COAP_OPT_BLOCK1) == []
      requires request.View().value.Payload() == []
      ensures Valid() && taken == [] && sent == [] && !disturbed && origin == request.View().value
      ensures this.request == request && this.txBlockSzx == txBlockSzx && this.rxBlockSzx == rxBlockSzx
      ensures request.length - |request.View().value.tail| + 15 + BlockSize(txBlockSzx) <= COAP_MAX_MSG_SIZE ==> HasRoom()
    {
      this.request, this.txBlockSzx, this.rxBlockSzx := request, txBlockSzx, rxBlockSzx;
      origin := request.View().value;
      sent, taken, disturbed := [], [], false;
      new;
      hide DecodeMsg, IsAmple, Values, BlockSize, Open, Kept;
      OpenStart(request.View().value, txBlockSzx);
      AmpleStart(request.Bytes(), BlockSize(txBlockSzx));
    }

    /** The message exchange: the request leaves; any status, any response code, any Block1 option. */
    method Exchange() returns (e: Error, code: byte, ack: Option<uint32>)
      requires Ready()
      modifies this`sent, this`disturbed
      ensures var x := Sent(request.View().value, Reply(e, code, ack));
              sent == old(sent) + [x] && (disturbed <==> old(disturbed) || !IsTaken(x))
      ensures e == NoError || e == Timeout
    {
      hide DecodeMsg, IsTaken;
      e :| e == NoError || e == Timeout;
      code :| 0 <= code < 256;
      var value: uint32 :| 0 <= value < 0x1_0000_0000;
      var present: bool :| present || !present;
      ack := if present then Some(value) else None;
      ghost var x := Sent(request.View().value, Reply(e, code, ack));
      sent, disturbed := sent + [x], disturbed || !IsTaken(x);
    }

    method GetCursor() returns (pos: uint32, szx: nat)
      requires Ready()
      ensures (pos, szx) == Cursor(request.View().value, txBlockSzx)
    {
      hide DecodeMsg, Values, UintValue, Pos, Szx;
      var v := request.GetUintOption(COAP_OPT_BLOCK1, 0);
      if v.Ok? {
        pos, szx := Pos(v.value), Szx(v.value);
      } else {
        pos, szx := 0, txBlockSzx;
      }
    }

    /** Stores a value in one of the block options of the request. */
    method SetBlock(num: uint16, value: uint32) returns (e: Error)
      requires Ready() && Single(request.View().value) && (num == COAP_OPT_BLOCK1 || num == COAP_OPT_BLOCK2)
      modifies request`length, request.buffer
      ensures request.Valid()
      ensures e == if SizeOnSet(old(request.View()).value, num, 0, UintBytes(value)) > COAP_MAX_MSG_SIZE
                   then BufferOverflow else NoError
      ensures e == NoError ==>
                && request.View() == Some(WithOption(old(request.View()).value, num, value))
                && Ready() && Single(request.View().value) && Kept(old(request.View()).value, request.View().value)
                && Block1(request.View().value)
                   == (if num == COAP_OPT_BLOCK1 then Some(value) else Block1(old(request.View()).value))
                && Block2(request.View().value)
                   == (if num == COAP_OPT_BLOCK2 then Some(value) else Block2(old(request.View()).value))
      ensures old(HasRoom() && Fits()) ==> e == NoError && HasRoom()
    {
      hide DecodeMsg, Values, UintValue, UintBytes, SetOpt, SizeOnSet, AfterFailedSet, Block1, Block2, Single, Kept,
        IsAmple, Loaded;
      ghost var s := request.Bytes();
      e := request.SetUintOption(num, 0, value);
      if e == NoError {
        StoredBlock(s, num, value);
      }
      RoomToSet(s, BlockSize(txBlockSzx), num, value);
    }

    /** The payload is not larger than a block. */
    ghost predicate Fits()
      reads this`txBlockSzx, this`rxBlockSzx, request, request.buffer
    {
      Ready() && |request.View().value.tail| <= 1 + BlockSize(txBlockSzx)
    }

    /** The options of the request that is about to be sent. */
    method Prepare(pos: uint32, szx: nat, final: bool) returns (e: Error)
      requires Ready() && Single(request.View().value) && szx < COAP_BLOCK_SIZE_RESERVED && Aligned(pos, szx)
      modifies request`length, request.buffer
      ensures request.Valid() && (e == NoError || e == BufferOverflow)
      ensures e == NoError ==>
                && Ready() && Single(request.View().value) && Kept(old(request.View()).value, request.View().value)
                && request.View().value.tail == old(request.View()).value.tail
                && var b := Block1(request.View().value);
                   if pos > 0 || !final then
                     b.Some? && Pos(b.value) == pos && Szx(b.value) == szx
                     && More(b.value) == if final then 0 else 1
                   else b == Block1(old(request.View()).value)
      ensures e == NoError ==>
                Block2(request.View().value)
                == if final then Preferred(old(request.View()).value, rxBlockSzx) else Block2(old(request.View()).value)
      ensures old(HasRoom() && Fits()) ==> e == NoError && HasRoom()
    {
      hide DecodeMsg, Block1, Block2, Pos, More, Szx, Block, Aligned, Single, Kept, IsAmple, Loaded, SetOpt, SizeOnSet,
        UintBytes, BlockSize;
      ghost var m := request.View().value;
      e := NoError;
      KeptSame(m);
      if pos > 0 || !final {
        var more := if final then 0 else 1;
        BlockRoundTrip(0, pos, more, szx);
        e := SetBlock(COAP_OPT_BLOCK1, Block(0, pos, more, szx));
      }
      if e == NoError && final && rxBlockSzx < COAP_BLOCK_SIZE_RESERVED {
        ghost var n := request.View().value;
        PreferredValue(rxBlockSzx);
        e := SetBlock(COAP_OPT_BLOCK2, Block(0, 0, 0, rxBlockSzx));
        if e == NoError { KeptOn(m, n, request.View().value); }
      }
    }

    /** Stores the block option for the next request. */
    method StoreNext(ack: uint32, next: uint32, szx: nat, final: bool) returns (e: Error)
      requires Ready() && Single(request.View().value) && szx < COAP_BLOCK_SIZE_RESERVED
      requires !final ==> Aligned(next, szx)
      modifies request`length, request.buffer
      ensures request.Valid() && (e == NoError || e == BufferOverflow)
      ensures e == NoError ==>
                && Ready() && Single(request.View().value) && Kept(old(request.View()).value, request.View().value)
                && Block2(request.View().value) == Block2(old(request.View()).value)
                && (!final ==> Block1(request.View().value).Some? && Cursor(request.View().value, txBlockSzx) == (next, szx))
      ensures old(HasRoom() && Fits()) ==> e == NoError && HasRoom()
    {
      hide DecodeMsg, Block1, Block2, Pos, Szx, Aligned, NextValue, Single, Cursor, Kept, IsAmple, Loaded, SetOpt,
        SizeOnSet, UintBytes, BlockSize;
      if !final { KeepMore(ack, next, szx); }
      var value := NextValue(ack, next, szx);
      e := SetBlock(COAP_OPT_BLOCK1, value);
      if e == NoError { CursorOf(request.View().value, txBlockSzx, value); }
    }

    /** Makes the request ready for the next block, or clears it after the last one. */
    method Settle(ack: uint32, next: uint32, szx: nat, blockwise: bool, final: bool) returns (e: Error)
      requires Ready() && Single(request.View().value) && szx < COAP_BLOCK_SIZE_RESERVED
      requires !final ==> blockwise && Aligned(next, szx)
      modifies request`length, request.buffer
      ensures request.Valid() && (e == NoError || e == BufferOverflow)
      ensures e == NoError ==>
                && Ready() && Single(request.View().value) && request.View().value.Payload() == []
                && Kept(old(request.View()).value, request.View().value)
                && Block2(request.View().value) == Block2(old(request.View()).value)
                && if final then Values(request.View().value.options, COAP_OPT_BLOCK1) == []
                   else Block1(request.View().value).Some? && Cursor(request.View().value, txBlockSzx) == (next, szx)
      ensures old(HasRoom() && Fits()) ==> e == NoError && (!final ==> HasRoom())
    {
      hide DecodeMsg, Values, Block1, Block2, Single, Kept, UintValue, Aligned, EncodeList, DeleteOpt, BlockSize, Cursor,
        IsAmple, Loaded;
      e := NoError;
      ghost var m := request.View().value;
      KeptSame(m);
      if blockwise {
        e := StoreNext(ack, next, szx, final);
        if e != NoError {
          return;
        }
      }
      ghost var n := request.View().value;
      e := Clear();
      SameOptions(m, n, request.View().value, txBlockSzx);
      if final {
        ghost var s := request.Bytes();
        e := request.DeleteOption(COAP_OPT_BLOCK1, 0);
        Deleted(s);
        KeptOn(m, DecodeMsg(s).value, request.View().value);
      }
    }

    /** Trims the payload. */
    method Clear() returns (e: Error)
      requires Ready()
      modifies request`length, request.buffer
      ensures Ready() && e == NoError && request.View().value.Payload() == []
      ensures Same(old(request.View()).value, request.View().value)
      ensures old(HasRoom()) ==> HasRoom()
    {
      hide DecodeMsg, EncodeList, IsAmple;
      e := request.SetPayload([]);
    }

    /** The exchange: the acknowledged value, and the block size that the server leaves. */
    method Acknowledged(pos: uint32, szx: nat, blockwise: bool) returns (e: Error, a: uint32, newSzx: nat)
      requires Ready() && szx < COAP_BLOCK_SIZE_RESERVED && (blockwise <==> Block1(request.View().value).Some?)
      requires blockwise ==> Pos(Block1(request.View().value).value) == pos
      modifies this`sent, this`disturbed
      ensures |sent| == |old(sent)| + 1
      ensures var x := sent[|old(sent)|];
              && sent == old(sent) + [x] && x.request == request.View().value
              && (blockwise && e == NoError ==> x.reply.block == Some(a))
              && e == Outcome(x) && (disturbed <==> old(disturbed) || e != NoError)
      ensures e == NoError && blockwise ==> newSzx == if Szx(a) < szx then Szx(a) else szx
      ensures e == NoError && !blockwise ==> newSzx == szx
      ensures e != BufferOverflow && newSzx <= szx
    {
      hide Pos, Szx, Block1, DecodeMsg;
      a, newSzx := 0, szx;
      var code, ack;
      e, code, ack := Exchange();
      if e != NoError {
        return;
      }
      if code / 32 != CODE_CLASS_SUCCESS {
        e := InvalidStatus;
        return;
      }
      if blockwise {
        if ack.None? {
          e := NotFound;
          return;
        }
        a := ack.value;
        if Szx(a) >= COAP_BLOCK_SIZE_RESERVED || Pos(a) != pos {
          e := Failure;
          return;
        }
        if szx > Szx(a) {
          newSzx := Szx(a);
        }
      }
    }

    /** Sends the request with the block it holds and processes the acknowledgement. */
    method SendBlock(final: bool) returns (e: Error)
      requires Valid()
      requires !final ==>
                 |request.View().value.Payload()| == BlockSize(Cursor(request.View().value, txBlockSzx).1)
      modifies this`sent, this`disturbed, request`length, request.buffer
      ensures e == NoError && !final ==> Valid() && request.View().value.Payload() == []
      ensures e == NoError && final ==> Done()
      ensures Reported(e, old(sent), sent, old(disturbed), disturbed)
      ensures old(HasRoom()) ==> e != BufferOverflow && (e == NoError && !final ==> HasRoom())
    {
      hide DecodeMsg, Block1, Block2, Pos, More, Szx, Aligned, Values, Cursor, BlockSize, Finished, Middle, Single, Open,
        Wrap, Kept, Alike, Announced, Preferred, IsTaken, IsAmple, Loaded, HasRoom, Outcome;
      ghost var m := request.View().value;
      ghost var log := sent;
      OpenFacts(m, txBlockSzx, sent, taken);
      var pos, szx := GetCursor();
      e := Prepare(pos, szx, final);
      if e != NoError {
        return;
      }
      ghost var n := request.View().value;
      var blockwise := pos > 0 || !final;
      var a, newSzx;
      e, a, newSzx := Acknowledged(pos, szx, blockwise);
      if e != NoError {
        return;
      }
      ghost var x := sent[|log|];
      var next: uint32 := pos;
      if blockwise {
        if !final { NextPosition(m, txBlockSzx, log, taken, newSzx); }
        next := Wrap(pos + BlockSize(newSzx));
      }
      e := Settle(a, next, newSzx, blockwise, final);
      if e == NoError {
        if final {
          FinalStep(m, txBlockSzx, log, taken, x);
          AnnouncedSnoc(origin, rxBlockSzx, m, request.View().value, log, x);
        } else {
          MiddleIs(x);
          MiddleStep(m, request.View().value, txBlockSzx, log, taken, x, newSzx);
          AlikeSnoc(origin, m, request.View().value, log, x);
        }
      }
    }

    /** How much of the current block is still to be filled. */
    method Room() returns (room: nat)
      requires Valid()
      ensures Cursor(request.View().value, txBlockSzx).1 < COAP_BLOCK_SIZE_RESERVED
      ensures |request.View().value.Payload()| + room == BlockSize(Cursor(request.View().value, txBlockSzx).1)
    {
      hide DecodeMsg, Open, Cursor, BlockSize;
      OpenFacts(request.View().value, txBlockSzx, sent, taken);
      var pos, szx := GetCursor();
      var payload := request.GetPayload();
      var size := match payload case Ok(v) => |v| case Err(_) => 0;
      room := BlockSize(szx) - size;
    }

    /** `coapClientWriteBody`. */
    method WriteBody(data: seq<byte>, last: bool) returns (e: Error, written: nat)
      requires Valid() && |taken| + |data| < 0x1_0000_0000
      modifies this`sent, this`taken, this`disturbed, request`length, request.buffer
      ensures written <= |data| && taken == old(taken) + data[..written]
      ensures e == NoError ==> written == |data| && taken == old(taken) + data
      ensures e == NoError && !last ==> Valid()
      ensures e == NoError && last ==> Done()
      ensures e == NoError ==> disturbed == old(disturbed)
      ensures !disturbed ==> !old(disturbed) && (e == NoError || e == BufferOverflow)
      ensures e == NoError || e == BufferOverflow || (sent != [] && e == Outcome(sent[|sent| - 1]))
      ensures old(HasRoom()) ==> e != BufferOverflow && (e == NoError && !last ==> HasRoom())
    {
      hide Valid, Ready, Done, HasRoom, DecodeMsg, Outcome;
      e, written := NoError, 0;
      ghost var before := taken;
      while written < |data| || last
        invariant written <= |data| && taken == before + data[..written] && Valid() && e == NoError
        invariant disturbed == old(disturbed) && (old(HasRoom()) ==> HasRoom())
        decreases |data| - written, Held()
      {
        var n, done;
        ghost var was := taken;
        e, n, done := FillOrSend(data[written..], last);
        if e != NoError {
          return;
        }
        PrefixGrows(data, written, n);
        assert was + data[written..][..n] == before + (data[..written] + data[written..written + n]);
        written := written + n;
        if done {
          break;
        }
      }
      assert data[..|data|] == data;
    }

    /** The size of the block under construction. */
    ghost function Held(): (n: nat)
      reads this, request, request.buffer
    {
      if Ready() then |request.View().value.Payload()| else 0
    }

    /** One pass of the loop: fill the current block with some of `rest`, or send it. */
    method FillOrSend(rest: seq<byte>, last: bool) returns (e: Error, n: nat, done: bool)
      requires Valid() && |taken| + |rest| < 0x1_0000_0000 && (rest != [] || last)
      modifies this`sent, this`taken, this`disturbed, request`length, request.buffer
      ensures n <= |rest| && taken == old(taken) + rest[..n] && (e != NoError ==> n == 0)
      ensures e == NoError && !done ==> Valid() && (n > 0 || Held() < old(Held()))
      ensures e == NoError && done ==> last && n == |rest| && Done()
      ensures e == NoError ==> disturbed == old(disturbed)
      ensures !disturbed ==> !old(disturbed) && (e == NoError || e == BufferOverflow)
      ensures e == NoError || e == BufferOverflow || (sent != [] && e == Outcome(sent[|sent| - 1]))
      ensures old(HasRoom()) ==> e != BufferOverflow && (e == NoError && !done ==> HasRoom())
    {
      hide DecodeMsg, Open, Cursor, BlockSize, Values, Done, HasRoom, Kept, Alike, Outcome, IsTaken, Block2;
      var room := Room();
      n, done := 0, false;
      if rest != [] && room > 0 {
        var k := if |rest| <= room then |rest| else room;
        e := Fill(rest[..k]);
        if e == NoError {
          n := k;
        } else {
          assert taken + rest[..0] == taken;
        }
      } else {
        var final := rest == [] && last;
        e := SendBlock(final);
        done := e == NoError && final;
        assert taken + rest[..0] == taken;
      }
    }

    /** Any chunking of a body over calls, the last of which is marked so. */
    method WriteAll(chunks: seq<seq<byte>>) returns (e: Error)
      requires Valid() && taken == [] && sent == [] && chunks != [] && |Concat(chunks)| < 0x1_0000_0000
      modifies this`sent, this`taken, this`disturbed, request`length, request.buffer
      ensures e == NoError ==> Done() && taken == Concat(chunks) && disturbed == old(disturbed)
      ensures !disturbed ==> e == NoError || e == BufferOverflow
      ensures e == NoError || e == BufferOverflow || (sent != [] && e == Outcome(sent[|sent| - 1]))
      ensures old(HasRoom()) ==> e != BufferOverflow
    {
      hide Valid, Done, HasRoom, Concat, DecodeMsg, Outcome;
      e := NoError;
      assert chunks[..0] == [];
      ConcatNone();
      var i: nat := 0;
      while i < |chunks|
        invariant i <= |chunks| && e == NoError && taken == Concat(chunks[..i])
        invariant if i < |chunks| then Valid() else Done()
        invariant disturbed == old(disturbed) && (old(HasRoom()) && i < |chunks| ==> HasRoom())
      {
        ConcatSnoc(chunks, i);
        ConcatBound(chunks, i + 1);
        var written;
        e, written := WriteBody(chunks[i], i + 1 == |chunks|);
        if e != NoError {
          return;
        }
        i := i + 1;
      }
      assert chunks[..i] == chunks;
    }

    /** Appends to the block under construction. */
    method Fill(data: seq<byte>) returns (e: Error)
      requires Valid() && data != [] && |taken| + |data| < 0x1_0000_0000
      requires Cursor(request.View().value, txBlockSzx).1 < COAP_BLOCK_SIZE_RESERVED
      requires |request.View().value.Payload()| + |data| <= BlockSize(Cursor(request.View().value, txBlockSzx).1)
      modifies this`taken, request`length, request.buffer
      ensures taken == old(taken) + if e == NoError then data else []
      ensures e == NoError ==> Valid()
      ensures var marker := if old(request.View()).value.tail == [] then 1 else 0;
              e == if old(request.length) + |data| + marker > COAP_MAX_MSG_SIZE then BufferOverflow else NoError
      ensures old(HasRoom()) ==> e == NoError && HasRoom()
    {
      hide DecodeMsg, Open, Cursor, BlockSize, Block2, Kept, Alike, IsAmple;
      ghost var m := request.View().value;
      OpenFacts(m, txBlockSzx, sent, taken);
      RoomToFill(request.Bytes(), BlockSize(txBlockSzx), |data|);
      e := request.WritePayload(data);
      if e == NoError {
        SameOptions(origin, m, request.View().value, txBlockSzx);
        OpenGrows(m, request.View().value, txBlockSzx, sent, taken, data);
        taken := taken + data;
      }
    }
  }

  lemma OpenStart(m: Msg, tx: nat)
    requires tx < COAP_BLOCK_SIZE_RESERVED && Values(m.options, COAP_OPT_BLOCK1) == [] && m.Payload() == []
    ensures Open(m, tx, [], []) && Kept(m, m)
  {
  }

  lemma AmpleStart(s: seq<byte>, size: nat)
    requires DecodeMsg(s).Some?
    ensures var m := DecodeMsg(s).value;
            |s| - |m.tail| + 15 + size <= COAP_MAX_MSG_SIZE ==> IsAmple(Loaded(m, size))
  {
    hide DecodeMsg, EncodeList, IsAmple;
    EncodeOfDecodeMsg(s);
    var m := DecodeMsg(s).value;
    if |s| - |m.tail| + 15 + size <= COAP_MAX_MSG_SIZE {
      AmpleSize(Loaded(m, size));
    }
  }

  /** Room for a value of a block option, and for any other after it. */
  lemma RoomToSet(s: seq<byte>, size: nat, num: uint16, w: uint32)
    requires DecodeMsg(s).Some? && (num == COAP_OPT_BLOCK1 || num == COAP_OPT_BLOCK2)
    ensures var m := DecodeMsg(s).value;
            IsAmple(Loaded(m, size)) ==>
              && (|m.tail| <= 1 + size ==> SizeOnSet(m, num, 0, UintBytes(w)) <= COAP_MAX_MSG_SIZE)
              && IsAmple(Loaded(WithOption(m, num, w), size))
  {
    hide DecodeMsg, EncodeMsg, SetOpt, UintBytes, SizeOnSet, IsAmple, ParseHeader, Ascending;
    EncodeOfDecodeMsg(s);
    var m := DecodeMsg(s).value;
    if IsAmple(Loaded(m, size)) {
      if |m.tail| <= 1 + size {
        AmpleFor(m, size, num, w);
      }
      StaysAmple(Loaded(m, size), num, w);
    }
  }

  /** Room for data that completes a block of `size` bytes. */
  lemma RoomToFill(s: seq<byte>, size: nat, n: nat)
    requires DecodeMsg(s).Some?
    ensures var m := DecodeMsg(s).value;
            IsAmple(Loaded(m, size)) && |m.Payload()| + n <= size ==>
              |s| + n + (if m.tail == [] then 1 else 0) <= COAP_MAX_MSG_SIZE
  {
    hide DecodeMsg, EncodeMsg, IsAmple, SizeOnSet;
    EncodeOfDecodeMsg(s);
    var m := DecodeMsg(s).value;
    if IsAmple(Loaded(m, size)) && |m.Payload()| + n <= size {
      AmpleFor(m, size, COAP_OPT_BLOCK1, 0);
    }
  }

  /** Only the payload differs. */
  ghost predicate Same(m: Msg, n: Msg)
  {
    n.header == m.header && n.options == m.options
  }

  lemma SameOptions(origin: Msg, m: Msg, n: Msg, tx: nat)
    requires Same(m, n)
    ensures Block1(n) == Block1(m) && Block2(n) == Block2(m) && Single(n) == Single(m) && Cursor(n, tx) == Cursor(m, tx)
    ensures Kept(origin, m) ==> Kept(origin, n)
  {
    hide Values, UintValue, Pos, Szx;
  }

  lemma KeptSame(m: Msg)
    ensures Kept(m, m)
  {
  }

  lemma KeptOn(m: Msg, n: Msg, k: Msg)
    requires Kept(m, n) && Kept(n, k)
    ensures Kept(m, k)
  {
    hide Values;
  }

  lemma PreferredValue(rx: nat)
    requires rx <= 7
    ensures Block(0, 0, 0, rx) == rx
  {
    BlockFields(0, 0, 0, rx);
  }

  /** A request for a block in the middle. */
  lemma AlikeSnoc(origin: Msg, m: Msg, k: Msg, sent: seq<Sent>, x: Sent)
    requires Alike(origin, sent) && Kept(origin, m) && Block2(m) == Block2(origin)
    requires Kept(m, x.request) && Block2(x.request) == Block2(m)
    requires Kept(x.request, k) && Block2(k) == Block2(x.request)
    ensures Alike(origin, sent + [x]) && Kept(origin, k) && Block2(k) == Block2(origin)
  {
    hide Kept, Block2;
    KeptOn(origin, m, x.request);
    KeptOn(origin, x.request, k);
  }

  /** The last request. */
  lemma AnnouncedSnoc(origin: Msg, rx: nat, m: Msg, k: Msg, sent: seq<Sent>, x: Sent)
    requires rx <= 7 && Alike(origin, sent) && Kept(origin, m) && Block2(m) == Block2(origin)
    requires Kept(m, x.request) && Block2(x.request) == Preferred(m, rx)
    requires Kept(x.request, k) && Block2(k) == Block2(x.request)
    ensures Announced(origin, rx, sent + [x]) && Kept(origin, k) && Block2(k) == Preferred(origin, rx)
  {
    hide Kept, Block2;
    KeptOn(origin, m, x.request);
    KeptOn(origin, x.request, k);
    assert (sent + [x])[..|sent|] == sent;
  }

  lemma CursorOf(m: Msg, tx: nat, value: uint32)
    requires Block1(m) == Some(value)
    ensures Cursor(m, tx) == (Pos(value), Szx(value))
  {
    hide Block1, Pos, Szx;
  }

  /** A transfer takes in data that fits into the current block. */
  lemma OpenGrows(m: Msg, n: Msg, tx: nat, sent: seq<Sent>, taken: seq<byte>, data: seq<byte>)
    requires Open(m, tx, sent, taken) && n.options == m.options && n.Payload() == m.Payload() + data
    requires Cursor(m, tx).1 < COAP_BLOCK_SIZE_RESERVED && |m.Payload()| + |data| <= BlockSize(Cursor(m, tx).1)
    ensures Open(n, tx, sent, taken + data)
  {
    hide Values, UintValue, Pos, BlockSize, Aligned, Carried, Shrunk, Placed, Middle;
    assert Carried(sent) + m.Payload() + data == Carried(sent) + (m.Payload() + data);
  }

  lemma PrefixGrows(data: seq<byte>, k: nat, n: nat)
    requires k + n <= |data|
    ensures data[..k] + data[k..k + n] == data[..k + n] && data[k..][..n] == data[k..k + n]
  {
  }

  /** 32-bit addition. */
  function Wrap(v: nat): (r: uint32)
  {
    v % 0x1_0000_0000
  }

  lemma MiddleIs(x: Sent)
    requires Block1(x.request).Some? && More(Block1(x.request).value) == 1
    requires Szx(Block1(x.request).value) < COAP_BLOCK_SIZE_RESERVED
    requires |x.request.Payload()| == BlockSize(Szx(Block1(x.request).value))
    ensures Middle(x)
  {
  }

  lemma OpenFacts(m: Msg, tx: nat, sent: seq<Sent>, taken: seq<byte>)
    requires Open(m, tx, sent, taken)
    ensures var (pos, szx) := Cursor(m, tx);
            && szx < COAP_BLOCK_SIZE_RESERVED && Aligned(pos, szx) && Single(m)
            && (pos == 0 ==> Block1(m).None?) && |m.Payload()| <= BlockSize(szx)
            && szx <= tx && (tx <= 7 ==> BlockSize(szx) <= BlockSize(tx))
  {
    hide Carried, Shrunk, Placed, Middle, Pos, Szx, Values, UintValue, Aligned, IsTaken;
    if tx <= 7 { SizeOrder(Cursor(m, tx).1, tx); }
  }

  /** The position after a full block does not overflow. */
  lemma NextPosition(m: Msg, tx: nat, sent: seq<Sent>, taken: seq<byte>, szx: nat)
    requires Open(m, tx, sent, taken) && |taken| < 0x1_0000_0000
    requires szx <= Cursor(m, tx).1 && |m.Payload()| == BlockSize(Cursor(m, tx).1)
    ensures var pos := Cursor(m, tx).0;
            Wrap(pos + BlockSize(szx)) == pos + BlockSize(szx) && Aligned(pos + BlockSize(szx), szx)
  {
    hide Values, UintValue, Pos, Carried, Shrunk, Aligned, Cursor;
    var (pos, s) := Cursor(m, tx);
    SmallerDivides(pos, szx, s);
    SmallerDivides(pos, szx, szx);
    assert |taken| == |Carried(sent)| + BlockSize(s);
  }

  lemma Deleted(s: seq<byte>)
    requires DecodeMsg(s).Some? && Single(DecodeMsg(s).value)
    ensures var m := DecodeMsg(s).value;
            var n := m.(options := DeleteOpt(m.options, COAP_OPT_BLOCK1, 0));
            Values(n.options, COAP_OPT_BLOCK1) == [] && Single(n) && Block2(n) == Block2(m) && Kept(m, n)
  {
    hide DecodeMsg, Values, DeleteOpt;
    EncodeOfDecodeMsg(s);
    DeleteMeaning(DecodeMsg(s).value.options, COAP_OPT_BLOCK1, 0);
  }

  /** The acknowledged value with the number and the size of the next block. */
  function NextValue(ack: uint32, pos: uint32, szx: nat): (v: uint32)
    requires szx <= 7
  {
    SetSzx(SetNum(ack, pos / BlockSize(szx)), szx)
  }

  /** The M bit of the response stays in the stored value; it does not disturb the position. */
  lemma KeepMore(ack: uint32, pos: uint32, szx: nat)
    requires szx <= 7 && Aligned(pos, szx)
    ensures var v := NextValue(ack, pos, szx); Pos(v) == pos && Szx(v) == szx
  {
    hide BlockSize, SetMore, Pos, Szx, More;
    Scale(pos, szx);
    var num, m := pos / BlockSize(szx), ack % 16 / 8;
    SetNumIs(ack, num);
    Digits(num * 2 + m, ack % 8);
    assert SetSzx(SetNum(ack, num), szx) == num * 16 + m * 8 + szx;
    FieldsOf(num, m, szx);
  }

  lemma {:induction false} ConcatBound(chunks: seq<seq<byte>>, k: nat)
    requires k <= |chunks|
    ensures |Concat(chunks[..k])| <= |Concat(chunks)|
    decreases |chunks|
  {
    if k < |chunks| {
      var init := chunks[..|chunks| - 1];
      assert init[..k] == chunks[..k];
      ConcatBound(init, k);
    } else {
      assert chunks[..k] == chunks;
    }
  }
}
