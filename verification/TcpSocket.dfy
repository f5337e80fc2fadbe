/**
 * The TCP handlers as they update a socket in place, with early returns; each is proved to be the
 * step of the state machine it stands for.
 */
module TcpSocket {
  import opened Bytes
  import opened TcpFsm
  import opened TcpRuns

  class Socket {
    var state: State
    var owned: bool
    var used: bool
    var resetFlag: bool
    var closedFlag: bool
    var iss: uint32
    var sndUna: uint32
    var sndNxt: uint32
    var irs: uint32
    var rcvNxt: uint32
    var rcvWnd: uint16
    /** The branch that the user task is in, while it waits inside `tcpShutdown`. */
    var call: Call
    ghost var out: seq<Reply>
    ghost var seen: seq<Segment>
    ghost var fins: nat
    ghost var finEnd: uint32
    ghost var ourFin: Option<uint32>
    ghost var mark: nat

    /** The socket as a value. */
    ghost function Model(): (s: Tcb)
      reads this
    {
      Tcb(state, owned, used, resetFlag, closedFlag, iss, sndUna, sndNxt, irs, rcvNxt, rcvWnd,
          call, out, seen, fins, finEnd, ourFin, mark)
    }

    /** What each state says about the FINs of both sides. */
    ghost predicate Valid()
      reads this
    {
      Inv(Model(), false)
    }

    /** The same, with at most one FIN of the peer consumed. */
    ghost predicate ValidOnce()
      reads this
    {
      Inv(Model(), true)
    }

    /** `tcpChangeState`. */
    method ChangeTo(newState: State)
      modifies this
      ensures Model() == ChangeState(old(Model()), newState)
    {
      if newState == Closed {
        if state == LastAck || state == TimeWait {
          closedFlag := true;
        } else {
          resetFlag := true;
        }
      }
      state := newState;
    }

    /** `tcpSendSegment` for a control segment; only the record of what was sent changes. */
    method SendSegment(kind: Kind, seqNum: uint32, ackNum: uint32)
      modifies this
      ensures Model() == SendControl(old(Model()), kind, seqNum, ackNum)
    {
      out := out + [Reply(kind, seqNum, ackNum)];
    }

    /** `tcpCheckSequenceNumber`; `error` tells that the segment is to be dropped. */
    method CheckSequenceNumber(g: Segment) returns (error: bool)
      modifies this
      ensures CheckSequence(old(Model()), g) == if error then Stop(Model()) else Go(Model())
    {
      hide CmpSeq;
      var acceptable := false;
      if g.length == 0 && rcvWnd == 0 {
        if g.seqNum == rcvNxt {
          acceptable := true;
        }
      } else if g.length == 0 && rcvWnd != 0 {
        if CmpSeq(g.seqNum, rcvNxt) >= 0 && CmpSeq(g.seqNum, Add(rcvNxt, rcvWnd)) < 0 {
          acceptable := true;
        }
      } else if g.length != 0 && rcvWnd != 0 {
        if CmpSeq(g.seqNum, rcvNxt) >= 0 && CmpSeq(g.seqNum, Add(rcvNxt, rcvWnd)) < 0 {
          acceptable := true;
        } else if CmpSeq(Add(g.seqNum, g.length - 1), rcvNxt) >= 0 &&
                  CmpSeq(Add(g.seqNum, g.length - 1), Add(rcvNxt, rcvWnd)) < 0 {
          acceptable := true;
        }
      }
      if !acceptable {
        if !g.rst {
          SendSegment(SendAck, sndNxt, rcvNxt);
        }
        return true;
      }
      return false;
    }

    /** `tcpCheckSyn`. */
    method CheckSynBit(g: Segment) returns (error: bool)
      modifies this
      ensures CheckSyn(old(Model()), g) == if error then Stop(Model()) else Go(Model())
    {
      if g.syn {
        if g.ack {
          SendSegment(SendRst, g.ackNum, 0);
        } else {
          SendSegment(SendRstAck, 0, Add(g.seqNum, g.length + 1));
        }
        return true;
      }
      return false;
    }

    /** `tcpCheckAck`. */
    method CheckAckField(g: Segment) returns (error: bool)
      modifies this
      ensures CheckAck(old(Model()), g) == if error then Stop(Model()) else Go(Model())
    {
      hide CmpSeq;
      if !g.ack {
        return true;
      }
      if CmpSeq(g.ackNum, sndUna) < 0 {
        return false;
      } else if CmpSeq(g.ackNum, sndNxt) > 0 {
        SendSegment(SendAck, sndNxt, rcvNxt);
        return true;
      }
      if CmpSeq(g.ackNum, sndUna) > 0 {
        sndUna := g.ackNum;
      }
      return false;
    }

    /** `tcpProcessSegmentData`. */
    method ProcessSegmentData(g: Segment, m: Merged)
      modifies this
      ensures Model() == ProcessData(old(Model()), g, m)
    {
      hide CmpSeq, Ahead, Add;
      var leftEdge := g.seqNum;
      var rightEdge := Add(g.seqNum, g.length);
      if CmpSeq(leftEdge, rcvNxt) < 0 {
        leftEdge := rcvNxt;
      }
      if CmpSeq(rightEdge, Add(rcvNxt, rcvWnd)) > 0 {
        rightEdge := Add(rcvNxt, rcvWnd);
      }
      match m {
        case Unqueued =>
        case Merged(left, right) => leftEdge, rightEdge := left, right;
      }
      if CmpSeq(leftEdge, rcvNxt) > 0 {
        SendSegment(SendAck, sndNxt, rcvNxt);
      } else {
        var length := Ahead(rightEdge, leftEdge);
        rcvNxt := Add(rcvNxt, length);
        rcvWnd := (rcvWnd - length) % 0x1_0000;
        SendSegment(SendAck, sndNxt, rcvNxt);
      }
    }

    /** `tcpNagleAlgo`. */
    method Nagle(n: nat)
      modifies this
      ensures Model() == Push(old(Model()), n)
    {
      hide Ahead, Add;
      if Ahead(sndNxt, sndUna) + n <= TCP_MAX_TX_BUFFER_SIZE {
        sndNxt := Add(sndNxt, n);
      }
    }

    /** Advances RCV.NXT over the FIN and acknowledges it. */
    method AdvanceOverFin()
      modifies this
      ensures Model() == TakeFin(old(Model()))
    {
      hide Add;
      rcvNxt := Add(rcvNxt, 1);
      fins := fins + 1;
      finEnd := rcvNxt;
      SendSegment(SendAck, sndNxt, rcvNxt);
    }

    /** The opening of a handler: sequence number, RST and SYN. */
    method ScreenSegment(g: Segment) returns (error: bool)
      modifies this
      ensures Screen(old(Model()), g) == if error then Stop(Model()) else Go(Model())
    {
      hide CheckSequence, CheckSyn, ChangeState;
      var failed := CheckSequenceNumber(g);
      if failed {
        return true;
      }
      if g.rst {
        ChangeTo(Closed);
        return true;
      }
      error := CheckSynBit(g);
    }

    /** The opening of a handler, with the ACK field. */
    method ScreenSegmentAck(g: Segment) returns (error: bool)
      modifies this
      ensures ScreenAck(old(Model()), g) == if error then Stop(Model()) else Go(Model())
    {
      hide Screen, CheckAck;
      var failed := ScreenSegment(g);
      if failed {
        return true;
      }
      error := CheckAckField(g);
    }

    /** `tcpStateSynSent`. */
    method StateSynSent(g: Segment)
      modifies this
      ensures Model() == OnSynSent(old(Model()), g)
    {
      hide Synchronize;
      if g.ack {
        if g.ackNum != sndNxt {
          if !g.rst {
            SendSegment(SendRst, g.ackNum, 0);
          }
          return;
        }
      }
      if g.rst {
        if g.ack {
          ChangeTo(Closed);
        }
        return;
      }
      if g.syn {
        TakeSyn(g);
      }
    }

    /** The SYN branch of `tcpStateSynSent`. */
    method TakeSyn(g: Segment)
      modifies this
      ensures Model() == Synchronize(old(Model()), g)
    {
      hide CmpSeq, Add, ChangeState;
      irs := g.seqNum;
      rcvNxt := Add(g.seqNum, 1);
      if g.ack {
        sndUna := g.ackNum;
      }
      if CmpSeq(sndUna, iss) > 0 {
        SendSegment(SendAck, sndNxt, rcvNxt);
        ChangeTo(Established);
      } else {
        SendSegment(SendSynAck, iss, rcvNxt);
        ChangeTo(SynReceived);
      }
    }

    /** `tcpStateSynReceived`. */
    method StateSynReceived(g: Segment, m: Merged, n: nat)
      modifies this
      ensures Model() == OnSynReceived(old(Model()), g, m, n)
    {
      hide Screen, OnEstablished;
      var failed := ScreenSegment(g);
      if failed {
        return;
      }
      if !g.ack {
        return;
      }
      if g.ackNum != sndNxt {
        SendSegment(SendRst, g.ackNum, 0);
        return;
      }
      ChangeTo(Established);
      StateEstablished(g, m, n);
    }

    /** The text of a segment. */
    method ReceiveText(g: Segment, m: Merged)
      modifies this
      ensures Model() == TakeText(old(Model()), g, m)
    {
      hide ProcessData;
      if g.length > 0 {
        ProcessSegmentData(g, m);
      }
    }

    /** `tcpStateEstablished`. */
    method StateEstablished(g: Segment, m: Merged, n: nat)
      modifies this
      ensures Model() == OnEstablished(old(Model()), g, m, n)
    {
      hide ScreenAck, TakeText, TakeFin, ChangeState, Push;
      var failed := ScreenSegmentAck(g);
      if failed {
        return;
      }
      ReceiveText(g, m);
      if g.fin {
        if rcvNxt == Add(g.seqNum, g.length) {
          AdvanceOverFin();
          ChangeTo(CloseWait);
        }
      }
      Nagle(n);
    }

    /** `tcpStateCloseWait`. */
    method StateCloseWait(g: Segment, n: nat)
      modifies this
      ensures Model() == OnCloseWait(old(Model()), g, n)
    {
      hide ScreenAck, Push;
      var failed := ScreenSegmentAck(g);
      if failed {
        return;
      }
      Nagle(n);
    }

    /** `tcpStateLastAck`. */
    method StateLastAck(g: Segment)
      modifies this
      ensures Model() == OnLastAck(old(Model()), g)
    {
      hide Screen, ChangeState;
      var failed := ScreenSegment(g);
      if failed {
        return;
      }
      if !g.ack {
        return;
      }
      if g.ackNum == sndNxt {
        ChangeTo(Closed);
      }
    }

    /** `tcpStateFinWait1`. */
    method StateFinWait1(g: Segment, m: Merged)
      modifies this
      ensures Model() == OnFinWait1(old(Model()), g, m)
    {
      hide ScreenAck, TakeText, TakeFin, ChangeState;
      var failed := ScreenSegmentAck(g);
      if failed {
        return;
      }
      if g.ackNum == sndNxt {
        ChangeTo(FinWait2);
      }
      ReceiveText(g, m);
      if g.fin {
        if rcvNxt == Add(g.seqNum, g.length) {
          ghost var before := Model();
          AdvanceOverFin();
          FinKeepsNext(before);
          if g.ackNum == sndNxt {
            ChangeTo(TimeWait);
          } else {
            ChangeTo(Closing);
          }
        }
      }
    }

    /** `tcpStateFinWait2`. */
    method StateFinWait2(g: Segment, m: Merged)
      modifies this
      ensures Model() == OnFinWait2(old(Model()), g, m)
    {
      hide ScreenAck, TakeText, TakeFin, ChangeState;
      var failed := ScreenSegmentAck(g);
      if failed {
        return;
      }
      ReceiveText(g, m);
      if g.fin {
        if rcvNxt == Add(g.seqNum, g.length) {
          AdvanceOverFin();
          ChangeTo(TimeWait);
        }
      }
    }

    /** `tcpStateClosing`. */
    method StateClosing(g: Segment)
      modifies this
      ensures Model() == OnClosing(old(Model()), g)
    {
      hide ScreenAck, ChangeState;
      var failed := ScreenSegmentAck(g);
      if failed {
        return;
      }
      if g.ackNum == sndNxt {
        ChangeTo(TimeWait);
      }
    }

    /** `tcpStateTimeWait`. */
    method StateTimeWait(g: Segment)
      modifies this
      ensures Model() == OnTimeWait(old(Model()), g)
    {
      hide CheckSequence, CheckSyn;
      var failed := CheckSequenceNumber(g);
      if failed {
        return;
      }
      if g.rst {
        ChangeTo(Closed);
        if !owned {
          used := false;
        }
        return;
      }
      failed := CheckSynBit(g);
      if failed {
        return;
      }
      if !g.ack {
        return;
      }
      if g.fin {
        SendSegment(SendAck, sndNxt, rcvNxt);
      }
    }

    /**
     * The dispatch of `tcpProcessSegment`: one `Arrive` step. The invariant is kept, and after the
     * peer's FIN no segment moves RCV.NXT.
     */
    method ProcessSegment(g: Segment, m: Merged, n: nat)
      modifies this
      ensures Model() == Next(old(Model()), Arrive(g, m, n))
      ensures Moves(old(Model()), Model())
      ensures old(Valid()) ==> Valid()
      ensures old(ValidOnce()) ==> ValidOnce()
      ensures old(ValidOnce()) && old(fins) == 1 ==> fins == 1 && rcvNxt == old(rcvNxt)
    {
      hide Next, Inv, Moves;
      ArriveKeeps(Model(), g, m, n);
      Dispatch(g, m, n);
    }

    method Dispatch(g: Segment, m: Merged, n: nat)
      modifies this
      ensures Model() == Next(old(Model()), Arrive(g, m, n))
    {
      hide OnSynSent, OnSynReceived, OnEstablished, OnCloseWait, OnLastAck, OnFinWait1, OnFinWait2, OnClosing,
           OnTimeWait;
      seen := seen + [g];
      match state {
        case Closed =>
        case SynSent => StateSynSent(g);
        case SynReceived => StateSynReceived(g, m, n);
        case Established => StateEstablished(g, m, n);
        case CloseWait => StateCloseWait(g, n);
        case LastAck => StateLastAck(g);
        case FinWait1 => StateFinWait1(g, m);
        case FinWait2 => StateFinWait2(g, m);
        case Closing => StateClosing(g);
        case TimeWait => StateTimeWait(g);
      }
    }

    /** `tcpConnect` on a closed socket. */
    method ConnectTo(newIss: uint32, wnd: uint16)
      modifies this
      ensures Model() == Connect(old(Model()), newIss, wnd)
    {
      Initialize(newIss, wnd);
      SendSegment(SendSyn, iss, 0);
      ChangeTo(SynSent);
    }

    /** The initialization of the control block in `tcpConnect` and `tcpAccept`. */
    method Initialize(newIss: uint32, wnd: uint16)
      modifies this
      ensures Model() == Open(old(Model()), newIss, wnd)
    {
      hide Add;
      ForgetConnection();
      owned := true;
      used := true;
      SetSequence(newIss);
      rcvWnd := wnd;
    }

    method SetSequence(newIss: uint32)
      modifies this
      ensures Model() == old(Model()).(iss := newIss, sndUna := newIss, sndNxt := Add(newIss, 1))
    {
      hide Add;
      iss := newIss;
      sndUna := iss;
      sndNxt := Add(iss, 1);
    }

    ghost method ForgetConnection()
      modifies this
      ensures Model() == old(Model()).(seen := [], fins := 0, ourFin := None, mark := 0)
    {
      seen := [];
      fins := 0;
      ourFin := None;
      mark := 0;
    }

    /** The new socket of `tcpAccept`. */
    method AcceptFrom(newIss: uint32, newIrs: uint32, wnd: uint16)
      modifies this
      ensures Model() == Accept(old(Model()), newIss, newIrs, wnd)
    {
      hide Add;
      Initialize(newIss, wnd);
      irs := newIrs;
      rcvNxt := Add(irs, 1);
      SendSegment(SendSynAck, iss, rcvNxt);
      ChangeTo(SynReceived);
    }

    /** `tcpShutdown` up to the wait for the flush. */
    method BeginShutdown()
      modifies this
      ensures Model() == ShutdownBegin(old(Model()))
    {
      match state {
        case SynReceived => call := ActiveClose;
        case Established => call := ActiveClose;
        case CloseWait => call := PassiveClose;
        case _ =>
      }
    }

    /** `tcpShutdown` after the wait for the flush. */
    method FinishShutdown()
      requires call != NoCall
      modifies this
      ensures Model() == ShutdownFin(old(Model()))
    {
      hide Add, ChangeState;
      var active := call == ActiveClose;
      SendSegment(SendFinAck, sndNxt, rcvNxt);
      ourFin, mark := Some(sndNxt), |seen|;
      sndNxt := Add(sndNxt, 1);
      call := NoCall;
      ChangeTo(if active then FinWait1 else LastAck);
    }

    /** `tcpAbort`. */
    method AbortNow()
      modifies this
      ensures Model() == Abort(old(Model()))
    {
      hide SendsReset;
      if state == TimeWait {
        owned := false;
        return;
      }
      if SendsReset(state) {
        SendSegment(SendRst, sndNxt, 0);
      }
      ChangeTo(Closed);
      used := false;
    }

    /** A timer of `tcpTick` gives up. */
    method GiveUp()
      modifies this
      ensures Model() == Expire(old(Model()))
    {
      if state == Closed {
        return;
      }
      var waiting := state == TimeWait;
      ChangeTo(Closed);
      if waiting && !owned {
        used := false;
      }
    }

    /** One segment, call or timer. */
    method Step(e: Event)
      modifies this
      ensures Model() == Next(old(Model()), e)
    {
      hide Handle, Connect, Accept, ShutdownBegin, ShutdownFin, Abort, Expire, Push, Inv, Moves;
      match e {
        case ConnectCall(newIss, wnd) =>
          if state == Closed && call == NoCall {
            ConnectTo(newIss, wnd);
          }
        case AcceptCall(newIss, newIrs, wnd) =>
          if state == Closed && call == NoCall {
            AcceptFrom(newIss, newIrs, wnd);
          }
        case Arrive(g, m, n) => ProcessSegment(g, m, n);
        case SendData(n) =>
          if state == Established || state == CloseWait {
            Nagle(n);
          }
        case ReadData(wnd) => rcvWnd := wnd;
        case ShutdownCall =>
          if call == NoCall {
            BeginShutdown();
          }
        case ShutdownFlushed =>
          if call != NoCall {
            FinishShutdown();
          }
        case ShutdownFails => call := NoCall;
        case AbortCall => AbortNow();
        case TimerGivesUp => GiveUp();
      }
    }

    /**
     * Any sequence of segments, calls and timers on a new socket: TIME-WAIT means that a FIN of the
     * peer was consumed and that ours was acknowledged, and no connection consumes a third FIN.
     */
    method Drive(es: seq<Event>)
      requires IsNew(Model())
      modifies this
      ensures Valid() && Model() == Run(old(Model()), es) && fins <= 2
      ensures state == TimeWait ==>
                && fins >= 1 && rcvNxt == finEnd && ourFin.Some? && sndUna == sndNxt == Add(ourFin.value, 1)
                && exists k: nat :: mark <= k < |seen| && seen[k].ack && seen[k].ackNum == Add(ourFin.value, 1)
    {
      hide Next, Inv, Undisturbed, Add;
      ghost var start := Model();
      Replay(es);
      NewInv(start, false);
      RunInv(start, es, false);
      FinLimits(start, es);
      if state == TimeWait {
        TimeWaitMeaning(start, es);
      }
    }

    /** Without a FIN of `tcpShutdown` at an unsafe moment, a connection consumes one FIN at most. */
    method DriveUndisturbed(es: seq<Event>)
      requires IsNew(Model()) && Undisturbed(Model(), es)
      modifies this
      ensures ValidOnce() && Model() == Run(old(Model()), es)
      ensures fins <= 1 && (fins == 1 ==> rcvNxt == finEnd)
    {
      hide Next, Inv, Undisturbed;
      ghost var start := Model();
      Replay(es);
      NewInv(start, true);
      RunInv(start, es, true);
      FinsBound(Run(start, es));
    }

    /** After the peer's FIN, whatever happens in the same connection leaves RCV.NXT alone. */
    method DriveOn(es: seq<Event>)
      requires ValidOnce() && fins == 1 && Undisturbed(Model(), es)
      requires forall i | 0 <= i < |es| :: SameConnection(es[i])
      modifies this
      ensures ValidOnce() && fins == 1 && rcvNxt == old(rcvNxt)
    {
      hide Next, Inv, Undisturbed;
      ghost var start := Model();
      Replay(es);
      RunInv(start, es, true);
      RunFrozen(start, es);
    }

    method Replay(es: seq<Event>)
      modifies this
      ensures Model() == Run(old(Model()), es)
    {
      hide Next;
      ghost var start := Model();
      var i: nat := 0;
      assert es[..0] == [];
      while i < |es|
        invariant i <= |es| && Model() == Run(start, es[..i])
      {
        assert es[..i + 1][..i] == es[..i];
        Step(es[i]);
        i := i + 1;
      }
      assert es[..i] == es;
    }
  }

  /** What an arrival keeps. */
  lemma ArriveKeeps(s: Tcb, g: Segment, m: Merged, n: nat)
    ensures var t := Next(s, Arrive(g, m, n));
            && Moves(s, t)
            && (Inv(s, false) ==> Inv(t, false))
            && (Inv(s, true) ==> Inv(t, true))
            && (Inv(s, true) && s.fins == 1 ==> t.fins == 1 && t.rcvNxt == s.rcvNxt)
  {
    hide Inv, Handle;
    var s1 := s.(seen := s.seen + [g]);
    HandleMoves(s1, g, m, n);
    if Inv(s, false) {
      NextInv(s, Arrive(g, m, n), false);
    }
    if Inv(s, true) {
      NextInv(s, Arrive(g, m, n), true);
      if s.fins == 1 {
        NextFrozen(s, Arrive(g, m, n));
      }
    }
  }
}
