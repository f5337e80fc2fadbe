/** What holds in every run of the TCP state machine. */
module TcpRuns {
  import opened Bytes
  import opened TcpFsm

  // ---------------------------------------------------------------- the invariant

  /** Our FIN is the last thing that was sent. */
  ghost predicate FinSent(s: Tcb)
  {
    s.ourFin.Some? && s.sndNxt == Add(s.ourFin.value, 1)
  }

  /** A segment that arrived after our FIN was sent acknowledges it. */
  ghost predicate FinAcked(s: Tcb)
  {
    s.ourFin.Some? && exists k: nat :: AcksFin(s, k)
  }

  ghost predicate AcksFin(s: Tcb, k: nat)
    requires s.ourFin.Some?
  {
    s.mark <= k < |s.seen| && s.seen[k].ack && s.seen[k].ackNum == Add(s.ourFin.value, 1)
  }

  /** No more is outstanding than the send buffer holds, and a FIN. */
  ghost predicate Bounded(s: Tcb)
  {
    Outstanding(s) <= TCP_MAX_TX_BUFFER_SIZE + if s.ourFin.Some? then 1 else 0
  }

  /** The peer's FIN was consumed last: nothing moved RCV.NXT since. */
  ghost predicate FinTaken(s: Tcb)
  {
    s.fins >= 1 && s.rcvNxt == s.finEnd
  }

  /** What each state says about the two FINs. */
  ghost predicate StateInv(s: Tcb)
  {
    match s.state
    case Closed => true
    case SynSent => s.fins == 0 && s.ourFin.None? && s.sndUna == s.iss && s.sndNxt == Add(s.iss, 1)
    case SynReceived => s.fins == 0 && s.ourFin.None?
    case Established => s.fins == 0 && s.ourFin.None?
    case CloseWait => s.fins == 1 && FinTaken(s) && s.ourFin.None?
    case LastAck => s.fins == 1 && FinTaken(s) && FinSent(s)
    case FinWait1 => s.fins <= 1 && FinSent(s)
    case FinWait2 => s.fins <= 1 && FinSent(s) && FinAcked(s) && s.sndUna == s.sndNxt
    case Closing => FinTaken(s) && FinSent(s)
    case TimeWait => FinTaken(s) && FinSent(s) && FinAcked(s) && s.sndUna == s.sndNxt
  }

  /** A `tcpShutdown` call in progress waits in few states. */
  ghost predicate CallInv(s: Tcb)
  {
    match s.call
    case NoCall => true
    case ActiveClose =>
      s.fins <= 1 && s.ourFin.None? &&
      (s.state == SynReceived || s.state == Established || s.state == CloseWait || s.state == Closed)
    case PassiveClose =>
      s.fins == 1 && FinTaken(s) && s.ourFin.None? && (s.state == CloseWait || s.state == Closed)
  }

  /** At most one FIN was consumed, and in FIN-WAIT-1 and FIN-WAIT-2 none. */
  ghost predicate OneFin(s: Tcb)
  {
    s.fins <= 1 && (s.fins == 1 ==> s.rcvNxt == s.finEnd) && (s.state == FinWait1 || s.state == FinWait2 ==> s.fins == 0)
  }

  /** What holds in every run, and with `once` what holds in every undisturbed run. */
  ghost predicate Inv(s: Tcb, once: bool)
  {
    s.fins <= 2 && (once ==> OneFin(s)) && s.mark <= |s.seen| &&
    CallInv(s) && StateInv(s) && (s.state != Closed || s.call != NoCall ==> Bounded(s))
  }

  // ---------------------------------------------------------------- the helpers

  /** An acceptable acknowledgment moves SND.UNA forward and never past SND.NXT. */
  lemma AckBetween(una: uint32, nxt: uint32, ack: uint32)
    requires Ahead(nxt, una) < HALF && CmpSeq(ack, una) >= 0 && CmpSeq(ack, nxt) <= 0
    ensures Ahead(nxt, ack) <= Ahead(nxt, una)
  {
  }

  /** What `tcpCheckAck` does when it lets a segment through. */
  lemma CheckAckGoes(s: Tcb, g: Segment)
    requires CheckAck(s, g).Go? && Bounded(s)
    ensures g.ack && CheckAck(s, g).tcb == s.(sndUna := CheckAck(s, g).tcb.sndUna)
    ensures Bounded(CheckAck(s, g).tcb)
    ensures g.ackNum == s.sndNxt ==> CheckAck(s, g).tcb.sndUna == s.sndNxt
  {
    if CmpSeq(g.ackNum, s.sndUna) >= 0 {
      AckBetween(s.sndUna, s.sndNxt, g.ackNum);
    }
  }

  /** A dropped segment changes nothing but flags and the output, or closes the connection. */
  ghost predicate Dropped(s: Tcb, s': Tcb)
  {
    s' == s.(state := s'.state, out := s'.out, owned := s'.owned, used := s'.used,
             resetFlag := s'.resetFlag, closedFlag := s'.closedFlag) &&
    (s'.state == s.state || s'.state == Closed)
  }

  lemma DroppedInv(s: Tcb, s': Tcb, once: bool)
    requires Inv(s, once) && Dropped(s, s')
    ensures Inv(s', once)
  {
    if FinAcked(s) {
      var k: nat :| AcksFin(s, k);
      assert AcksFin(s', k);
    }
  }

  lemma ScreenMeaning(s: Tcb, g: Segment)
    ensures Screen(s, g).Stop? ==> Dropped(s, Screen(s, g).tcb)
    ensures Screen(s, g).Go? ==> Screen(s, g).tcb == s
  {
  }

  lemma ScreenAckMeaning(s: Tcb, g: Segment)
    requires Bounded(s)
    ensures ScreenAck(s, g).Stop? ==> Dropped(s, ScreenAck(s, g).tcb)
    ensures ScreenAck(s, g).Go? ==>
              var s1 := ScreenAck(s, g).tcb;
              g.ack && s1 == s.(sndUna := s1.sndUna) && Bounded(s1) &&
              (g.ackNum == s.sndNxt ==> s1.sndUna == s.sndNxt)
  {
    hide Outstanding, Bounded, CmpSeq;
    ScreenMeaning(s, g);
    if Screen(s, g).Go? && CheckAck(s, g).Go? {
      CheckAckGoes(s, g);
    }
  }

  /** Taking text moves RCV.NXT only. */
  lemma TextMeaning(s: Tcb, g: Segment, m: Merged)
    ensures var s1 := TakeText(s, g, m); s1 == s.(rcvNxt := s1.rcvNxt, rcvWnd := s1.rcvWnd, out := s1.out)
  {
    hide Gain, Add, SendAckNow;
    AckOf(s);
    match Gain(s.rcvNxt, s.rcvWnd, g, m)
    case None =>
    case Some(n) => AckOf(s.(rcvNxt := Add(s.rcvNxt, n), rcvWnd := (s.rcvWnd - n) % 0x1_0000));
  }

  lemma AckOf(s: Tcb)
    ensures SendAckNow(s) == s.(out := s.out + [Reply(SendAck, s.sndNxt, s.rcvNxt)])
  {
  }

  lemma PushMeaning(s: Tcb, n: nat)
    requires Bounded(s) && s.ourFin.None?
    ensures Push(s, n) == s.(sndNxt := Push(s, n).sndNxt) && Bounded(Push(s, n))
  {
  }

  // ---------------------------------------------------------------- one segment

  /** `g` is the segment that has just arrived. */
  ghost predicate Arrived(s: Tcb, g: Segment)
  {
    s.mark < |s.seen| && s.seen[|s.seen| - 1] == g
  }

  /** An acceptable acknowledgment of everything acknowledges our FIN. */
  lemma LastAcksFin(s: Tcb, g: Segment)
    requires Arrived(s, g) && FinSent(s) && g.ack && g.ackNum == s.sndNxt
    ensures FinAcked(s)
  {
    assert AcksFin(s, |s.seen| - 1);
  }

  lemma SynSentInv(s: Tcb, g: Segment, once: bool)
    requires Inv(s, once) && s.state == SynSent
    ensures Inv(OnSynSent(s, g), once)
  {
    hide Outstanding;
    if !(g.ack && g.ackNum != s.sndNxt) && !g.rst && g.syn {
      SynchronizeInv(s, g, once);
    } else {
      DroppedInv(s, OnSynSent(s, g), once);
    }
  }

  lemma SynchronizeInv(s: Tcb, g: Segment, once: bool)
    requires Inv(s, once) && s.state == SynSent && (g.ack ==> g.ackNum == s.sndNxt)
    ensures Inv(Synchronize(s, g), once) && Synchronize(s, g).state == if g.ack then Established else SynReceived
  {
  }

  lemma EstablishedInv(s: Tcb, g: Segment, m: Merged, n: nat, once: bool)
    requires Inv(s, once) && s.state == Established
    ensures Inv(OnEstablished(s, g, m, n), once)
  {
    hide Inv, ScreenAck, TakeText, Bounded, Push, AtFin, TakeFin;
    BoundedInv(s, s, once);
    ScreenAckMeaning(s, g);
    var o := ScreenAck(s, g);
    if o.Stop? {
      DroppedInv(s, o.tcb, once);
    } else {
      UnaInv(s, o.tcb, once);
      var s2 := TakeText(o.tcb, g, m);
      TextMeaning(o.tcb, g, m);
      TextInv(o.tcb, s2, once);
      PeerFinInv(s2, once);
      SendDataInv(if AtFin(s2, g) then ChangeState(TakeFin(s2), CloseWait) else s2, n, once);
    }
  }

  /** The peer's FIN in ESTABLISHED. */
  lemma PeerFinInv(s: Tcb, once: bool)
    requires Inv(s, once) && s.state == Established
    ensures Inv(ChangeState(TakeFin(s), CloseWait), once)
  {
    hide Outstanding, Bounded, Add;
    BoundedSame(s, ChangeState(TakeFin(s), CloseWait));
  }

  lemma BoundedSame(s: Tcb, s': Tcb)
    requires Bounded(s) && s'.sndNxt == s.sndNxt && s'.sndUna == s.sndUna && s'.ourFin == s.ourFin
    ensures Bounded(s')
  {
  }

  lemma SynReceivedInv(s: Tcb, g: Segment, m: Merged, n: nat, once: bool)
    requires Inv(s, once) && s.state == SynReceived
    ensures Inv(OnSynReceived(s, g, m, n), once)
  {
    hide Outstanding, Screen, OnEstablished, Bounded;
    ScreenMeaning(s, g);
    var o := Screen(s, g);
    if o.Stop? {
      DroppedInv(s, o.tcb, once);
    } else if g.ack && g.ackNum == s.sndNxt {
      BoundedSame(s, ChangeState(s, Established));
      EstablishedInv(ChangeState(s, Established), g, m, n, once);
    } else {
      DroppedInv(s, OnSynReceived(s, g, m, n), once);
    }
  }

  lemma CloseWaitInv(s: Tcb, g: Segment, n: nat, once: bool)
    requires Inv(s, once) && s.state == CloseWait
    ensures Inv(OnCloseWait(s, g, n), once)
  {
    hide Outstanding, ScreenAck, Bounded, Push;
    ScreenAckMeaning(s, g);
    var o := ScreenAck(s, g);
    if o.Stop? {
      DroppedInv(s, o.tcb, once);
    } else {
      PushMeaning(o.tcb, n);
    }
  }

  lemma LastAckInv(s: Tcb, g: Segment, once: bool)
    requires Inv(s, once) && s.state == LastAck
    ensures Inv(OnLastAck(s, g), once)
  {
    hide Outstanding, Screen, Bounded;
    ScreenMeaning(s, g);
    DroppedInv(s, OnLastAck(s, g), once);
  }

  /** An acknowledgment that leaves our FIN open, or comes before it. */
  lemma UnaInv(s: Tcb, s1: Tcb, once: bool)
    requires Inv(s, once) && (s.state == FinWait1 || s.state == Established)
    requires s1 == s.(sndUna := s1.sndUna) && Bounded(s1)
    ensures Inv(s1, once)
  {
    hide Outstanding, Bounded, FinAcked;
  }

  /** An acknowledgment of our FIN. */
  lemma AckedInv(s: Tcb, s1: Tcb, g: Segment, once: bool)
    requires Inv(s, once) && s.state == FinWait1 && Arrived(s, g) && g.ack && g.ackNum == s.sndNxt
    requires s1 == s.(sndUna := s.sndNxt) && Bounded(s1)
    ensures Inv(ChangeState(s1, FinWait2), once)
  {
    hide Outstanding, Bounded, FinAcked;
    LastAcksFin(s, g);
    FinAckedSame(s, ChangeState(s1, FinWait2));
    BoundedSame(s1, ChangeState(s1, FinWait2));
  }

  /** The text of a segment, before the peer's FIN. */
  lemma TextInv(s: Tcb, s1: Tcb, once: bool)
    requires Inv(s, once) && (s.state == FinWait1 || s.state == FinWait2 || s.state == Established)
    requires s1 == s.(rcvNxt := s1.rcvNxt, rcvWnd := s1.rcvWnd, out := s1.out)
    ensures Inv(s1, once)
  {
    hide Outstanding, Bounded, FinAcked;
    BoundedSame(s, s1);
    if s.state == FinWait2 {
      FinAckedSame(s, s1);
    }
  }

  /** The peer's FIN behind it. */
  lemma FinInv(s: Tcb, once: bool)
    requires Inv(s, once) && (s.state == FinWait1 || s.state == FinWait2)
    ensures Inv(ChangeState(TakeFin(s), if s.state == FinWait1 then Closing else TimeWait), once)
  {
    hide Outstanding, Bounded, FinAcked, Add;
    var s' := ChangeState(TakeFin(s), if s.state == FinWait1 then Closing else TimeWait);
    BoundedSame(s, s');
    if s.state == FinWait2 {
      FinAckedSame(s, s');
    }
  }

  lemma FinWait1Inv(s: Tcb, g: Segment, m: Merged, once: bool)
    requires Inv(s, once) && s.state == FinWait1 && Arrived(s, g)
    ensures Inv(OnFinWait1(s, g, m), once)
  {
    hide Inv, ScreenAck, TakeText, Bounded, AtFin, TakeFin;
    BoundedInv(s, s, once);
    ScreenAckMeaning(s, g);
    var o := ScreenAck(s, g);
    if o.Stop? {
      DroppedInv(s, o.tcb, once);
    } else {
      var s1 := if g.ackNum == s.sndNxt then ChangeState(o.tcb, FinWait2) else o.tcb;
      if g.ackNum == s.sndNxt {
        AckedInv(s, o.tcb, g, once);
      } else {
        UnaInv(s, o.tcb, once);
      }
      TextMeaning(s1, g, m);
      TextInv(s1, TakeText(s1, g, m), once);
      FinInv(TakeText(s1, g, m), once);
      FinKeepsNext(TakeText(s1, g, m));
    }
  }

  lemma FinKeepsNext(s: Tcb)
    ensures TakeFin(s).sndNxt == s.sndNxt
  {
  }

  lemma FinAckedSame(s: Tcb, s': Tcb)
    requires FinAcked(s) && s'.ourFin == s.ourFin && s'.mark == s.mark && s'.seen == s.seen
    ensures FinAcked(s')
  {
    var k: nat :| AcksFin(s, k);
    assert AcksFin(s', k);
  }

  /** In FIN-WAIT-2 everything is acknowledged, so SND.UNA stays. */
  lemma FinWait2Inv(s: Tcb, g: Segment, m: Merged, once: bool)
    requires Inv(s, once) && s.state == FinWait2
    ensures Inv(OnFinWait2(s, g, m), once)
  {
    hide Inv, ScreenAck, TakeText, Bounded, AtFin, TakeFin;
    BoundedInv(s, s, once);
    ScreenAckMeaning(s, g);
    var o := ScreenAck(s, g);
    if o.Stop? {
      DroppedInv(s, o.tcb, once);
    } else {
      NothingOpen(s, once);
      AllAcked(s, g);
      TextMeaning(s, g, m);
      TextInv(s, TakeText(s, g, m), once);
      FinInv(TakeText(s, g, m), once);
    }
  }

  lemma NothingOpen(s: Tcb, once: bool)
    requires Inv(s, once) && s.state == FinWait2
    ensures s.sndUna == s.sndNxt
  {
  }

  lemma AllAcked(s: Tcb, g: Segment)
    requires s.sndUna == s.sndNxt && ScreenAck(s, g).Go?
    ensures ScreenAck(s, g).tcb == s
  {
    ScreenMeaning(s, g);
  }

  lemma ClosingInv(s: Tcb, g: Segment, once: bool)
    requires Inv(s, once) && s.state == Closing && Arrived(s, g)
    ensures Inv(OnClosing(s, g), once)
  {
    hide Outstanding, ScreenAck, Bounded, FinAcked;
    ScreenAckMeaning(s, g);
    var o := ScreenAck(s, g);
    if o.Stop? {
      DroppedInv(s, o.tcb, once);
    } else {
      var s' := OnClosing(s, g);
      BoundedSame(o.tcb, s');
      if g.ackNum == s.sndNxt {
        LastAcksFin(s', g);
      }
    }
  }

  lemma TimeWaitInv(s: Tcb, g: Segment, once: bool)
    requires Inv(s, once) && s.state == TimeWait
    ensures Inv(OnTimeWait(s, g), once)
  {
    hide Inv, OnTimeWait;
    TimeWaitDrops(s, g);
    DroppedInv(s, OnTimeWait(s, g), once);
  }

  lemma TimeWaitDrops(s: Tcb, g: Segment)
    ensures Dropped(s, OnTimeWait(s, g))
  {
    hide Acceptable;
  }

  /** Recording an arrival keeps the invariant. */
  lemma SeenInv(s: Tcb, g: Segment, once: bool)
    requires Inv(s, once)
    ensures Inv(s.(seen := s.seen + [g]), once) && Arrived(s.(seen := s.seen + [g]), g)
  {
    var s' := s.(seen := s.seen + [g]);
    if FinAcked(s) {
      var k: nat :| AcksFin(s, k);
      assert AcksFin(s', k);
    }
  }

  lemma HandleInv(s: Tcb, g: Segment, m: Merged, n: nat, once: bool)
    requires Inv(s, once) && Arrived(s, g)
    ensures Inv(Handle(s, g, m, n), once)
  {
    hide Inv, Arrived, OnSynSent, OnSynReceived, OnEstablished, OnCloseWait, OnLastAck, OnFinWait1, OnFinWait2,
         OnClosing, OnTimeWait;
    match s.state
    case Closed =>
    case SynSent => SynSentInv(s, g, once);
    case SynReceived => SynReceivedInv(s, g, m, n, once);
    case Established => EstablishedInv(s, g, m, n, once);
    case CloseWait => CloseWaitInv(s, g, n, once);
    case LastAck => LastAckInv(s, g, once);
    case FinWait1 => FinWait1Inv(s, g, m, once);
    case FinWait2 => FinWait2Inv(s, g, m, once);
    case Closing => ClosingInv(s, g, once);
    case TimeWait => TimeWaitInv(s, g, once);
  }

  // ---------------------------------------------------------------- user calls

  lemma ConnectInv(s: Tcb, iss: uint32, wnd: uint16, once: bool)
    requires s.call == NoCall
    ensures Inv(Connect(s, iss, wnd), once)
  {
  }

  lemma AcceptInv(s: Tcb, iss: uint32, irs: uint32, wnd: uint16, once: bool)
    requires s.call == NoCall
    ensures Inv(Accept(s, iss, irs, wnd), once)
  {
  }

  /** The FIN of `tcpShutdown` keeps the invariant when it is safe, even after a reset. */
  lemma ShutdownFinInv(s: Tcb, once: bool)
    requires Inv(s, once) && s.call != NoCall && (once ==> SafeToClose(s))
    ensures Inv(ShutdownFin(s), once)
  {
    assert Outstanding(ShutdownFin(s)) <= Outstanding(s) + 1;
  }

  lemma SendDataInv(s: Tcb, n: nat, once: bool)
    requires Inv(s, once) && (s.state == Established || s.state == CloseWait)
    ensures Inv(Push(s, n), once)
  {
    hide Outstanding, Bounded, Push;
    PushMeaning(s, n);
  }

  lemma NextInv(s: Tcb, e: Event, once: bool)
    requires Inv(s, once) && (once && e.ShutdownFlushed? ==> SafeToClose(s))
    ensures Inv(Next(s, e), once)
  {
    hide Inv, Handle, Push, ShutdownBegin, ShutdownFin, Connect, Accept, Abort, Expire, SafeToClose;
    match e
    case ConnectCall(iss, wnd) =>
      if s.call == NoCall {
        ConnectInv(s, iss, wnd, once);
      }
    case AcceptCall(iss, irs, wnd) =>
      if s.call == NoCall {
        AcceptInv(s, iss, irs, wnd, once);
      }
    case Arrive(g, m, n) =>
      SeenInv(s, g, once);
      HandleInv(s.(seen := s.seen + [g]), g, m, n, once);
    case SendData(n) =>
      if s.state == Established || s.state == CloseWait {
        SendDataInv(s, n, once);
      }
    case ReadData(wnd) => DroppedWindow(s, wnd, once);
    case ShutdownCall => ShutdownBeginInv(s, once);
    case ShutdownFlushed =>
      if s.call != NoCall {
        ShutdownFinInv(s, once);
      }
    case ShutdownFails => ShutdownFailsInv(s, once);
    case AbortCall => AbortInv(s, once);
    case TimerGivesUp => ExpireInv(s, once);
  }

  lemma AbortInv(s: Tcb, once: bool)
    requires Inv(s, once)
    ensures Inv(Abort(s), once)
  {
    hide Inv, Abort;
    AbortDrops(s);
    DroppedInv(s, Abort(s), once);
  }

  lemma AbortDrops(s: Tcb)
    ensures Dropped(s, Abort(s))
  {
    hide Dropped, ChangeState, SendsReset;
    if s.state == TimeWait {
      DisownedDrops(s);
    } else {
      ClosedDrops(s, if SendsReset(s.state) then SendControl(s, SendRst, s.sndNxt, 0).out else s.out);
    }
  }

  lemma DisownedDrops(s: Tcb)
    ensures Dropped(s, s.(owned := false))
  {
  }

  lemma ClosedDrops(s: Tcb, out: seq<Reply>)
    ensures Dropped(s, ChangeState(s.(out := out), Closed).(used := false))
  {
  }

  lemma ExpireInv(s: Tcb, once: bool)
    requires Inv(s, once)
    ensures Inv(Expire(s), once)
  {
    hide Inv;
    DroppedInv(s, Expire(s), once);
  }

  lemma DroppedWindow(s: Tcb, wnd: uint16, once: bool)
    requires Inv(s, once)
    ensures Inv(s.(rcvWnd := wnd), once)
  {
    if FinAcked(s) {
      FinAckedSame(s, s.(rcvWnd := wnd));
    }
  }

  lemma ShutdownBeginInv(s: Tcb, once: bool)
    requires Inv(s, once)
    ensures Inv(if s.call == NoCall then ShutdownBegin(s) else s, once)
  {
  }

  lemma ShutdownFailsInv(s: Tcb, once: bool)
    requires Inv(s, once)
    ensures Inv(s.(call := NoCall), once)
  {
    if FinAcked(s) {
      FinAckedSame(s, s.(call := NoCall));
    }
  }

  lemma {:induction false} RunInv(s: Tcb, es: seq<Event>, once: bool)
    requires Inv(s, once) && (once ==> Undisturbed(s, es))
    ensures Inv(Run(s, es), once)
  {
    hide Inv, Next;
    if es != [] {
      RunInv(s, es[..|es| - 1], once);
      NextInv(Run(s, es[..|es| - 1]), es[|es| - 1], once);
    }
  }

  // ---------------------------------------------------------------- the peer's FIN

  /** The event does not start another connection. */
  predicate SameConnection(e: Event)
  {
    !e.ConnectCall? && !e.AcceptCall?
  }

  /** Once the peer's FIN is consumed, no segment moves RCV.NXT. */
  lemma HandleFrozen(s: Tcb, g: Segment, m: Merged, n: nat)
    requires Inv(s, true) && s.fins == 1
    ensures var s' := Handle(s, g, m, n); s'.fins == 1 && s'.rcvNxt == s.rcvNxt
  {
    hide ScreenAck, Screen, Outstanding, Bounded, FinAcked, OnTimeWait, Push;
    if s.state == CloseWait || s.state == Closing {
      ScreenAckMeaning(s, g);
      if s.state == CloseWait && ScreenAck(s, g).Go? {
        PushMeaning(ScreenAck(s, g).tcb, n);
      }
    } else if s.state == TimeWait {
      TimeWaitFrozen(s, g);
    } else {
      ScreenMeaning(s, g);
    }
  }

  lemma TimeWaitFrozen(s: Tcb, g: Segment)
    ensures OnTimeWait(s, g).fins == s.fins && OnTimeWait(s, g).rcvNxt == s.rcvNxt
  {
    hide Acceptable;
  }

  lemma NextFrozen(s: Tcb, e: Event)
    requires Inv(s, true) && s.fins == 1 && SameConnection(e)
    ensures var s' := Next(s, e); s'.fins == 1 && s'.rcvNxt == s.rcvNxt
  {
    hide Handle, Inv, Abort, Push;
    AbortDrops(s);
    if e.Arrive? {
      SeenInv(s, e.segment, true);
      HandleFrozen(s.(seen := s.seen + [e.segment]), e.segment, e.merged, e.push);
    } else if e.SendData? {
      PushFrozen(s, e.n);
    }
  }

  lemma PushFrozen(s: Tcb, n: nat)
    ensures Push(s, n).fins == s.fins && Push(s, n).rcvNxt == s.rcvNxt
  {
    hide Outstanding;
  }

  /** The peer's FIN is the last thing that moves RCV.NXT, however the connection goes on. */
  lemma {:induction false} RunFrozen(s: Tcb, es: seq<Event>)
    requires Inv(s, true) && s.fins == 1 && Undisturbed(s, es)
    requires forall i :: 0 <= i < |es| ==> SameConnection(es[i])
    ensures Run(s, es).fins == 1 && Run(s, es).rcvNxt == s.rcvNxt
  {
    hide Next, Inv;
    if es != [] {
      var init := es[..|es| - 1];
      assert forall i :: 0 <= i < |init| ==> init[i] == es[i];
      RunFrozen(s, init);
      RunInv(s, init, true);
      NextFrozen(Run(s, init), es[|es| - 1]);
    }
  }

  /**
   * RCV.NXT is advanced over the peer's FIN at most once per connection: from then on it has the
   * same value in every state of the connection.
   */
  lemma {:induction false} FinTakenOnce(s: Tcb, es: seq<Event>, k: nat)
    requires IsNew(s) && Undisturbed(s, es) && k <= |es|
    requires forall i :: k <= i < |es| ==> SameConnection(es[i])
    ensures Run(s, es).fins <= 1
    ensures Run(s, es[..k]).fins == 1 ==> Run(s, es).fins == 1 && Run(s, es).rcvNxt == Run(s, es[..k]).rcvNxt
    decreases |es|
  {
    hide Next, Inv;
    NewInv(s, true);
    RunInv(s, es, true);
    FinsBound(Run(s, es));
    if k == |es| {
      assert es[..k] == es;
    } else {
      var init := es[..|es| - 1];
      assert init[..k] == es[..k];
      assert forall i :: k <= i < |init| ==> init[i] == es[i];
      FinTakenOnce(s, init, k);
      RunInv(s, init, true);
      if Run(s, es[..k]).fins == 1 {
        NextFrozen(Run(s, init), es[|es| - 1]);
      }
    }
  }

  lemma NewInv(s: Tcb, once: bool)
    requires IsNew(s)
    ensures Inv(s, once)
  {
  }

  lemma FinsBound(s: Tcb)
    requires Inv(s, true)
    ensures s.fins <= 1 && (s.fins == 1 ==> s.rcvNxt == s.finEnd)
  {
  }

  // ---------------------------------------------------------------- TIME-WAIT and FIN-WAIT-2

  /**
   * In every run, TIME-WAIT is reached only after a FIN of the peer was consumed, which is the last
   * thing that moved RCV.NXT, and after a segment that arrived later than our FIN was sent
   * acknowledged it; nothing is outstanding.
   */
  lemma TimeWaitMeaning(s: Tcb, es: seq<Event>)
    requires IsNew(s) && Run(s, es).state == TimeWait
    ensures var t := Run(s, es);
            t.fins >= 1 && t.rcvNxt == t.finEnd && t.ourFin.Some? && t.sndUna == t.sndNxt == Add(t.ourFin.value, 1) &&
            exists k: nat :: t.mark <= k < |t.seen| && t.seen[k].ack && t.seen[k].ackNum == Add(t.ourFin.value, 1)
  {
    hide Run, Outstanding;
    NewInv(s, false);
    RunInv(s, es, false);
    var t := Run(s, es);
    var k: nat :| AcksFin(t, k);
    assert t.seen[k].ack;
  }

  /** In every run, no connection consumes more than two FINs; an undisturbed one consumes one at most. */
  lemma FinLimits(s: Tcb, es: seq<Event>)
    requires IsNew(s)
    ensures Run(s, es).fins <= if Undisturbed(s, es) then 1 else 2
  {
    hide Run, Undisturbed, Outstanding;
    NewInv(s, Undisturbed(s, es));
    RunInv(s, es, Undisturbed(s, es));
  }

  /** The states that the handler of each state can lead to. */
  predicate Follows(a: State, b: State)
  {
    b == a || (a != Closed && b == Closed) ||
    match a
    case SynSent => b == SynReceived || b == Established
    case SynReceived => b == Established || b == CloseWait
    case Established => b == CloseWait
    case FinWait1 => b == FinWait2 || b == TimeWait || b == Closing
    case FinWait2 => b == TimeWait
    case Closing => b == TimeWait
    case _ => false
  }

  /** A step along the state diagram, on which a reset is recorded. */
  predicate Moves(s: Tcb, s': Tcb)
  {
    Follows(s.state, s'.state) &&
    (s'.state == Closed && s.state != Closed && s.state != LastAck && s.state != TimeWait ==> s'.resetFlag)
  }

  lemma StaysPut(s: Tcb)
    ensures Moves(s, s)
  {
  }

  lemma ScreenState(s: Tcb, g: Segment)
    ensures Screen(s, g).Go? ==> Screen(s, g).tcb == s
    ensures Moves(s, Screen(s, g).tcb)
    ensures ScreenAck(s, g).Go? ==> ScreenAck(s, g).tcb.state == s.state
    ensures Moves(s, ScreenAck(s, g).tcb)
    ensures ScreenAck(s, g).tcb.fins == s.fins && ScreenAck(s, g).tcb.call == s.call
  {
    hide Acceptable, CmpSeq;
  }

  lemma TextState(s: Tcb, g: Segment, m: Merged)
    ensures TakeText(s, g, m).state == s.state
  {
  }

  lemma SynSentMoves(s: Tcb, g: Segment)
    requires s.state == SynSent
    ensures Moves(s, OnSynSent(s, g))
  {
  }

  lemma EstablishedMoves(s: Tcb, g: Segment, m: Merged, n: nat)
    requires s.state == Established
    ensures Moves(s, OnEstablished(s, g, m, n))
  {
    hide ScreenAck, TakeText, AtFin, Outstanding;
    ScreenState(s, g);
    TextState(ScreenAck(s, g).tcb, g, m);
  }

  lemma SynReceivedMoves(s: Tcb, g: Segment, m: Merged, n: nat)
    requires s.state == SynReceived
    ensures Moves(s, OnSynReceived(s, g, m, n))
  {
    hide Screen, ScreenAck, OnEstablished;
    ScreenState(s, g);
    EstablishedMoves(s.(state := Established), g, m, n);
  }

  lemma CloseWaitMoves(s: Tcb, g: Segment, n: nat)
    requires s.state == CloseWait
    ensures Moves(s, OnCloseWait(s, g, n))
  {
    hide ScreenAck, Screen, Outstanding;
    ScreenState(s, g);
  }

  lemma FinWait1Moves(s: Tcb, g: Segment, m: Merged)
    requires s.state == FinWait1
    ensures Moves(s, OnFinWait1(s, g, m))
  {
    hide ScreenAck, Screen, TakeText, AtFin, TakeFin;
    ScreenState(s, g);
    var s1 := ScreenAck(s, g).tcb;
    TextState(if g.ackNum == s1.sndNxt then ChangeState(s1, FinWait2) else s1, g, m);
  }

  /** FIN-WAIT-2 never leads to CLOSING. */
  lemma FinWait2Moves(s: Tcb, g: Segment, m: Merged)
    requires s.state == FinWait2
    ensures Moves(s, OnFinWait2(s, g, m))
  {
    hide ScreenAck, Screen, TakeText, AtFin;
    ScreenState(s, g);
    TextState(ScreenAck(s, g).tcb, g, m);
  }

  lemma LastStatesMove(s: Tcb, g: Segment)
    requires s.state == Closing || s.state == LastAck || s.state == TimeWait
    ensures s.state == Closing ==> Moves(s, OnClosing(s, g))
    ensures s.state == LastAck ==> Moves(s, OnLastAck(s, g))
    ensures s.state == TimeWait ==> Moves(s, OnTimeWait(s, g))
  {
    hide ScreenAck, Screen, Acceptable;
    ScreenState(s, g);
  }

  /** A segment moves the connection along the state diagram. */
  lemma HandleMoves(s: Tcb, g: Segment, m: Merged, n: nat)
    ensures Moves(s, Handle(s, g, m, n))
  {
    hide Moves, OnSynSent, OnSynReceived, OnEstablished, OnCloseWait, OnLastAck, OnFinWait1, OnFinWait2,
         OnClosing, OnTimeWait;
    match s.state
    case Closed => StaysPut(s);
    case SynSent => SynSentMoves(s, g);
    case SynReceived => SynReceivedMoves(s, g, m, n);
    case Established => EstablishedMoves(s, g, m, n);
    case CloseWait => CloseWaitMoves(s, g, n);
    case FinWait1 => FinWait1Moves(s, g, m);
    case FinWait2 => FinWait2Moves(s, g, m);
    case _ => LastStatesMove(s, g);
  }

  /** A segment does not touch a `tcpShutdown` call. */
  lemma LateCall(s: Tcb, g: Segment, m: Merged, n: nat)
    requires s.state == FinWait2 || s.state == TimeWait || s.state == Closed
    ensures Handle(s, g, m, n).call == s.call
  {
    hide ScreenAck, Screen, AtFin, TakeText, OnTimeWait, Add;
    ScreenState(s, g);
    TextMeaning(ScreenAck(s, g).tcb, g, m);
    TimeWaitDrops(s, g);
  }

  /** A connection in FIN-WAIT-2 has no `tcpShutdown` call before its FIN. */
  lemma FinWait2NoCall(s: Tcb)
    requires Inv(s, false) && s.state == FinWait2
    ensures s.call == NoCall
  {
  }

  /**
   * In every run, once a connection was in FIN-WAIT-2 it is in FIN-WAIT-2, TIME-WAIT or CLOSED: never
   * in CLOSING.
   */
  lemma FinWait2Leads(s: Tcb, es: seq<Event>, k: nat)
    requires IsNew(s) && k <= |es| && Run(s, es[..k]).state == FinWait2
    requires forall i | k <= i < |es| :: SameConnection(es[i])
    ensures Run(s, es).state == FinWait2 || Run(s, es).state == TimeWait || Run(s, es).state == Closed
  {
    hide Run, Inv;
    NewInv(s, false);
    RunInv(s, es[..k], false);
    FinWait2NoCall(Run(s, es[..k]));
    LateRun(Run(s, es[..k]), es[k..]);
    assert es == es[..k] + es[k..];
    RunSplit(s, es[..k], es[k..]);
  }

  lemma {:induction false} RunSplit(s: Tcb, a: seq<Event>, b: seq<Event>)
    ensures Run(s, a + b) == Run(Run(s, a), b)
    decreases |b|
  {
    hide Next;
    if b == [] {
      assert a + b == a;
    } else {
      assert (a + b)[..|a + b| - 1] == a + b[..|b| - 1];
      RunSplit(s, a, b[..|b| - 1]);
    }
  }

  lemma {:induction false} LateRun(s: Tcb, es: seq<Event>)
    requires (s.state == FinWait2 || s.state == TimeWait || s.state == Closed) && s.call == NoCall
    requires forall i :: 0 <= i < |es| ==> SameConnection(es[i])
    ensures var t := Run(s, es);
            (t.state == FinWait2 || t.state == TimeWait || t.state == Closed) && t.call == NoCall
  {
    hide Next;
    if es != [] {
      var init := es[..|es| - 1];
      assert forall i :: 0 <= i < |init| ==> init[i] == es[i];
      LateRun(s, init);
      LateStep(Run(s, init), es[|es| - 1]);
    }
  }

  lemma LateStep(s: Tcb, e: Event)
    requires (s.state == FinWait2 || s.state == TimeWait || s.state == Closed) && s.call == NoCall && SameConnection(e)
    ensures var t := Next(s, e);
            (t.state == FinWait2 || t.state == TimeWait || t.state == Closed) && t.call == NoCall
  {
    hide Handle, Push;
    if e.Arrive? {
      HandleMoves(s.(seen := s.seen + [e.segment]), e.segment, e.merged, e.push);
      LateCall(s.(seen := s.seen + [e.segment]), e.segment, e.merged, e.push);
    }
  }

  // ---------------------------------------------------------------- tcpShutdown

  /** A pure FIN at RCV.NXT that acknowledges everything. */
  function NextFin(s: Tcb): (g: Segment)
  {
    Segment(s.rcvNxt, s.sndNxt, 0, true, false, false, true)
  }

  lemma NextFinGoes(s: Tcb)
    requires Bounded(s)
    ensures ScreenAck(s, NextFin(s)) == Go(s.(sndUna := s.sndNxt))
  {
    var g := NextFin(s);
    assert Acceptable(s, g) by {
      assert CmpSeq(s.rcvNxt, s.rcvNxt) == 0;
      assert s.rcvWnd > 0 ==> Ahead(s.rcvNxt, Add(s.rcvNxt, s.rcvWnd)) == MODULUS - s.rcvWnd;
    }
    assert CmpSeq(s.sndNxt, s.sndUna) >= 0 && CmpSeq(s.sndNxt, s.sndNxt) == 0;
    assert CmpSeq(s.sndNxt, s.sndUna) == 0 ==> s.sndUna == s.sndNxt;
  }

  /** A FIN at RCV.NXT is always taken in FIN-WAIT-1. */
  lemma NextFinTaken(s: Tcb, m: Merged)
    requires s.state == FinWait1 && Bounded(s)
    ensures OnFinWait1(s, NextFin(s), m).fins == s.fins + 1
  {
    NextFinGoes(s);
  }

  lemma ShutdownFinBounded(s: Tcb)
    requires Inv(s, false) && s.call == ActiveClose
    ensures var t := ShutdownFin(s); Bounded(t) && t.state == FinWait1 && t.fins == s.fins <= 1
  {
    assert Outstanding(ShutdownFin(s)) <= Outstanding(s) + 1;
  }

  /**
   * `tcpShutdown` chooses its branch before it waits for the flush and does not look again. The FIN
   * of the active branch is safe (no segment makes RCV.NXT pass a second FIN) exactly when the
   * peer's FIN was not consumed during the wait. As long as the connection is open that means that
   * it is still in a state of the branch.
   */
  lemma StaleShutdown(s: Tcb)
    requires Inv(s, false) && s.call == ActiveClose
    ensures (forall g, m, n :: Handle(ShutdownFin(s), g, m, n).fins <= 1) <==> SafeToClose(s)
    ensures s.state != Closed ==> (SafeToClose(s) <==> StillInBranch(s))
  {
    hide Inv, Handle, ShutdownFin, NextFin;
    var t := ShutdownFin(s);
    ShutdownFinBounded(s);
    if s.state != Closed {
      BranchInv(s);
    }
    if SafeToClose(s) {
      forall g, m, n ensures Handle(t, g, m, n).fins <= 1 {
        FinWait1Handled(t, g, m, n);
      }
    } else {
      NextFinTaken(t, Merged(0, 0));
      FinWait1Handled(t, NextFin(t), Merged(0, 0), 0);
      assert Handle(t, NextFin(t), Merged(0, 0), 0).fins == 2;
    }
  }

  lemma BranchInv(s: Tcb)
    requires Inv(s, false) && s.call == ActiveClose && s.state != Closed
    ensures SafeToClose(s) <==> StillInBranch(s)
  {
  }

  lemma FinWait1Handled(s: Tcb, g: Segment, m: Merged, n: nat)
    requires s.state == FinWait1
    ensures Handle(s, g, m, n) == OnFinWait1(s, g, m) && Handle(s, g, m, n).fins <= s.fins + 1
  {
    hide OnFinWait1;
    FinWait1Fins(s, g, m);
  }

  lemma FinWait1Fins(s: Tcb, g: Segment, m: Merged)
    requires s.state == FinWait1
    ensures OnFinWait1(s, g, m).fins <= s.fins + 1
  {
    hide ScreenAck, Screen, TakeText, AtFin;
    ScreenState(s, g);
    var s1 := ScreenAck(s, g).tcb;
    TextMeaning(if g.ackNum == s1.sndNxt then ChangeState(s1, FinWait2) else s1, g, m);
  }

  /** A FIN at RCV.NXT is always taken in ESTABLISHED. */
  lemma NextFinCloses(s: Tcb, m: Merged)
    requires s.state == Established && Bounded(s)
    ensures var s' := OnEstablished(s, NextFin(s), m, 0);
            s'.state == CloseWait && s'.fins == s.fins + 1 && s'.call == s.call
  {
    hide ScreenAck, Screen, Ahead;
    NextFinGoes(s);
  }

  /** In every open connection, the peer's FIN during the wait of `tcpShutdown` leads to a second one. */
  lemma StaleShutdownRun(s: Tcb, m: Merged)
    requires Inv(s, false) && s.state == Established && s.call == ActiveClose
    ensures var s1 := Next(s, Arrive(NextFin(s), m, 0));
            var s2 := Next(s1, ShutdownFlushed);
            Next(s2, Arrive(NextFin(s2), m, 0)).fins == 2
  {
    hide Inv, OnFinWait1, OnEstablished;
    var g := NextFin(s);
    var s1 := Next(s, Arrive(g, m, 0));
    NextInv(s, Arrive(g, m, 0), false);
    BoundedInv(s.(seen := s.seen + [g]), s, false);
    NextFinCloses(s.(seen := s.seen + [g]), m);
    var s2 := Next(s1, ShutdownFlushed);
    ShutdownFinBounded(s1);
    var g2 := NextFin(s2);
    NextFinTaken(s2.(seen := s2.seen + [g2]), m);
  }

  /** A reset at RCV.NXT. */
  function NextRst(s: Tcb): (g: Segment)
  {
    Segment(s.rcvNxt, s.sndNxt, 0, false, false, true, false)
  }

  lemma NextRstCloses(s: Tcb)
    requires s.state == CloseWait && Inv(s, false)
    ensures var s' := Next(s, Arrive(NextRst(s), Merged(0, 0), 0));
            s'.state == Closed && s'.fins == s.fins && s'.call == s.call
  {
    var g := NextRst(s);
    assert CmpSeq(s.rcvNxt, s.rcvNxt) == 0;
    assert s.rcvWnd > 0 ==> Ahead(s.rcvNxt, Add(s.rcvNxt, s.rcvWnd)) == MODULUS - s.rcvWnd;
    assert Acceptable(s.(seen := s.seen + [g]), g);
  }

  /**
   * A reset during the wait closes the connection, and the wait ends. If the peer's FIN had been
   * consumed, `tcpShutdown` then opens the connection again in FIN-WAIT-1, where a second FIN is taken.
   */
  lemma ResetShutdownRun(s: Tcb, m: Merged)
    requires Inv(s, false) && s.state == CloseWait && s.call == ActiveClose
    ensures var s1 := Next(s, Arrive(NextRst(s), Merged(0, 0), 0));
            var s2 := Next(s1, ShutdownFlushed);
            s1.state == Closed && Next(s2, Arrive(NextFin(s2), m, 0)).fins == 2
  {
    hide Inv, OnFinWait1, OnCloseWait, ShutdownFin;
    var s1 := Next(s, Arrive(NextRst(s), Merged(0, 0), 0));
    NextInv(s, Arrive(NextRst(s), Merged(0, 0), 0), false);
    NextRstCloses(s);
    CloseWaitFins(s);
    ShutdownFinBounded(s1);
    var s2 := ShutdownFin(s1);
    var g := NextFin(s2);
    BoundedSame(s2, s2.(seen := s2.seen + [g]));
    NextFinTaken(s2.(seen := s2.seen + [g]), m);
  }

  lemma CloseWaitFins(s: Tcb)
    requires Inv(s, false) && s.state == CloseWait
    ensures s.fins == 1
  {
  }

  lemma BoundedInv(s: Tcb, s0: Tcb, once: bool)
    requires Inv(s0, once) && s0.state != Closed && s == s0.(seen := s.seen)
    ensures Bounded(s)
  {
  }

  lemma RunSnoc(s: Tcb, es: seq<Event>, e: Event)
    ensures Run(s, es + [e]) == Next(Run(s, es), e)
  {
    assert (es + [e])[..|es|] == es;
  }

  /** A new socket that is connected to a peer, with a `tcpShutdown` call waiting for its flush. */
  lemma Flushing(s: Tcb)
    requires IsNew(s)
    ensures var t := Run(s, [ConnectCall(0, 1000), Arrive(Segment(100, 1, 0, false, true, false, true), Merged(0, 0), 0),
                             ShutdownCall]);
            Inv(t, false) && t.state == Established && t.call == ActiveClose
  {
    hide Inv, Run, Outstanding;
    var e1, e2 := ConnectCall(0, 1000), Arrive(Segment(100, 1, 0, false, true, false, true), Merged(0, 0), 0);
    RunEmpty(s);
    NewInv(s, false);
    var s1 := Next(s, e1);
    NextInv(s, e1, false);
    var s2 := Next(s1, e2);
    NextInv(s1, e2, false);
    assert s2.state == Established;
    NextInv(s2, ShutdownCall, false);
    RunSnoc(s, [], e1);
    RunSnoc(s, [e1], e2);
    RunSnoc(s, [e1, e2], ShutdownCall);
    assert [] + [e1] == [e1] && [e1] + [e2] == [e1, e2] && [e1, e2] + [ShutdownCall] == [e1, e2, ShutdownCall];
  }

  lemma RunEmpty(s: Tcb)
    ensures Run(s, []) == s
  {
  }

  /** Without the condition on `tcpShutdown`, some run takes two FINs in one connection. */
  lemma StaleShutdownExample(s: Tcb)
    requires IsNew(s)
    ensures exists es: seq<Event> ::
              |es| > 0 && Run(s, es).fins == 2 && es[0].ConnectCall? && forall i :: 0 < i < |es| ==> SameConnection(es[i])
  {
    hide Run, Next, Inv;
    var es := [ConnectCall(0, 1000), Arrive(Segment(100, 1, 0, false, true, false, true), Merged(0, 0), 0), ShutdownCall];
    Flushing(s);
    var t := Run(s, es);
    var m := Merged(0, 0);
    StaleShutdownRun(t, m);
    var f1 := Arrive(NextFin(t), m, 0);
    var t2 := Next(Next(t, f1), ShutdownFlushed);
    var f2 := Arrive(NextFin(t2), m, 0);
    RunSnoc(s, es, f1);
    RunSnoc(s, es + [f1], ShutdownFlushed);
    RunSnoc(s, es + [f1] + [ShutdownFlushed], f2);
    var all := es + [f1] + [ShutdownFlushed] + [f2];
    assert Run(s, all).fins == 2 && all[0].ConnectCall?;
  }
}
