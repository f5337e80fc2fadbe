/**
 * What exactly each handler does with a segment: which segments are acceptable, where each state
 * leads, how far RCV.NXT and SND.UNA move, and what is answered.
 */
module TcpSteps {
  import opened Bytes
  import opened TcpFsm
  import opened TcpRuns

  // ---------------------------------------------------------------- sequence numbers

  /** Numbers less than 2^31 apart compare as they would without wrapping. */
  lemma CmpSeqMeaning(a: nat, b: nat)
    requires a < b + HALF && b < a + HALF
    ensures CmpSeq(a % MODULUS, b % MODULUS) == a - b
  {
    var x, y := a / MODULUS, b / MODULUS;
    assert a % MODULUS - b % MODULUS == a - b + MODULUS * (y - x);
    if a >= b {
      DivMod(a % MODULUS - b % MODULUS, MODULUS, y - x, a - b);
    } else {
      DivMod(a % MODULUS - b % MODULUS, MODULUS, y - x - 1, a - b + MODULUS);
    }
  }

  /** A number is in the receive window if it is less than the window ahead of RCV.NXT. */
  lemma InWindowIff(s: Tcb, n: uint32)
    ensures InWindow(s, n) <==> Ahead(n, s.rcvNxt) < s.rcvWnd
  {
  }

  /** The acceptability test of section 3.3 of RFC 793. */
  lemma AcceptableIff(s: Tcb, g: Segment)
    ensures Acceptable(s, g) <==>
              var first, last := Ahead(g.seqNum, s.rcvNxt), Ahead(Add(g.seqNum, g.length - 1), s.rcvNxt);
              if g.length == 0 then first == 0 || first < s.rcvWnd
              else first < s.rcvWnd || last < s.rcvWnd
  {
    hide InWindow;
    InWindowIff(s, g.seqNum);
    InWindowIff(s, Add(g.seqNum, g.length - 1));
  }

  /** The acknowledgement number is old, or covers nothing that was not sent. */
  predicate AckFits(s: Tcb, g: Segment)
  {
    g.ack && (Ahead(g.ackNum, s.sndUna) <= Outstanding(s) || Ahead(g.ackNum, s.sndUna) >= HALF)
  }

  /** Which acknowledgements pass, and how far they move SND.UNA. */
  lemma CheckAckIff(s: Tcb, g: Segment)
    requires Bounded(s)
    ensures CheckAck(s, g).Go? <==> AckFits(s, g)
    ensures CheckAck(s, g).Go? ==>
              CheckAck(s, g).tcb
              == s.(sndUna := if Ahead(g.ackNum, s.sndUna) <= Outstanding(s) then g.ackNum else s.sndUna)
    ensures g.ack && !AckFits(s, g) ==> CheckAck(s, g).tcb == SendAckNow(s)
    ensures !g.ack ==> CheckAck(s, g).tcb == s
  {
  }

  /** An acknowledgement of everything always passes. */
  lemma FullAckFits(s: Tcb, g: Segment)
    requires Bounded(s) && g.ack && g.ackNum == s.sndNxt
    ensures AckFits(s, g)
  {
  }

  // ---------------------------------------------------------------- text

  /** How much of the segment lies in front of RCV.NXT. */
  function Overlap(s: Tcb, g: Segment): (n: uint32)
  {
    Ahead(s.rcvNxt, g.seqNum)
  }

  /** Sequence numbers on a stretch shorter than 2^31 are added and compared as they would be without wrapping. */
  lemma Stretch(a: uint32, m: nat, n: nat)
    requires m < HALF && n < HALF
    ensures CmpSeq(Add(a, m), Add(a, n)) == m - n
    ensures m >= n ==> Ahead(Add(a, m), Add(a, n)) == m - n
    ensures Add(Add(a, m), n) == Add(a, m + n)
  {
    CmpSeqMeaning(a + m, a + n);
    var q := (a + m) / MODULUS;
    DivMod((a + m) % MODULUS + n, MODULUS, (a + m + n) / MODULUS - q, (a + m + n) % MODULUS);
  }

  lemma Behind(a: uint32, b: uint32)
    ensures Add(a, Ahead(b, a)) == b && Add(a, 0) == a
  {
    if a <= b {
      DivMod(b - a, MODULUS, 0, b - a);
    } else {
      DivMod(b - a, MODULUS, -1, b - a + MODULUS);
    }
  }

  /** What a segment that starts at or before RCV.NXT adds: the rest of it, up to the end of the window. */
  lemma GainInOrder(s: Tcb, g: Segment)
    requires Overlap(s, g) <= g.length
    ensures var rest := g.length - Overlap(s, g);
            Gain(s.rcvNxt, s.rcvWnd, g, Unqueued) == Some(if rest <= s.rcvWnd then rest else s.rcvWnd)
    ensures Add(s.rcvNxt, g.length - Overlap(s, g)) == Add(g.seqNum, g.length)
  {
    hide CmpSeq, Ahead, Add;
    var a, k := g.seqNum, Overlap(s, g);
    Behind(a, s.rcvNxt);
    Stretch(a, k, g.length - k);
    Stretch(a, k, s.rcvWnd);
    Stretch(a, 0, k);
    Stretch(a, k, k);
    Stretch(a, g.length, k);
    Stretch(a, k + s.rcvWnd, k);
    Stretch(a, g.length, k + s.rcvWnd);
  }

  lemma SmallWindow(wnd: uint16, n: nat)
    requires n <= wnd
    ensures (wnd - n) % 0x1_0000 == wnd - n
  {
  }

  /** Text that continues what was received, and fits the window, moves RCV.NXT right behind it. */
  lemma TextInOrder(s: Tcb, g: Segment)
    requires 0 < g.length && Overlap(s, g) <= g.length && g.length - Overlap(s, g) <= s.rcvWnd
    ensures TakeText(s, g, Unqueued)
         == s.(rcvNxt := Add(g.seqNum, g.length), rcvWnd := s.rcvWnd - (g.length - Overlap(s, g)),
               out := s.out + [Reply(SendAck, s.sndNxt, Add(g.seqNum, g.length))])
  {
    hide SendAckNow, Gain, Overlap, Add;
    var n := g.length - Overlap(s, g);
    GainInOrder(s, g);
    SmallWindow(s.rcvWnd, n);
    AckOf(s.(rcvNxt := Add(s.rcvNxt, n), rcvWnd := s.rcvWnd - n));
  }

  /** Text behind a gap leaves RCV.NXT alone and is answered at once. */
  lemma TextBeyond(s: Tcb, g: Segment)
    requires 0 < g.length && 0 < Ahead(g.seqNum, s.rcvNxt) < HALF
    ensures TakeText(s, g, Unqueued) == s.(out := s.out + [Reply(SendAck, s.sndNxt, s.rcvNxt)])
  {
    hide SendAckNow;
    AckOf(s);
    assert Gain(s.rcvNxt, s.rcvWnd, g, Unqueued) == None;
  }

  /** Text that passes the window is taken up to its end, so a FIN behind it is not next. */
  lemma TextClipped(s: Tcb, g: Segment)
    requires 0 < g.length && Overlap(s, g) <= g.length && s.rcvWnd < g.length - Overlap(s, g)
    ensures var t := TakeText(s, g, Unqueued); t.rcvNxt == Add(s.rcvNxt, s.rcvWnd) && t.rcvWnd == 0 && !AtFin(t, g)
  {
    hide SendAckNow, Gain, Overlap, Add, Ahead;
    GainInOrder(s, g);
    SmallWindow(s.rcvWnd, s.rcvWnd);
    AckOf(s.(rcvNxt := Add(s.rcvNxt, s.rcvWnd), rcvWnd := 0));
    Stretch(s.rcvNxt, g.length - Overlap(s, g), s.rcvWnd);
    Stretch(s.rcvNxt, s.rcvWnd, s.rcvWnd);
  }

  /** A FIN that comes with text in order is in order. */
  lemma FinInOrder(s: Tcb, g: Segment)
    requires Overlap(s, g) <= g.length && g.length - Overlap(s, g) <= s.rcvWnd
    ensures AtFin(TakeText(s, g, Unqueued), g) <==> g.fin
  {
    hide ProcessData, Add;
    if g.length > 0 {
      TextInOrder(s, g);
    } else {
      Behind(g.seqNum, s.rcvNxt);
    }
  }

  // ---------------------------------------------------------------- where each state leads

  /** The segment gets past the sequence number, RST and SYN checks. */
  predicate Passes(s: Tcb, g: Segment)
  {
    Acceptable(s, g) && !g.rst && !g.syn
  }

  lemma ScreenIff(s: Tcb, g: Segment)
    ensures Screen(s, g).Go? <==> Passes(s, g)
    ensures Screen(s, g).Go? ==> Screen(s, g).tcb == s
    ensures Screen(s, g).Stop? ==>
              Screen(s, g).tcb.state == if Acceptable(s, g) && g.rst then Closed else s.state
    ensures Acceptable(s, g) && g.rst ==> Screen(s, g).tcb == ChangeState(s, Closed)
  {
    hide Acceptable;
  }

  lemma ScreenAckIff(s: Tcb, g: Segment)
    requires Bounded(s)
    ensures ScreenAck(s, g).Go? <==> Passes(s, g) && AckFits(s, g)
    ensures ScreenAck(s, g).Go? ==> ScreenAck(s, g).tcb == CheckAck(s, g).tcb
    ensures ScreenAck(s, g).Stop? ==>
              ScreenAck(s, g).tcb.state == if Acceptable(s, g) && g.rst then Closed else s.state
  {
    hide Screen, Passes, AckFits, Acceptable, CheckAck, Bounded;
    ScreenIff(s, g);
    CheckAckIff(s, g);
  }

  /** The segment's FIN is next in order, once its text is taken. */
  predicate BringsFin(s: Tcb, g: Segment, m: Merged)
  {
    AtFin(TakeText(s, g, m), g)
  }

  /** The acknowledgement does not change whether the FIN is next. */
  lemma SameFin(s: Tcb, s1: Tcb, g: Segment, m: Merged)
    requires s1.rcvNxt == s.rcvNxt && s1.rcvWnd == s.rcvWnd
    ensures BringsFin(s1, g, m) <==> BringsFin(s, g, m)
  {
    hide TakeText, Gain, Add;
    TextNext(s, g, m);
    TextNext(s1, g, m);
  }

  lemma TextNext(s: Tcb, g: Segment, m: Merged)
    ensures TakeText(s, g, m).rcvNxt
         == if g.length == 0 then s.rcvNxt
            else match Gain(s.rcvNxt, s.rcvWnd, g, m) case None => s.rcvNxt case Some(n) => Add(s.rcvNxt, n)
  {
    hide Gain, Add;
  }

  /** ESTABLISHED is left for CLOSE-WAIT if and only if a good segment brings the FIN, and for CLOSED on a reset. */
  lemma EstablishedLeads(s: Tcb, g: Segment, m: Merged, n: nat)
    requires Inv(s, false) && s.state == Established
    ensures var t := OnEstablished(s, g, m, n);
            && (t.state == CloseWait <==> Passes(s, g) && AckFits(s, g) && BringsFin(s, g, m))
            && (t.state == Closed <==> Acceptable(s, g) && g.rst)
            && (t.state == CloseWait ==> t.fins == s.fins + 1)
  {
    hide Inv, ScreenAck, Bounded, Passes, AckFits, Acceptable, BringsFin, Outstanding, Add, CheckAck, OnEstablished;
    BoundedInv(s, s, false);
    ScreenAckIff(s, g);
    CheckAckIff(s, g);
    ResetIff(s, g);
    EstablishedResult(s, g, m, n);
    if ScreenAck(s, g).Go? {
      SameFin(s, ScreenAck(s, g).tcb, g, m);
    }
  }

  lemma EstablishedResult(s: Tcb, g: Segment, m: Merged, n: nat)
    requires s.state == Established
    ensures ScreenAck(s, g).Stop? ==> OnEstablished(s, g, m, n) == ScreenAck(s, g).tcb
    ensures ScreenAck(s, g).Go? && ScreenAck(s, g).tcb.state == Established ==>
              var s1, t := ScreenAck(s, g).tcb, OnEstablished(s, g, m, n);
              && t.state == (if BringsFin(s1, g, m) then CloseWait else Established)
              && t.fins == s1.fins + if BringsFin(s1, g, m) then 1 else 0
  {
    hide ScreenAck, TakeText, AtFin, Outstanding, Add;
    TextMeaning(ScreenAck(s, g).tcb, g, m);
  }

  lemma FinIs(s: Tcb, g: Segment, m: Merged)
    ensures BringsFin(s, g, m) <==> AtFin(TakeText(s, g, m), g)
  {
  }

  lemma ResetIff(s: Tcb, g: Segment)
    ensures Acceptable(s, g) && g.rst ==> !Passes(s, g)
  {
  }

  /** SYN-RECEIVED is left for ESTABLISHED or CLOSE-WAIT if and only if a good segment acknowledges the SYN. */
  lemma SynReceivedLeads(s: Tcb, g: Segment, m: Merged, n: nat)
    requires Inv(s, false) && s.state == SynReceived
    ensures var t := OnSynReceived(s, g, m, n);
            && (t.state == Established || t.state == CloseWait <==> Passes(s, g) && g.ack && g.ackNum == s.sndNxt)
            && (t.state == CloseWait <==>
                  Passes(s, g) && g.ack && g.ackNum == s.sndNxt && BringsFin(s, g, m))
            && (t.state == Closed <==> Acceptable(s, g) && g.rst)
  {
    hide Inv, Screen, Bounded, Acceptable, BringsFin, AckFits, OnEstablished;
    BoundedInv(s, s, false);
    ScreenIff(s, g);
    if Passes(s, g) && g.ack && g.ackNum == s.sndNxt {
      var e := ChangeState(s, Established);
      NowEstablished(s);
      SameChecks(s, e, g);
      SameFin(s, e, g, m);
      EstablishedLeads(e, g, m, n);
      BoundedSame(s, e);
      FullAckFits(e, g);
      EstablishedMoves(e, g, m, n);
    }
  }

  lemma NowEstablished(s: Tcb)
    requires Inv(s, false) && s.state == SynReceived
    ensures Inv(ChangeState(s, Established), false)
  {
    hide Bounded, Outstanding;
    BoundedSame(s, ChangeState(s, Established));
  }

  lemma SameChecks(s: Tcb, s1: Tcb, g: Segment)
    requires s1.rcvNxt == s.rcvNxt && s1.rcvWnd == s.rcvWnd
    ensures Acceptable(s1, g) == Acceptable(s, g)
  {
    hide CmpSeq, Add;
  }

  /** SYN-SENT: a SYN that acknowledges ours establishes the connection, one without ACK is a simultaneous open. */
  lemma SynSentLeads(s: Tcb, g: Segment)
    requires Inv(s, false) && s.state == SynSent
    ensures var t := OnSynSent(s, g);
            && (t.state == Established <==> g.syn && !g.rst && g.ack && g.ackNum == Add(s.iss, 1))
            && (t.state == SynReceived <==> g.syn && !g.rst && !g.ack)
            && (t.state == Closed <==> g.rst && g.ack && g.ackNum == Add(s.iss, 1))
            && (t.state == Established || t.state == SynReceived ==>
                  t.irs == g.seqNum && t.rcvNxt == Add(g.seqNum, 1)
                  && t.sndUna == if g.ack then g.ackNum else s.sndUna)
  {
    hide Bounded, Synchronize, Add;
    if g.syn && !g.rst && (g.ack ==> g.ackNum == s.sndNxt) {
      SynchronizeMeaning(s, g);
    }
  }

  lemma SynchronizeMeaning(s: Tcb, g: Segment)
    requires Inv(s, false) && s.state == SynSent && (g.ack ==> g.ackNum == s.sndNxt)
    ensures var t := Synchronize(s, g);
            && t.state == (if g.ack then Established else SynReceived)
            && t.irs == g.seqNum && t.rcvNxt == Add(g.seqNum, 1) && t.sndUna == if g.ack then g.ackNum else s.sndUna
  {
    hide Bounded;
  }

  /** FIN-WAIT-1, by whether the segment acknowledges our FIN and whether it brings the peer's. */
  lemma FinWait1Leads(s: Tcb, g: Segment, m: Merged)
    requires Inv(s, false) && s.state == FinWait1
    ensures s.ourFin.Some?
    ensures var t := OnFinWait1(s, g, m);
            var good := Passes(s, g) && AckFits(s, g);
            var acked := g.ackNum == Add(s.ourFin.value, 1);
            && (t.state == FinWait2 <==> good && acked && !BringsFin(s, g, m))
            && (t.state == TimeWait <==> good && acked && BringsFin(s, g, m))
            && (t.state == Closing <==> good && !acked && BringsFin(s, g, m))
            && (t.state == Closed <==> Acceptable(s, g) && g.rst)
  {
    hide Inv, ScreenAck, Bounded, Passes, AckFits, Acceptable, BringsFin, Outstanding, Add, CheckAck, OnFinWait1;
    BoundedInv(s, s, false);
    OurFinIs(s);
    ScreenAckIff(s, g);
    CheckAckIff(s, g);
    ResetIff(s, g);
    FinWait1Result(s, g, m);
    if ScreenAck(s, g).Go? {
      SameFin(s, ScreenAck(s, g).tcb, g, m);
    }
  }

  lemma FinWait1Result(s: Tcb, g: Segment, m: Merged)
    requires s.state == FinWait1
    ensures ScreenAck(s, g).Stop? ==> OnFinWait1(s, g, m) == ScreenAck(s, g).tcb
    ensures ScreenAck(s, g).Go? && ScreenAck(s, g).tcb.state == FinWait1 ==>
              var s1 := ScreenAck(s, g).tcb;
              OnFinWait1(s, g, m).state
              == if BringsFin(s1, g, m) then if g.ackNum == s1.sndNxt then TimeWait else Closing
                 else if g.ackNum == s1.sndNxt then FinWait2 else FinWait1
  {
    hide ScreenAck, TakeText, TakeFin, AtFin;
    if ScreenAck(s, g).Go? {
      var s1 := ScreenAck(s, g).tcb;
      var s2 := if g.ackNum == s1.sndNxt then ChangeState(s1, FinWait2) else s1;
      SameFin(s1, s2, g, m);
      TextMeaning(s2, g, m);
      FinKeepsNext(TakeText(s2, g, m));
    }
  }

  lemma OurFinIs(s: Tcb)
    requires Inv(s, false) && (s.state == FinWait1 || s.state == FinWait2 || s.state == Closing || s.state == LastAck)
    ensures s.ourFin.Some? && s.sndNxt == Add(s.ourFin.value, 1)
  {
    hide Bounded, FinAcked;
  }

  /** FIN-WAIT-2 is left for TIME-WAIT if and only if a good segment brings the FIN. */
  lemma FinWait2Goes(s: Tcb, g: Segment, m: Merged)
    requires Inv(s, false) && s.state == FinWait2
    ensures var t := OnFinWait2(s, g, m);
            && (t.state == TimeWait <==> Passes(s, g) && AckFits(s, g) && BringsFin(s, g, m))
            && (t.state == Closed <==> Acceptable(s, g) && g.rst)
  {
    hide Inv, ScreenAck, Bounded, Passes, AckFits, Acceptable, BringsFin, TakeText, Outstanding, Add, CheckAck;
    BoundedInv(s, s, false);
    ScreenAckIff(s, g);
    CheckAckIff(s, g);
    ResetIff(s, g);
    var s1 := ScreenAck(s, g).tcb;
    if ScreenAck(s, g).Go? {
      SameFin(s, s1, g, m);
      FinIs(s1, g, m);
      TextMeaning(s1, g, m);
    }
  }

  /** CLOSING is left for TIME-WAIT if and only if a good segment acknowledges our FIN. */
  lemma ClosingLeads(s: Tcb, g: Segment)
    requires Inv(s, false) && s.state == Closing
    ensures s.ourFin.Some?
    ensures var t := OnClosing(s, g);
            && (t.state == TimeWait <==> Passes(s, g) && g.ack && g.ackNum == Add(s.ourFin.value, 1))
            && (t.state == Closed <==> Acceptable(s, g) && g.rst)
  {
    hide Inv, ScreenAck, Bounded, Passes, AckFits, Acceptable, Outstanding, Add, CheckAck;
    BoundedInv(s, s, false);
    OurFinIs(s);
    ScreenAckIff(s, g);
    CheckAckIff(s, g);
    FitsHasAck(s, g);
    if g.ack && g.ackNum == s.sndNxt {
      FullAckFits(s, g);
    }
    ResetIff(s, g);
  }

  lemma FitsHasAck(s: Tcb, g: Segment)
    ensures AckFits(s, g) ==> g.ack
  {
  }

  /** LAST-ACK is left if and only if an acceptable reset or the acknowledgement of our FIN arrives. */
  lemma LastAckLeads(s: Tcb, g: Segment)
    requires Inv(s, false) && s.state == LastAck
    ensures s.ourFin.Some?
    ensures var t := OnLastAck(s, g);
            && (t.state == Closed <==>
                  Acceptable(s, g) && (g.rst || (!g.syn && g.ack && g.ackNum == Add(s.ourFin.value, 1))))
            && (t.state == Closed ==> t.closedFlag && t.resetFlag == s.resetFlag)
  {
    hide Inv, Screen, Acceptable, Add;
    OurFinIs(s);
    ScreenIff(s, g);
  }

  /** CLOSE-WAIT and TIME-WAIT are left on an acceptable reset only. */
  lemma WaitingLeads(s: Tcb, g: Segment, n: nat)
    requires Bounded(s)
    ensures s.state == CloseWait ==> (OnCloseWait(s, g, n).state == Closed <==> Acceptable(s, g) && g.rst)
    ensures s.state == TimeWait ==> (OnTimeWait(s, g).state == Closed <==> Acceptable(s, g) && g.rst)
  {
    hide ScreenAck, Bounded, Passes, AckFits, Acceptable, Outstanding, CheckAck;
    ScreenAckIff(s, g);
    CheckAckIff(s, g);
    ResetIff(s, g);
  }

  /**
   * In every run, a segment that closes a connection in LAST-ACK is an acceptable reset or
   * acknowledges our FIN, which was sent before it arrived.
   */
  lemma LastAckMeaning(s: Tcb, es: seq<Event>, g: Segment, m: Merged, n: nat)
    requires IsNew(s) && Run(s, es).state == LastAck && Next(Run(s, es), Arrive(g, m, n)).state == Closed
    ensures var t := Run(s, es);
            && t.ourFin.Some? && Acceptable(t, g)
            && (g.rst || (g.ack && g.ackNum == Add(t.ourFin.value, 1) && t.mark <= |t.seen|))
  {
    hide Run, Inv, Acceptable, Add, OnLastAck;
    var t := Run(s, es);
    NewInv(s, false);
    RunInv(s, es, false);
    SeenInv(t, g, false);
    var t1 := t.(seen := t.seen + [g]);
    LastAckLeads(t1, g);
    SameChecks(t, t1, g);
    MarkInv(t);
  }

  lemma MarkInv(s: Tcb)
    requires Inv(s, false)
    ensures s.mark <= |s.seen|
  {
    hide Bounded, FinAcked;
  }

  // ---------------------------------------------------------------- answers

  /** An unacceptable segment changes nothing and is answered with an acknowledgement, unless it is a reset. */
  lemma Unacceptable(s: Tcb, g: Segment, m: Merged, n: nat)
    requires s.state != Closed && s.state != SynSent && !Acceptable(s, g)
    ensures Handle(s, g, m, n)
         == if g.rst then s else s.(out := s.out + [Reply(SendAck, s.sndNxt, s.rcvNxt)])
  {
    hide Acceptable;
  }

  /** A SYN in the window is answered with a reset, and otherwise ignored. */
  lemma SynInWindow(s: Tcb, g: Segment, m: Merged, n: nat)
    requires s.state != Closed && s.state != SynSent && Acceptable(s, g) && !g.rst && g.syn
    ensures Handle(s, g, m, n)
         == s.(out := s.out + [if g.ack then Reply(SendRst, g.ackNum, 0)
                               else Reply(SendRstAck, 0, Add(g.seqNum, g.length + 1))])
  {
    hide Acceptable, Add;
  }

  /** Consuming the FIN moves RCV.NXT behind it, and the new value is acknowledged. */
  lemma FinAnswered(s: Tcb)
    ensures var t := TakeFin(s);
            t.rcvNxt == Add(s.rcvNxt, 1) && t.out == s.out + [Reply(SendAck, s.sndNxt, Add(s.rcvNxt, 1))]
  {
    hide Add;
  }

  /** In TIME-WAIT a retransmitted FIN is acknowledged again, and nothing else is. */
  lemma FinAnsweredAgain(s: Tcb, g: Segment)
    requires s.state == TimeWait && Passes(s, g)
    ensures OnTimeWait(s, g) == if g.ack && g.fin then s.(out := s.out + [Reply(SendAck, s.sndNxt, s.rcvNxt)]) else s
  {
    hide Acceptable;
  }

  /** During the handshake a segment that acknowledges anything but our SYN is answered with a reset. */
  lemma WrongAck(s: Tcb, g: Segment, m: Merged, n: nat)
    requires g.ack && g.ackNum != s.sndNxt
    ensures s.state == SynSent ==>
              Handle(s, g, m, n) == if g.rst then s else s.(out := s.out + [Reply(SendRst, g.ackNum, 0)])
    ensures s.state == SynReceived && Passes(s, g) ==>
              Handle(s, g, m, n) == s.(out := s.out + [Reply(SendRst, g.ackNum, 0)])
  {
    hide Acceptable;
  }

  // ---------------------------------------------------------------- whole exchanges

  /** Connecting to a peer that answers with SYN and ACK establishes the connection. */
  lemma ActiveOpen(s: Tcb, iss: uint32, wnd: uint16, seqNum: uint32, m: Merged, n: nat)
    requires s.state == Closed && s.call == NoCall
    ensures var t := Next(s, ConnectCall(iss, wnd));
            var u := Next(t, Arrive(Segment(seqNum, Add(iss, 1), 0, false, true, false, true), m, n));
            && t.state == SynSent && t.out == s.out + [Reply(SendSyn, iss, 0)]
            && u.state == Established && u.sndUna == u.sndNxt == Add(iss, 1) && u.rcvNxt == Add(seqNum, 1)
            && u.out == t.out + [Reply(SendAck, Add(iss, 1), Add(seqNum, 1))]
  {
  }

  /** Accepting a connection whose peer acknowledges our SYN establishes it. */
  lemma PassiveOpen(s: Tcb, iss: uint32, irs: uint32, wnd: uint16, m: Merged)
    requires s.state == Closed && s.call == NoCall
    ensures var t := Next(s, AcceptCall(iss, irs, wnd));
            var u := Next(t, Arrive(Segment(Add(irs, 1), Add(iss, 1), 0, false, false, false, true), m, 0));
            && t.state == SynReceived && t.out == s.out + [Reply(SendSynAck, iss, Add(irs, 1))]
            && u.state == Established && u.sndUna == u.sndNxt == Add(iss, 1) && u.rcvNxt == Add(irs, 1)
  {
    hide Add, OnSynReceived;
    var t := Next(s, AcceptCall(iss, irs, wnd));
    AcceptInv(s, iss, irs, wnd, false);
    var g := Segment(Add(irs, 1), Add(iss, 1), 0, false, false, false, true);
    HandshakeEnds(t.(seen := t.seen + [g]), g, m, irs, iss);
  }

  lemma HandshakeEnds(s: Tcb, g: Segment, m: Merged, irs: uint32, iss: uint32)
    requires s.state == SynReceived && s.rcvNxt == Add(irs, 1) && s.sndUna == iss && s.sndNxt == Add(iss, 1)
    requires s.ourFin.None? && g == Segment(Add(irs, 1), Add(iss, 1), 0, false, false, false, true)
    ensures var u := OnSynReceived(s, g, m, 0);
            u.state == Established && u.sndUna == u.sndNxt == Add(iss, 1) && u.rcvNxt == Add(irs, 1)
  {
    AtWindowStart(s, g);
    var e := ChangeState(s, Established);
    AtWindowStart(e, g);
    assert Bounded(e);
    CheckAckIff(e, g);
  }

  lemma AtWindowStart(s: Tcb, g: Segment)
    requires g.seqNum == s.rcvNxt && g.length == 0
    ensures Acceptable(s, g)
  {
    AcceptableIff(s, g);
  }

  /** A pure acknowledgement of everything. */
  function FullAck(s: Tcb): (g: Segment)
  {
    Segment(s.rcvNxt, s.sndNxt, 0, false, false, false, true)
  }

  /** Closing first: our FIN, its acknowledgement, the peer's FIN. */
  lemma ActiveCloseRun(s: Tcb)
    requires Inv(s, false) && s.state == Established && s.call == NoCall
    ensures var t0 := Next(s, ShutdownCall);
            var t1 := Next(t0, ShutdownFlushed);
            var t2 := Next(t1, Arrive(FullAck(t1), Unqueued, 0));
            var t3 := Next(t2, Arrive(NextFin(t2), Unqueued, 0));
            && t1.state == FinWait1 && t1.ourFin == Some(s.sndNxt)
            && t2.state == FinWait2 && t3.state == TimeWait && t3.fins == 1
            && Next(t3, TimerGivesUp).state == Closed && Next(t3, TimerGivesUp).closedFlag
  {
    hide Inv, OnFinWait1, OnFinWait2, ShutdownFin, Handle;
    var t0 := Next(s, ShutdownCall);
    NextInv(s, ShutdownCall, false);
    var t1 := Next(t0, ShutdownFlushed);
    NextInv(t0, ShutdownFlushed, false);
    Flushed(s, t0);
    var g := FullAck(t1);
    var t2 := Next(t1, Arrive(g, Unqueued, 0));
    NextInv(t1, Arrive(g, Unqueued, 0), false);
    OurFinAcked(t1, g);
    var f := NextFin(t2);
    FinComes(t2, f);
  }

  lemma Flushed(s: Tcb, t0: Tcb)
    requires Inv(s, false) && s.state == Established && t0 == s.(call := ActiveClose)
    ensures var t1 := ShutdownFin(t0); t1.state == FinWait1 && t1.ourFin == Some(s.sndNxt) && t1.fins == 0
  {
    hide Bounded, Add;
  }

  lemma OurFinAcked(s: Tcb, g: Segment)
    requires Inv(s, false) && s.state == FinWait1 && s.fins == 0 && g == FullAck(s)
    ensures var t := Next(s, Arrive(g, Unqueued, 0)); t.state == FinWait2 && t.fins == 0
  {
    hide Inv, OnFinWait1, Acceptable, AckFits;
    var s1 := s.(seen := s.seen + [g]);
    SeenInv(s, g, false);
    OurFinIs(s1);
    AtWindowStart(s1, g);
    BoundedInv(s1, s1, false);
    FullAckFits(s1, g);
    FinWait1Leads(s1, g, Unqueued);
    assert !BringsFin(s1, g, Unqueued);
    FinWait1Quiet(s1, g);
  }

  lemma FinWait1Quiet(s: Tcb, g: Segment)
    requires !g.fin && g.length == 0
    ensures OnFinWait1(s, g, Unqueued).fins == s.fins
  {
    hide ScreenAck, Screen;
    ScreenState(s, g);
  }

  lemma FinComes(s: Tcb, g: Segment)
    requires Inv(s, false) && s.state == FinWait2 && s.fins == 0 && g == NextFin(s)
    ensures var t := Next(s, Arrive(g, Unqueued, 0));
            && t.state == TimeWait && t.fins == 1
            && Next(t, TimerGivesUp).state == Closed && Next(t, TimerGivesUp).closedFlag
  {
    hide Inv, OnFinWait2, Acceptable, AckFits;
    var s1 := s.(seen := s.seen + [g]);
    SeenInv(s, g, false);
    AtWindowStart(s1, g);
    BoundedInv(s1, s1, false);
    FullAckFits(s1, g);
    FinWait2Goes(s1, g, Unqueued);
    PureFin(s1, g);
    NextInv(s, Arrive(g, Unqueued, 0), false);
    FinWait2Fins(s1, g);
  }

  lemma PureFin(s: Tcb, g: Segment)
    requires g.fin && g.length == 0 && g.seqNum == s.rcvNxt
    ensures BringsFin(s, g, Unqueued)
  {
  }

  lemma FinWait2Fins(s: Tcb, g: Segment)
    requires s.state == FinWait2 && OnFinWait2(s, g, Unqueued).state == TimeWait && g.length == 0 && Bounded(s)
    ensures OnFinWait2(s, g, Unqueued).fins == s.fins + 1
  {
    hide ScreenAck, Bounded, Add;
    ScreenAckMeaning(s, g);
  }

  lemma PassiveFlushed(s: Tcb)
    requires s.call == PassiveClose
    ensures var t := ShutdownFin(s); t.state == LastAck && t.ourFin == Some(s.sndNxt) && t.resetFlag == s.resetFlag
  {
    hide Add;
  }

  /** Closing second: our FIN after the peer's, and its acknowledgement. */
  lemma PassiveCloseRun(s: Tcb, m: Merged, n: nat)
    requires Inv(s, false) && s.state == CloseWait && s.call == NoCall
    ensures var t1 := Next(Next(s, ShutdownCall), ShutdownFlushed);
            var t2 := Next(t1, Arrive(FullAck(t1), m, n));
            && t1.state == LastAck && t1.ourFin == Some(s.sndNxt)
            && t2.state == Closed && t2.closedFlag && t2.resetFlag == s.resetFlag
  {
    hide Inv, OnLastAck, Acceptable, Add, ShutdownFin;
    var t0 := Next(s, ShutdownCall);
    NextInv(s, ShutdownCall, false);
    var t1 := Next(t0, ShutdownFlushed);
    NextInv(t0, ShutdownFlushed, false);
    PassiveFlushed(t0);
    var g := FullAck(t1);
    SeenInv(t1, g, false);
    var t := t1.(seen := t1.seen + [g]);
    OurFinIs(t);
    AtWindowStart(t, g);
    LastAckLeads(t, g);
  }

  // ---------------------------------------------------------------- the end of a connection

  /** A connection that ends in LAST-ACK or TIME-WAIT was closed properly, any other was reset. */
  lemma CloseFlags(s: Tcb)
    ensures var t := ChangeState(s, Closed);
            && t.state == Closed
            && (t.closedFlag <==> s.closedFlag || s.state == LastAck || s.state == TimeWait)
            && (t.resetFlag <==> s.resetFlag || !(s.state == LastAck || s.state == TimeWait))
  {
  }

  /** Aborting gives up the socket; a peer that is still in the connection gets a reset. */
  lemma AbortMeaning(s: Tcb)
    ensures var t := Next(s, AbortCall);
            var tells := s.state == SynReceived || s.state == Established || s.state == FinWait1 ||
                         s.state == FinWait2 || s.state == CloseWait;
            if s.state == TimeWait then t == s.(owned := false)
            else t.state == Closed && !t.used && t.out == s.out + if tells then [Reply(SendRst, s.sndNxt, 0)] else []
  {
    hide Add;
  }

  /** Text is sent in ESTABLISHED and CLOSE-WAIT, as long as it fits into the send buffer. */
  lemma TextSent(s: Tcb, n: nat)
    requires Bounded(s)
    ensures var t := Next(s, SendData(n));
            var sends := (s.state == Established || s.state == CloseWait) && Outstanding(s) + n <= TCP_MAX_TX_BUFFER_SIZE;
            && t == s.(sndNxt := if sends then Add(s.sndNxt, n) else s.sndNxt)
            && Outstanding(t) == Outstanding(s) + if sends then n else 0
  {
    if Outstanding(s) + n <= TCP_MAX_TX_BUFFER_SIZE {
      SentMore(s.sndNxt, s.sndUna, n);
    }
  }

  lemma SentMore(a: uint32, b: uint32, n: nat)
    requires Ahead(a, b) + n < MODULUS
    ensures Ahead(Add(a, n), b) == Ahead(a, b) + n
  {
  }

  // ---------------------------------------------------------------- the life of a socket

  /**
   * A connection has a socket, and a socket that its user gave up is kept for the rest of TIME-WAIT
   * only.
   */
  ghost predicate Accounted(s: Tcb)
  {
    (s.state != Closed ==> s.used) && (s.used && !s.owned ==> s.state == TimeWait)
  }

  /** The FIN of a `tcpShutdown` whose socket was given up during the wait. */
  predicate ClosesGivenUp(s: Tcb, e: Event)
  {
    e.ShutdownFlushed? && s.call != NoCall && !(s.used && s.owned)
  }

  /**
   * An event loses a socket, so that a connection has none or nobody will release it, if and only if
   * it is the FIN of a `tcpShutdown` whose socket was given up during the wait.
   */
  lemma NextAccounted(s: Tcb, e: Event)
    requires Accounted(s)
    ensures Accounted(Next(s, e)) <==> !ClosesGivenUp(s, e)
  {
    hide Handle, Add, Outstanding, Acceptable, OnTimeWait;
    if e.Arrive? {
      ArriveAccounted(s.(seen := s.seen + [e.segment]), e.segment, e.merged, e.push);
    }
  }

  lemma ArriveAccounted(s: Tcb, g: Segment, m: Merged, n: nat)
    requires Accounted(s)
    ensures Accounted(Handle(s, g, m, n))
  {
    hide Acceptable, OnSynSent, OnSynReceived, OnEstablished, OnCloseWait, OnLastAck, OnFinWait1, OnFinWait2, OnClosing,
      OnTimeWait;
    if s.state == TimeWait {
      TimeWaitEnds(s, g);
    } else {
      OwnerStays(s, g, m, n);
    }
  }

  lemma {:induction false} RunAccounted(s: Tcb, es: seq<Event>)
    requires Accounted(s)
    requires forall i | 0 <= i < |es| :: !ClosesGivenUp(Run(s, es[..i]), es[i])
    ensures Accounted(Run(s, es))
    decreases |es|
  {
    hide Next, Accounted, ClosesGivenUp;
    if es != [] {
      var init := es[..|es| - 1];
      assert forall i | 0 <= i < |init| :: init[..i] == es[..i];
      RunAccounted(s, init);
      assert !ClosesGivenUp(Run(s, init), es[|es| - 1]);
      NextAccounted(Run(s, init), es[|es| - 1]);
    }
  }

  /** Aborting an open connection while `tcpShutdown` waits leaves FIN-WAIT-1 without a socket. */
  lemma AbortedShutdown(s: Tcb)
    requires s.state == Established && s.call == NoCall
    ensures var t := Next(Next(Next(s, ShutdownCall), AbortCall), ShutdownFlushed);
            t.state == FinWait1 && !t.used && !Accounted(t)
  {
    hide Add;
  }

  ghost predicate SameOwner(s: Tcb, t: Tcb)
  {
    t.owned == s.owned && t.used == s.used
  }

  /** Segments in other states than TIME-WAIT leave the ownership alone. */
  lemma OwnerStays(s: Tcb, g: Segment, m: Merged, n: nat)
    requires s.state != TimeWait
    ensures SameOwner(s, Handle(s, g, m, n)) && (s.state == Closed ==> Handle(s, g, m, n) == s)
  {
    hide Screen, ScreenAck, OnSynSent, OnEstablished, OnFinWait1, OnFinWait2, Push;
    ScreenOwner(s, g);
    PushOwner(s, n);
    PushOwner(ScreenAck(s, g).tcb, n);
    SynSentOwner(s, g);
    EstablishedOwner(s, g, m, n);
    EstablishedOwner(ChangeState(Screen(s, g).tcb, Established), g, m, n);
    FinWaitOwner(s, g, m);
  }

  lemma ScreenOwner(s: Tcb, g: Segment)
    ensures SameOwner(s, Screen(s, g).tcb) && SameOwner(s, ScreenAck(s, g).tcb)
  {
    hide Acceptable, CmpSeq, Add;
  }

  lemma PushOwner(s: Tcb, n: nat)
    ensures SameOwner(s, Push(s, n))
  {
    hide Add, Outstanding;
  }

  lemma TextOwner(s: Tcb, g: Segment, m: Merged)
    ensures SameOwner(s, TakeText(s, g, m)) && SameOwner(s, TakeFin(s))
  {
    hide Add, Gain;
  }

  lemma SynSentOwner(s: Tcb, g: Segment)
    ensures SameOwner(s, OnSynSent(s, g))
  {
    hide Add, CmpSeq;
  }

  lemma EstablishedOwner(s: Tcb, g: Segment, m: Merged, n: nat)
    ensures SameOwner(s, OnEstablished(s, g, m, n))
  {
    hide ScreenAck, TakeText, TakeFin, AtFin, Push;
    ScreenOwner(s, g);
    var s1 := ScreenAck(s, g).tcb;
    TextOwner(s1, g, m);
    var s2 := TakeText(s1, g, m);
    TextOwner(s2, g, m);
    PushOwner(if AtFin(s2, g) then ChangeState(TakeFin(s2), CloseWait) else s2, n);
  }

  lemma FinWaitOwner(s: Tcb, g: Segment, m: Merged)
    ensures SameOwner(s, OnFinWait1(s, g, m)) && SameOwner(s, OnFinWait2(s, g, m))
  {
    hide ScreenAck, TakeText, TakeFin, AtFin;
    ScreenOwner(s, g);
    var s1 := ScreenAck(s, g).tcb;
    TextOwner(s1, g, m);
    TextOwner(ChangeState(s1, FinWait2), g, m);
    TextOwner(TakeText(s1, g, m), g, m);
    TextOwner(TakeText(ChangeState(s1, FinWait2), g, m), g, m);
  }

  /** The end of TIME-WAIT, by its timer or by a reset, releases the socket if its user gave it up. */
  lemma TimeWaitEnds(s: Tcb, g: Segment)
    requires s.state == TimeWait
    ensures var t := Next(s, TimerGivesUp);
            t.state == Closed && t.closedFlag && t.owned == s.owned && t.used == (s.used && s.owned)
    ensures var t := OnTimeWait(s, g);
            && t.owned == s.owned && t.state == (if Acceptable(s, g) && g.rst then Closed else TimeWait)
            && t.used == (s.used && (s.owned || t.state != Closed))
  {
    hide Acceptable, Add;
  }

  /** In any other state a timer that gives up resets the connection and leaves the socket to its user. */
  lemma OthersGiveUp(s: Tcb)
    requires s.state != TimeWait && s.state != Closed
    ensures var t := Next(s, TimerGivesUp); t.state == Closed && t.used == s.used && t.owned == s.owned
  {
  }
}
