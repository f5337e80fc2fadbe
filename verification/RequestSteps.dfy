/**
 * What exactly each event does to a request: which timer starts a transmission and which ends the
 * request, what a received message leads to, and what a cancellation leaves.
 */
module RequestSteps {
  import opened Bytes
  import opened Observe
  import opened ClientRequest
  import opened RequestRuns

  /** The first state that the step enters. */
  predicate Begins(r: Request, e: Event, s: Status)
  {
    Entered(r, e) != [] && Entered(r, e)[0] == s
  }

  // ---------------------------------------------------------------- the clock

  /** A timer has run out when the true time has reached its end, whether or not the clock wrapped. */
  lemma ElapsedMeaning(now: nat, start: nat, duration: uint32)
    requires start + duration <= now + 0x8000_0000 && now < start + duration + 0x8000_0000
    ensures Elapsed(now % CLOCK, start % CLOCK, duration) <==> start + duration <= now
  {
    var a, b := now / CLOCK, start / CLOCK;
    var x := start % CLOCK + duration;
    var c := x / CLOCK;
    var d := now - start - duration;
    assert now % CLOCK - x % CLOCK == d + CLOCK * (b + c - a);
    if d >= 0 {
      DivMod(now % CLOCK - x % CLOCK, CLOCK, b + c - a, d);
    } else {
      DivMod(now % CLOCK - x % CLOCK, CLOCK, b + c - a - 1, d + CLOCK);
    }
  }

  /** The overall time limit of the request is reached. */
  predicate IsOver(r: Request, time: uint32)
  {
    Elapsed(time, r.startTime, r.timeout)
  }

  /** The retransmission timer has run out. */
  predicate IsDue(r: Request, time: uint32)
  {
    Elapsed(time, r.retransmitStartTime, r.retransmitTimeout)
  }

  // ---------------------------------------------------------------- timer events

  lemma ChangeBegins(r: Request, e: Event, r1: Request, s: Status, reaction: Reaction)
    requires Next(r, e) == ChangeState(r1, s, reaction) && r1.trail == r.trail
    ensures Begins(r, e, s) && forall s' :: Begins(r, e, s') ==> s' == s
  {
    hide ChangeState, Next;
    ChangeStateAdds(r1, s, reaction);
    assert Next(r, e).trail[|r.trail|] == s;
    assert Entered(r, e)[0] == s;
  }

  lemma StaysBegins(r: Request, e: Event)
    requires Next(r, e) == r
    ensures Entered(r, e) == [] && forall s :: !Begins(r, e, s)
  {
    hide Next;
  }

  /**
   * In RECEIVE a tick starts another transmission if and only if the request is confirmable, its
   * timer but not its time limit has run out, and fewer than four were sent. It ends the request if
   * and only if the time limit has run out, or the timer of the fourth transmission.
   */
  lemma TickInReceive(r: Request, time: uint32, sentAt: uint32, u: nat, reaction: Reaction)
    requires r.state == Receive
    ensures var e := Tick(time, sentAt, u, reaction);
            && (Begins(r, e, Transmit) <==>
                  !IsOver(r, time) && IsDue(r, time) && r.kind == CON && r.retransmitCount < 4)
            && (Begins(r, e, Expired) <==>
                  IsOver(r, time) || (IsDue(r, time) && r.kind == CON && r.retransmitCount >= 4))
            && (!IsOver(r, time) && (!IsDue(r, time) || r.kind != CON) ==> Next(r, e) == r)
  {
    hide Elapsed, ChangeState, Begins;
    var e := Tick(time, sentAt, u, reaction);
    if IsOver(r, time) {
      ChangeBegins(r, e, r, Expired, reaction);
    } else if IsDue(r, time) && r.kind == CON {
      if r.retransmitCount < 4 {
        ChangeBegins(r, e, r, Transmit, reaction);
      } else {
        ChangeBegins(r, e, r, Expired, reaction);
      }
    } else {
      StaysBegins(r, e);
    }
  }

  /** While a separate response is awaited only the time limit counts. */
  lemma TickInSeparate(r: Request, time: uint32, sentAt: uint32, u: nat, reaction: Reaction)
    requires r.state == Separate
    ensures var e := Tick(time, sentAt, u, reaction);
            && (Begins(r, e, Expired) <==> IsOver(r, time))
            && (!IsOver(r, time) ==> Next(r, e) == r)
  {
    hide Elapsed, ChangeState, Begins;
    var e := Tick(time, sentAt, u, reaction);
    if IsOver(r, time) {
      ChangeBegins(r, e, r, Expired, reaction);
    } else {
      StaysBegins(r, e);
    }
  }

  /** In OBSERVE the timer, and nothing else, starts a new registration, with a new identifier. */
  lemma TickInObserving(r: Request, time: uint32, sentAt: uint32, u: nat, reaction: Reaction)
    requires r.state == Observing
    ensures var e := Tick(time, sentAt, u, reaction);
            && (Begins(r, e, Transmit) <==> IsDue(r, time))
            && (IsDue(r, time) ==>
                  Next(r, e).state == Transmit && Next(r, e).gen == r.gen + 1 && Next(r, e).mid == r.nextMid
                  && Next(r, e).retransmitCount == 0 && Next(r, e).token == r.token && Next(r, e).observe == r.observe)
            && (!IsDue(r, time) ==> Next(r, e) == r)
  {
    hide Elapsed, Begins;
    var e := Tick(time, sentAt, u, reaction);
    if IsDue(r, time) {
      ChangeBegins(r, e, NewMid(r).(retransmitCount := 0), Transmit, reaction);
    } else {
      StaysBegins(r, e);
    }
  }

  /**
   * A tick in TRANSMIT sends the message once and then awaits the response. The first transmission
   * starts the time limit and draws the timer, each later one doubles the timer.
   */
  lemma TickInTransmit(r: Request, time: uint32, sentAt: uint32, u: nat, reaction: Reaction)
    requires r.state == Transmit
    ensures var t := Next(r, Tick(time, sentAt, u, reaction));
            && t.state == Receive && t.sent == r.sent + [Mail(r)]
            && t.retransmitCount == r.retransmitCount + 1 && t.retransmitStartTime == sentAt
            && (r.retransmitCount == 0 ==> t.startTime == sentAt && 2000 <= t.retransmitTimeout <= 3000)
            && (r.retransmitCount > 0 ==>
                  t.startTime == r.startTime && t.retransmitTimeout == 2 * r.retransmitTimeout % CLOCK)
            && t.mid == r.mid && t.gen == r.gen && t.kind == r.kind && t.token == r.token && t.timeout == r.timeout
  {
    hide RandRange;
  }

  /** A retransmission: the same message goes out again, with the same identifier. */
  lemma Retransmits(r: Request, time: uint32, sentAt: uint32, u: nat)
    requires r.state == Receive && r.kind == CON && !IsOver(r, time) && IsDue(r, time) && r.retransmitCount < 4
    ensures var t := Next(Next(r, Tick(time, sentAt, u, Nothing)), Tick(time, sentAt, u, Nothing));
            && t.state == Receive && t.sent == r.sent + [Mail(r)] && t.retransmitCount == r.retransmitCount + 1
            && (r.retransmitCount > 0 ==> t.retransmitTimeout == 2 * r.retransmitTimeout % CLOCK)
  {
    hide RandRange, Elapsed;
    var r1 := Next(r, Tick(time, sentAt, u, Nothing));
    assert r1 == r.(state := Transmit, trail := r.trail + [Transmit]);
    TickInTransmit(r1, time, sentAt, u, Nothing);
  }

  // ---------------------------------------------------------------- what is sent

  lemma {:induction false} ReactSent(r: Request, reaction: Reaction)
    ensures React(r, reaction).sent == r.sent
    decreases reaction, 0
  {
    hide Act;
    if reaction.Do? {
      ActSent(r, reaction.action);
      ReactSent(Act(r, reaction.action), reaction.rest);
    }
  }

  lemma {:induction false} ActSent(r: Request, action: Action)
    ensures Act(r, action).sent == r.sent
    decreases action, 0
  {
    hide CancelUsed;
    if action.CancelIt? {
      CancelUsedSent(r, action.fits, action.reaction);
    }
  }

  lemma {:induction false} ChangeStateSent(r: Request, s: Status, reaction: Reaction)
    ensures ChangeState(r, s, reaction).sent == r.sent
    decreases reaction, 1
  {
    hide React;
    ReactSent(r.(state := s, trail := r.trail + [s]), reaction);
  }

  lemma {:induction false} CancelUsedSent(r: Request, fits: bool, reaction: Reaction)
    ensures CancelUsed(r, fits, reaction).sent == r.sent
    decreases reaction, 2
  {
    hide ChangeState;
    ChangeStateSent(NewMid(r).(observe := Some(1), retransmitCount := 0), Transmit, reaction);
    ChangeStateSent(if r.observe.Some? then NewMid(r) else r, Canceled, reaction);
  }

  lemma ResponseSent(r: Request, m: Response, time: uint32, u: nat, a: Reaction, b: Reaction)
    ensures ProcessResponse(r, m, time, u, a, b).sent == r.sent
  {
    hide ChangeState, ProcessNotification;
    ChangeStateSent(r, Separate, a);
    ChangeStateSent(r, Reset, a);
    ChangeStateSent(r, Canceled, a);
    ChangeStateSent(r, Done, a);
    NoticeSent(r, m, time, u, a, b);
  }

  lemma NoticeSent(r: Request, m: Response, time: uint32, u: nat, a: Reaction, b: Reaction)
    ensures ProcessNotification(r, m, time, u, a, b).sent == r.sent
  {
    hide ChangeState, RandRange, IsFresh;
    ChangeStateSent(r, Observing, a);
    ChangeStateSent(ChangeState(r, Observing, a), Canceled, b);
    if m.observe.Some? {
      var age := match m.maxAge case Some(x) => x case None => COAP_DEFAULT_MAX_AGE;
      var wait := age * 1000 + RandRange(u, COAP_CLIENT_RAND_DELAY_MIN, COAP_CLIENT_RAND_DELAY_MAX);
      ChangeStateSent(r.(observeSeqNum := m.observe.value, retransmitStartTime := time,
                         retransmitTimeout := wait % CLOCK), Observing, a);
    }
  }

  lemma EventsSent(r: Request, time: uint32, sentAt: uint32, u: nat, reaction: Reaction)
    ensures ProcessEvents(r, time, sentAt, u, reaction).sent
         == if r.state == Transmit then r.sent + [Mail(r)] else r.sent
  {
    hide ChangeState, RandRange, Elapsed;
    ChangeStateSent(Transmitted(r, sentAt, u), Receive, reaction);
    ChangeStateSent(r, Expired, reaction);
    ChangeStateSent(r, Transmit, reaction);
    ChangeStateSent(NewMid(r).(retransmitCount := 0), Transmit, reaction);
  }

  /** A datagram of the request is sent by a tick in TRANSMIT and by nothing else, one at a time. */
  lemma OneDatagram(r: Request, e: Event)
    ensures Next(r, e).sent == if e.Tick? && r.state == Transmit then r.sent + [Mail(r)] else r.sent
  {
    hide ProcessEvents, ProcessResponse, CancelUsed, Matches, Mail;
    match e {
      case Tick(time, sentAt, u, reaction) => EventsSent(r, time, sentAt, u, reaction);
      case Arrive(m, time, u, a, b) => ResponseSent(r, m, time, u, a, b);
      case CancelCall(fits, reaction) => CancelUsedSent(r, fits, reaction);
      case _ =>
    }
  }

  /**
   * Over every run: a request that ends before its time limit for want of an answer is confirmable,
   * and its message was sent exactly four times.
   */
  lemma ExpiredEarly(r: Request, es: seq<Event>, e: Event)
    requires IsNew(r) && e.Tick? && Begins(Run(r, es), e, Expired) && !IsOver(Run(r, es), e.time)
    ensures var t := Run(r, es);
            t.kind == CON && t.state == Receive && t.retransmitCount == 4 && Sends(t.sent, t.gen) == 4
  {
    hide Run, Bounded, Sends, Numbered, IsCurrent, Elapsed, Begins;
    var t := Run(r, es);
    RunInv(r, es);
    ExpiredWhere(t, e);
    TickInReceive(t, e.time, e.sentAt, e.u, e.reaction);
  }

  lemma ExpiredWhere(r: Request, e: Event)
    requires e.Tick? && Begins(r, e, Expired) && !IsOver(r, e.time)
    ensures r.state == Receive
  {
    hide Elapsed, ChangeState, Begins, RandRange;
    match r.state {
      case Receive =>
      case Transmit => ChangeBegins(r, e, Transmitted(r, e.sentAt, e.u), Receive, e.reaction);
      case Separate => TickInSeparate(r, e.time, e.sentAt, e.u, e.reaction);
      case Observing =>
        if IsDue(r, e.time) {
          ChangeBegins(r, e, NewMid(r).(retransmitCount := 0), Transmit, e.reaction);
        } else {
          StaysBegins(r, e);
        }
      case _ => StaysBegins(r, e);
    }
  }

  /**
   * Over every run in which the context generates at most 2^16 identifiers: datagrams with the same
   * identifier carry the same message, so each identifier goes out at most four times.
   */
  lemma MessageIds(r: Request, es: seq<Event>, i: nat, j: nat)
    requires IsNew(r) && Run(r, es).counter.drawn <= 0x1_0000
    requires i < |Run(r, es).sent| && j < |Run(r, es).sent| && Run(r, es).sent[i].mid == Run(r, es).sent[j].mid
    ensures Run(r, es).sent[i].gen == Run(r, es).sent[j].gen
  {
    hide Run, Bounded, Sends, IdOf;
    var t := Run(r, es);
    RunInv(r, es);
    SameDraw(t.counter.base, t.sent[i].draw, t.sent[j].draw);
  }

  lemma SameDraw(base: uint16, a: nat, b: nat)
    requires a < 0x1_0000 && b < 0x1_0000 && IdOf(base, a) == IdOf(base, b)
    ensures a == b
  {
  }

  // ---------------------------------------------------------------- received messages

  /**
   * A response to the request: a message with its token, or in an acknowledgement of a confirmable
   * request with its token and its identifier (section 5.3.2 of RFC 7252).
   */
  predicate IsResponse(r: Request, m: Response)
  {
    && m.token == r.token
    && match m.kind
       case CON => r.state == Receive || r.state == Separate || r.state == Observing
       case NON => r.state == Receive || r.state == Separate || r.state == Observing
       case ACK => r.state == Receive && r.kind == CON && m.mid == r.mid && m.code != 0
       case RST => false
  }

  /** An Empty acknowledgement of a confirmable request. */
  predicate IsReceipt(r: Request, m: Response)
  {
    m.kind == ACK && m.code == 0 && r.state == Receive && r.kind == CON && m.mid == r.mid
  }

  lemma MatchesIff(r: Request, m: Response)
    requires m.kind != RST
    ensures Matches(r, m) <==> IsResponse(r, m) || IsReceipt(r, m)
    ensures !(IsResponse(r, m) && m.kind == ACK && m.code == 0)
  {
  }

  /** What a step that changes the state first enters is among the states entered. */
  lemma FirstEntered(r: Request, e: Event, r1: Request, s: Status, reaction: Reaction)
    requires Next(r, e) == ChangeState(r1, s, reaction) && r1.trail == r.trail
    ensures s in Entered(r, e)
  {
    hide Next, ChangeState, Entered, Begins;
    ChangeBegins(r, e, r1, s, reaction);
    BeginsIn(r, e, s);
  }

  lemma BeginsIn(r: Request, e: Event, s: Status)
    requires Begins(r, e, s)
    ensures s in Entered(r, e)
  {
    hide Entered;
  }

  /** DONE is entered if and only if a response arrives for a request without Observe option. */
  lemma DoneEntered(r: Request, e: Event)
    ensures Done in Entered(r, e) <==> e.Arrive? && IsResponse(r, e.message) && r.observe.None?
  {
    hide Next, Entered, Matches, IsNews, IsResponse, IsReceipt, ChangeState, ProcessNotification;
    if Done in Entered(r, e) {
      EnteredBy(r, e, Done);
      MatchesIff(r, e.message);
      ReceiptOnly(r, e.message);
    }
    if e.Arrive? && IsResponse(r, e.message) && r.observe.None? {
      ResponseStep(r, e);
      FirstEntered(r, e, r, Done, e.first);
    }
  }

  lemma ReceiptOnly(r: Request, m: Response)
    ensures IsReceipt(r, m) ==> m.kind == ACK && m.code == CODE_EMPTY
  {
  }

  /** What the arrival of a response amounts to. */
  lemma ResponseStep(r: Request, e: Event)
    requires e.Arrive? && IsResponse(r, e.message)
    ensures r.observe.None? ==> Next(r, e) == ChangeState(r, Done, e.first)
    ensures r.observe.Some? && r.observe.value != 0 ==> Next(r, e) == ChangeState(r, Canceled, e.first)
    ensures r.observe == Some(0) && e.message.observe.None? ==>
              Next(r, e) == ChangeState(ChangeState(r, Observing, e.first), Canceled, e.second)
    ensures r.observe == Some(0) && e.message.observe.Some? ==>
              Next(r, e) == ProcessNotification(r, e.message, e.time, e.u, e.first, e.second)
  {
    hide ChangeState, IsFresh, RandRange;
    MatchesIff(r, e.message);
  }

  /** SEPARATE is entered if and only if an Empty acknowledgement of the request arrives. */
  lemma SeparateEntered(r: Request, e: Event)
    ensures Separate in Entered(r, e) <==> e.Arrive? && IsReceipt(r, e.message)
  {
    hide Next, Entered, Matches, IsNews, ChangeState;
    if Separate in Entered(r, e) {
      EnteredBy(r, e, Separate);
      MatchesIff(r, e.message);
    }
    if e.Arrive? && IsReceipt(r, e.message) {
      MatchesIff(r, e.message);
      ReceiptStep(r, e);
      FirstEntered(r, e, r, Separate, e.first);
    }
  }

  lemma ReceiptStep(r: Request, e: Event)
    requires e.Arrive? && IsReceipt(r, e.message)
    ensures Next(r, e) == ChangeState(r, Separate, e.first)
  {
    hide ChangeState, ProcessNotification;
  }

  /** OBSERVE is entered if and only if a notification that is news arrives, or the last response of an observation. */
  lemma ObserveEntered(r: Request, e: Event)
    ensures Observing in Entered(r, e) <==>
              && e.Arrive? && IsResponse(r, e.message) && r.observe == Some(0)
              && (e.message.observe.Some? ==> IsNews(r, e.message.observe.value, e.time))
  {
    hide Next, Entered, Matches, IsNews, IsResponse, IsReceipt, ChangeState, RandRange, IsFresh;
    if Observing in Entered(r, e) {
      EnteredBy(r, e, Observing);
      MatchesIff(r, e.message);
      ReceiptOnly(r, e.message);
    }
    if e.Arrive? && IsResponse(r, e.message) && r.observe == Some(0) {
      ResponseStep(r, e);
      if e.message.observe.None? {
        LastNotice(r, e);
      } else if IsNews(r, e.message.observe.value, e.time) {
        NewsStep(r, e);
      }
    }
  }

  lemma NewsStep(r: Request, e: Event)
    requires e.Arrive? && e.message.observe.Some? && IsNews(r, e.message.observe.value, e.time)
    requires Next(r, e) == ProcessNotification(r, e.message, e.time, e.u, e.first, e.second)
    ensures Observing in Entered(r, e)
  {
    hide Next, Entered, ChangeState, RandRange, IsFresh;
    var m := e.message;
    var age := match m.maxAge case Some(x) => x case None => COAP_DEFAULT_MAX_AGE;
    var wait := age * 1000 + RandRange(e.u, COAP_CLIENT_RAND_DELAY_MIN, COAP_CLIENT_RAND_DELAY_MAX);
    FirstEntered(r, e, r.(observeSeqNum := m.observe.value, retransmitStartTime := e.time,
                          retransmitTimeout := wait % CLOCK), Observing, e.first);
  }

  /** A response without Observe option is passed on, and then the observation is canceled. */
  lemma LastNotice(r: Request, e: Event)
    requires e.Arrive? && Next(r, e) == ChangeState(ChangeState(r, Observing, e.first), Canceled, e.second)
    ensures Observing in Entered(r, e) && Canceled in Entered(r, e)
  {
    hide Next, ChangeState;
    var r1 := ChangeState(r, Observing, e.first);
    ChangeStateAdds(r, Observing, e.first);
    ChangeStateAdds(r1, Canceled, e.second);
    var t := Next(r, e).trail;
    assert t[|r.trail|] == Observing && t[|r1.trail|] == Canceled;
    assert Entered(r, e)[0] == Observing && Entered(r, e)[|r1.trail| - |r.trail|] == Canceled;
  }

  /**
   * Without a cancellation by the application, CANCELED is entered if and only if a response arrives
   * for a request that deregisters, or one without Observe option for one that registers.
   */
  lemma CanceledEntered(r: Request, e: Event)
    requires !AppCancels(e)
    ensures Canceled in Entered(r, e) <==>
              && e.Arrive? && IsResponse(r, e.message) && r.observe.Some?
              && (r.observe.value != 0 || e.message.observe.None?)
  {
    hide Next, Entered, Matches, IsNews, IsResponse, IsReceipt, ChangeState, ProcessNotification;
    if Canceled in Entered(r, e) {
      EnteredBy(r, e, Canceled);
      MatchesIff(r, e.message);
      ReceiptOnly(r, e.message);
    }
    if e.Arrive? && IsResponse(r, e.message) && r.observe.Some? {
      ResponseStep(r, e);
      if r.observe.value != 0 {
        FirstEntered(r, e, r, Canceled, e.first);
      } else if e.message.observe.None? {
        LastNotice(r, e);
      }
    }
  }

  // ---------------------------------------------------------------- calls

  /**
   * Cancelling an observation sends the request again under a new identifier, to the same token and
   * with Observe 1; if the option does not fit, or there is none, the request is released.
   */
  lemma CancelMeaning(r: Request, fits: bool, reaction: Reaction)
    requires r.state != Unused
    ensures var t := Next(r, CancelCall(fits, reaction));
            if r.observe.Some? && fits then
              && t.state == Transmit && t.observe == Some(1) && t.retransmitCount == 0 && t.token == r.token
              && t.mid == r.nextMid && t.gen == r.gen + 1
            else t.state == Unused
  {
    hide Cancel;
    if r.observe.Some? && fits {
      CancelSends(r, reaction);
    } else {
      CancelReleases(r, fits, reaction);
    }
  }

  lemma CancelSends(r: Request, reaction: Reaction)
    requires r.observe.Some?
    ensures var t := Cancel(r, true, reaction);
            && t.state == Transmit && t.observe == Some(1) && t.retransmitCount == 0 && t.token == r.token
            && t.mid == r.nextMid && t.gen == r.gen + 1
  {
    hide React;
  }

  lemma CancelReleases(r: Request, fits: bool, reaction: Reaction)
    requires !(r.observe.Some? && fits)
    ensures Cancel(r, fits, reaction).state == Unused
  {
    hide ChangeState;
  }

  /** A request that was started goes out with the next tick, under a new identifier. */
  lemma SendMeaning(r: Request, asynchronous: bool, time: uint32, sentAt: uint32, u: nat)
    requires r.state == Init
    ensures var t := Next(Next(r, Send(asynchronous)), Tick(time, sentAt, u, Nothing));
            && t.state == Receive && |t.sent| == |r.sent| + 1 && t.sent[..|r.sent|] == r.sent
            && t.sent[|r.sent|].mid == r.nextMid && t.sent[|r.sent|].gen == r.gen + 1
            && t.retransmitCount == 1 && t.nextMid == (r.nextMid + 1) % 0x1_0000
  {
    hide RandRange;
    TickInTransmit(Next(r, Send(asynchronous)), time, sentAt, u, Nothing);
  }

  /** A notification that is news sets the timer for the next registration to Max-Age and 5 to 15 seconds more. */
  lemma NoticeTimer(r: Request, m: Response, time: uint32, u: nat)
    requires m.observe.Some? && IsNews(r, m.observe.value, time)
    requires m.maxAge.Some? ==> m.maxAge.value <= 4294952
    ensures var t := ProcessNotification(r, m, time, u, Nothing, Nothing);
            var age := match m.maxAge case Some(x) => x case None => 60;
            && t.state == Observing && t.retransmitStartTime == time && t.observeSeqNum == m.observe.value
            && age * 1000 + 5000 <= t.retransmitTimeout <= age * 1000 + 15000
  {
    hide IsFresh, RandRange;
  }

  // ---------------------------------------------------------------- the application

  /**
   * A request that ends is released after the callback, unless the callback started it again; a
   * caller that waits finds it in its final state.
   */
  lemma ReleaseMeaning(r: Request, s: Status, reaction: Reaction)
    requires IsFinal(s)
    ensures !r.asynchronous ==> ChangeState(r, s, reaction) == r.(state := s, trail := r.trail + [s])
    ensures r.asynchronous ==>
              var told := React(r.(state := s, trail := r.trail + [s]), reaction);
              ChangeState(r, s, reaction) == told.(state := if told.state == Transmit then Transmit else Unused)
    ensures r.asynchronous ==> ChangeState(r, s, Nothing).state == Unused
  {
  }

  /** A callback that starts the request again keeps it, under a new identifier. */
  lemma StartedAgain(r: Request, s: Status, c: Changes)
    requires IsFinal(s) && r.asynchronous
    ensures var t := ChangeState(r, s, Do(TakeBack(c), Do(SendAgain, Nothing)));
            && t.state == Transmit && t.gen == r.gen + 1 && t.mid == r.nextMid && t.retransmitCount == 0
            && t.observe == c.observe && t.kind == if c.confirmable then CON else NON
  {
    var r1 := r.(state := s, trail := r.trail + [s]);
    var r2 := Act(r1, TakeBack(c));
    assert React(r1, Do(TakeBack(c), Do(SendAgain, Nothing))) == React(r2, Do(SendAgain, Nothing));
    assert React(r2, Do(SendAgain, Nothing)) == React(Act(r2, SendAgain), Nothing);
  }

  /** Nobody waits for an asynchronous request, and so it is in no final state between two events. */
  ghost predicate Settled(r: Request)
  {
    r.asynchronous ==> !IsFinal(r.state)
  }

  lemma {:induction false} ReactSettled(r: Request, reaction: Reaction)
    requires Settled(r)
    ensures Settled(React(r, reaction))
    decreases reaction, 0
  {
    match reaction
    case Nothing =>
    case Do(action, rest) =>
      hide Act, Settled;
      ActSettled(r, action);
      ReactSettled(Act(r, action), rest);
  }

  lemma {:induction false} ActSettled(r: Request, action: Action)
    requires Settled(r)
    ensures Settled(Act(r, action))
    decreases action, 0
  {
    hide Cancel;
    if action.CancelIt? && r.state != Unused {
      CancelSettled(r, action.fits, action.reaction);
    }
  }

  lemma {:induction false} CancelSettled(r: Request, fits: bool, reaction: Reaction)
    ensures Settled(Cancel(r, fits, reaction))
  {
    hide React;
  }

  lemma ChangeStateSettled(r: Request, s: Status, reaction: Reaction)
    ensures Settled(ChangeState(r, s, reaction))
  {
    hide React;
    if s == Observing {
      ReactSettled(r.(state := s, trail := r.trail + [s]), reaction);
    }
  }

  lemma NextSettled(r: Request, e: Event)
    requires Settled(r)
    ensures Settled(Next(r, e))
  {
    hide ChangeState, Cancel, Elapsed, Matches, ProcessNotification, Transmitted, IsFresh;
    match e
    case Tick(time, sentAt, u, reaction) =>
      ChangeStateSettled(Transmitted(r, sentAt, u), Receive, reaction);
      ChangeStateSettled(r, Expired, reaction);
      ChangeStateSettled(r, Transmit, reaction);
      ChangeStateSettled(NewMid(r).(retransmitCount := 0), Transmit, reaction);
    case Arrive(m, time, u, a, b) =>
      ChangeStateSettled(r, Separate, a);
      ChangeStateSettled(r, Reset, a);
      ChangeStateSettled(r, Canceled, a);
      ChangeStateSettled(r, Done, a);
      NoticeSettled(r, m, time, u, a, b);
    case CancelCall(fits, reaction) => CancelSettled(r, fits, reaction);
    case _ =>
  }

  lemma NoticeSettled(r: Request, m: Response, time: uint32, u: nat, a: Reaction, b: Reaction)
    requires Settled(r)
    ensures Settled(ProcessNotification(r, m, time, u, a, b))
  {
    hide IsFresh, RandRange, Settled, ChangeState;
    forall r1: Request, s, x
      ensures Settled(ChangeState(r1, s, x))
    {
      ChangeStateSettled(r1, s, x);
    }
  }

  lemma {:induction false} RunSettled(r: Request, es: seq<Event>)
    requires IsNew(r)
    ensures Settled(Run(r, es))
    decreases |es|
  {
    hide Next;
    if es != [] {
      RunSettled(r, es[..|es| - 1]);
      NextSettled(Run(r, es[..|es| - 1]), es[|es| - 1]);
    }
  }

  /** The message is the application's only before a request starts, while it is observed and when it is over. */
  lemma EditMeaning(r: Request, c: Changes)
    ensures var t := Next(r, Edit(c));
            if r.state == Init || r.state == Observing || r.state == Done || r.state == Reset || r.state == Expired ||
               r.state == Canceled
            then t.state == Init && t.observe == c.observe && t.kind == (if c.confirmable then CON else NON)
                 && t.sent == r.sent && t.token == r.token
            else t == r
  {
  }

  /** A free entry becomes a confirmable request that waits for its caller; one in use is not touched. */
  lemma CreateMeaning(r: Request, token: seq<byte>, timeout: uint32)
    ensures var t := Next(r, Create(token, timeout));
            if r.state == Unused then
              && t.state == Init && t.kind == CON && t.observe.None? && !t.asynchronous && t.mid == 0
              && t.token == token && t.timeout == timeout && t.sent == r.sent && t.nextMid == r.nextMid
            else t == r
  {
  }
}
