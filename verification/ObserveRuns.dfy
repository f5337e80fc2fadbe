/**
 * Observation over runs of the request state machine (RFC 7641). The freshness test is applied in
 * the OBSERVE state only; a request leaves that state whenever it registers again.
 */
module ObserveRuns {
  import opened Bytes
  import opened Observe
  import opened ClientRequest
  import opened RequestRuns

  /** What the request remembers of the freshest notification. */
  function Held(r: Request): (o: Observation)
  {
    Observation(r.observeSeqNum, r.retransmitStartTime)
  }

  /** The event brings a notification to the request. */
  predicate IsNotice(r: Request, e: Event)
  {
    && e.Arrive? && Matches(r, e.message) && r.observe == Some(0)
    && e.message.kind != RST && !(e.message.kind == ACK && e.message.code == CODE_EMPTY)
    && e.message.observe.Some?
  }

  /** `e` is the arrival of `n` as the client sees it: a 24-bit counter and a 32-bit time. */
  predicate Shows(e: Event, n: Notification)
  {
    e.Arrive? && e.message.observe == Some(n.counter % SEQ) && e.time == n.time % CLOCK
  }

  /** `ns` are the notifications that the run brought. */
  ghost predicate Brings(r: Request, es: seq<Event>, ns: seq<Notification>)
    decreases |es|
  {
    if es == [] then ns == []
    else
      var init, e := es[..|es| - 1], es[|es| - 1];
      if IsNotice(Run(r, init), e) then
        ns != [] && Shows(e, ns[|ns| - 1]) && Brings(r, init, ns[..|ns| - 1])
      else Brings(r, init, ns)
  }

  /** After each of the events the request is in OBSERVE. */
  ghost predicate Observes(r: Request, es: seq<Event>)
  {
    forall k | 0 < k <= |es| :: Run(r, es[..k]).state == Observing
  }

  // ---------------------------------------------------------------- one step

  /** The callback does nothing that takes a request out of OBSERVE. */
  predicate IsIdle(a: Reaction)
  {
    match a
    case Nothing => true
    case Do(action, rest) => (action.SetLimit? || action.SendAgain?) && IsIdle(rest)
  }

  lemma CancelLeaves(r: Request, fits: bool, a: Reaction)
    ensures Cancel(r, fits, a).state != Observing
  {
    hide React;
  }

  lemma ActElsewhere(r: Request, action: Action)
    ensures r.state != Observing ==> Act(r, action).state != Observing
    ensures r.state == Observing ==>
              if action.SetLimit? || action.SendAgain? then Act(r, action) == r.(timeout := Act(r, action).timeout)
              else Act(r, action).state != Observing
  {
    hide Cancel;
    if action.CancelIt? {
      CancelLeaves(r, action.fits, action.reaction);
    }
  }

  /** Nothing that a callback does leads into OBSERVE. */
  lemma {:induction false} ReactElsewhere(r: Request, a: Reaction)
    requires r.state != Observing
    ensures React(r, a).state != Observing
    decreases a
  {
    hide Act;
    if a.Do? {
      ActElsewhere(r, a.action);
      ReactElsewhere(Act(r, a.action), a.rest);
    }
  }

  /** A callback that leaves the request in OBSERVE changes its time limit at most. */
  lemma {:induction false} ReactIdle(r: Request, a: Reaction)
    requires r.state == Observing
    ensures React(r, a).state == Observing <==> IsIdle(a)
    ensures IsIdle(a) ==> React(r, a) == r.(timeout := React(r, a).timeout)
    decreases a
  {
    hide Act;
    if a.Do? {
      ActElsewhere(r, a.action);
      if a.action.SetLimit? || a.action.SendAgain? {
        ReactIdle(Act(r, a.action), a.rest);
      } else {
        ReactElsewhere(Act(r, a.action), a.rest);
      }
    }
  }

  lemma KeepsObserving(r: Request, a: Reaction)
    ensures ChangeState(r, Observing, a).state == Observing <==> !r.asynchronous || IsIdle(a)
    ensures ChangeState(r, Observing, a).state == Observing ==>
              Held(ChangeState(r, Observing, a)) == Held(r) && ChangeState(r, Observing, a).observe == r.observe
  {
    hide React, IsIdle;
    ReactIdle(r.(state := Observing, trail := r.trail + [Observing]), a);
  }

  lemma EndsElsewhere(r: Request, s: Status, a: Reaction)
    requires s != Observing
    ensures ChangeState(r, s, a).state != Observing
  {
    hide React;
    ReactElsewhere(r.(state := s, trail := r.trail + [s]), a);
  }

  /** Only a notification leads into OBSERVE, and it is remembered. */
  lemma FirstNotice(r: Request, e: Event)
    requires r.state != Observing && Next(r, e).state == Observing
    ensures IsNotice(r, e) && Held(Next(r, e)) == Observation(e.message.observe.value, e.time)
  {
    hide ChangeState, Cancel, RandRange, Elapsed, IsFresh, IsIdle;
    match e {
      case Tick(time, sentAt, u, a) => TickElsewhere(r, time, sentAt, u, a);
      case CancelCall(fits, a) => CancelLeaves(r, fits, a);
      case Arrive(m, time, u, a, b) =>
        EndsElsewhere(r, Separate, a);
        EndsElsewhere(r, Reset, a);
        EndsElsewhere(r, Canceled, a);
        EndsElsewhere(r, Done, a);
        EndsElsewhere(ChangeState(r, Observing, a), Canceled, b);
        if m.observe.Some? { KeepsObserving(Noted(r, m, time, u), a); }
      case _ =>
    }
  }

  /** The request with the fields that an accepted notification sets. */
  function Noted(r: Request, m: Response, time: uint32, u: nat): (r': Request)
    requires m.observe.Some?
    ensures Held(r') == Observation(m.observe.value, time) && r'.asynchronous == r.asynchronous
  {
    var age := match m.maxAge case Some(x) => x case None => COAP_DEFAULT_MAX_AGE;
    var wait := age * 1000 + RandRange(u, COAP_CLIENT_RAND_DELAY_MIN, COAP_CLIENT_RAND_DELAY_MAX);
    r.(observeSeqNum := m.observe.value, retransmitStartTime := time, retransmitTimeout := wait % CLOCK)
  }

  lemma TickElsewhere(r: Request, time: uint32, sentAt: uint32, u: nat, a: Reaction)
    ensures var r' := ProcessEvents(r, time, sentAt, u, a); r'.state == Observing ==> r' == r
    ensures r.state == Observing ==>
              (ProcessEvents(r, time, sentAt, u, a).state == Observing
               <==> !Elapsed(time, r.retransmitStartTime, r.retransmitTimeout))
  {
    hide ChangeState, RandRange, Elapsed;
    EndsElsewhere(Transmitted(r, sentAt, u), Receive, a);
    EndsElsewhere(r, Expired, a);
    EndsElsewhere(r, Transmit, a);
    EndsElsewhere(NewMid(r).(retransmitCount := 0), Transmit, a);
  }

  /** What ends an observation, or interrupts it for a new registration. */
  predicate Leaves(r: Request, e: Event)
  {
    match e
    case Tick(time, _, _, _) => Elapsed(time, r.retransmitStartTime, r.retransmitTimeout)
    case Edit(_) => true
    case CancelCall(_, _) => true
    case Delete => true
    case Arrive(m, time, _, a, _) =>
      Matches(r, m) &&
      match m.observe {
        case None => true
        case Some(v) => IsFresh(r.observeSeqNum, r.retransmitStartTime, v, time) && r.asynchronous && !IsIdle(a)
      }
    case _ => false
  }

  /** In OBSERVE a notification is remembered exactly if it is fresh; nothing else changes what is held. */
  lemma ObserveStep(r: Request, e: Event)
    requires r.state == Observing && r.observe == Some(0)
    ensures Next(r, e).state == Observing <==> !Leaves(r, e)
    ensures !Leaves(r, e) ==> Next(r, e).observe == Some(0)
    ensures !Leaves(r, e) ==>
              Held(Next(r, e)) == if IsNotice(r, e) && IsFresh(r.observeSeqNum, r.retransmitStartTime,
                                                               e.message.observe.value, e.time)
                                  then Observation(e.message.observe.value, e.time) else Held(r)
  {
    hide ChangeState, Cancel, RandRange, Elapsed, IsFresh, IsIdle;
    match e {
      case Tick(time, sentAt, u, a) => TickElsewhere(r, time, sentAt, u, a);
      case CancelCall(fits, a) => CancelLeaves(r, fits, a);
      case Arrive(m, time, u, a, b) =>
        EndsElsewhere(ChangeState(r, Observing, a), Canceled, b);
        if m.observe.Some? { KeepsObserving(Noted(r, m, time, u), a); }
      case _ =>
    }
  }

  /** OBSERVE is a state of registered requests only. */
  lemma FirstRegistered(r: Request, e: Event)
    requires r.state != Observing && Next(r, e).state == Observing
    ensures Next(r, e).observe == Some(0)
  {
    hide ChangeState, Cancel, RandRange, Elapsed, IsFresh, Matches, Next;
    FirstNotice(r, e);
    NoticeLeadsTo(r, e);
    KeepsObserving(Noted(r, e.message, e.time, e.u), e.first);
  }

  lemma NoticeLeadsTo(r: Request, e: Event)
    requires IsNotice(r, e) && r.state != Observing
    ensures Next(r, e) == ChangeState(Noted(r, e.message, e.time, e.u), Observing, e.first)
    ensures Noted(r, e.message, e.time, e.u).observe == Some(0)
  {
    hide ChangeState, RandRange;
  }

  // ---------------------------------------------------------------- runs

  /** A request stays in OBSERVE from its first notification on if and only if no event makes it leave. */
  lemma {:induction false} ObservesIff(r: Request, es: seq<Event>)
    requires r.state != Observing && es != []
    ensures Observes(r, es) <==>
              Run(r, es[..1]).state == Observing && forall k | 0 < k < |es| :: !Leaves(Run(r, es[..k]), es[k])
    ensures Observes(r, es) ==> Run(r, es).observe == Some(0)
    decreases |es|
  {
    hide Next, Leaves, Observes;
    ObservesLast(r, es);
    var n := |es| - 1;
    var init := es[..n];
    assert es[..n + 1] == es;
    if n == 0 {
      assert init == [];
      RunEmpty(r);
      assert Run(r, es) == Next(Run(r, init), es[0]);
      if Run(r, es).state == Observing {
        FirstRegistered(r, es[0]);
      }
    } else {
      PrefixOfInit(es);
      ObservesIff(r, init);
      ObservesInit(r, es);
      if Observes(r, init) {
        ObservesLast(r, init);
        ObserveStep(Run(r, init), es[n]);
      }
    }
  }

  lemma ObservesLast(r: Request, es: seq<Event>)
    requires es != []
    ensures Observes(r, es) ==> Run(r, es).state == Observing
    ensures |es| == 1 && Run(r, es).state == Observing ==> Observes(r, es)
  {
    hide Run;
    assert es[..|es|] == es;
  }

  lemma PrefixOfInit(es: seq<Event>)
    requires es != []
    ensures forall k | 0 <= k <= |es| - 1 :: es[..|es| - 1][..k] == es[..k]
    ensures forall k | 0 <= k < |es| - 1 :: es[..|es| - 1][k] == es[k]
  {
  }

  lemma ObservesInit(r: Request, es: seq<Event>)
    requires |es| > 1
    ensures Observes(r, es) <==> Observes(r, es[..|es| - 1]) && Run(r, es).state == Observing
  {
    hide Run;
    var n := |es| - 1;
    PrefixOfInit(es);
    assert es[..n + 1] == es;
    if Observes(r, es) {
      forall k | 0 < k <= n
        ensures Run(r, es[..n][..k]).state == Observing
      {
        assert Run(r, es[..k]).state == Observing;
      }
    }
    if Observes(r, es[..n]) && Run(r, es).state == Observing {
      forall k | 0 < k <= n + 1
        ensures Run(r, es[..k]).state == Observing
      {
        if k <= n {
          assert Run(r, es[..n][..k]).state == Observing;
        }
      }
    }
  }

  /**
   * From its first notification on, and as long as the request does not leave OBSERVE, what it holds
   * is the freshest of all notifications received, in every run whose notifications are regular.
   */
  lemma {:induction false} HoldsMaximum(r: Request, es: seq<Event>, ns: seq<Notification>)
    requires r.state != Observing && es != [] && Observes(r, es) && Brings(r, es, ns) && Regular(ns)
    ensures ns != [] && Held(Run(r, es)) == Record(Freshest(ns)) && Run(r, es).observe == Some(0)
    decreases |es|
  {
    hide Next, Leaves, IsNotice, IsFresh, Regular, Freshest;
    var n := |es| - 1;
    var init, e := es[..n], es[n];
    var t := Run(r, init);
    assert es[..|es|] == es;
    if init == [] {
      FirstNotice(r, e);
      FirstRegistered(r, e);
      assert ns[..|ns| - 1] == [];
      FreshestOne(ns);
    } else {
      ObservesInit(r, es);
      assert init[..n] == init;
      if IsNotice(t, e) {
        var old_ := ns[..|ns| - 1];
        RegularPrefix(ns, |ns| - 1);
        HoldsMaximum(r, init, old_);
        ObserveStep(t, e);
        HoldsNext(ns);
      } else {
        HoldsMaximum(r, init, ns);
        ObserveStep(t, e);
      }
    }
  }

  lemma FreshestOne(ns: seq<Notification>)
    requires |ns| == 1
    ensures Freshest(ns) == ns[0]
  {
  }

  /** Taking a notification exactly if it is fresh keeps the freshest. */
  lemma HoldsNext(ns: seq<Notification>)
    requires |ns| > 1 && Regular(ns)
    ensures var f, n := Freshest(ns[..|ns| - 1]), ns[|ns| - 1];
            Record(Freshest(ns)) == if Accepts(Record(f), n) then Record(n) else Record(f)
  {
    hide Regular, Accepts;
    AcceptsNewer(ns, |ns| - 1);
  }

  /**
   * A notification is passed on to the application exactly if it is newer than all before it, or the
   * request is not in OBSERVE. So one that is not newer gets through if and only if the request has
   * left OBSERVE.
   */
  lemma NoticeTaken(r: Request, ns: seq<Notification>, e: Event, n: Notification)
    requires ns != [] && Regular(ns + [n]) && IsNotice(r, e) && Shows(e, n)
    requires r.state == Observing ==> Held(r) == Record(Freshest(ns))
    ensures Observing in Entered(r, e) <==>
              r.state != Observing || forall j | 0 <= j < |ns| :: ns[j].counter < n.counter
  {
    hide Regular, Freshest, Matches, ChangeState, RandRange, IsFresh;
    var all := ns + [n];
    assert all[..|ns|] == ns;
    AcceptsNewer(all, |ns|);
    var k := FreshestIsMax(ns);
    ChangeStateAdds(Noted(r, e.message, e.time, e.u), Observing, e.first);
    if r.state != Observing || Accepts(Held(r), n) {
      assert Next(r, e) == ChangeState(Noted(r, e.message, e.time, e.u), Observing, e.first);
      assert Next(r, e).trail[|r.trail|] == Observing;
      assert Entered(r, e)[0] == Observing;
    } else {
      assert Next(r, e) == r;
    }
  }

  /** In every regular run in OBSERVE, exactly the newest notification so far is passed on. */
  lemma AcceptedIncrease(r: Request, es: seq<Event>, ns: seq<Notification>, e: Event, n: Notification)
    requires r.state != Observing && es != [] && Observes(r, es) && Brings(r, es, ns) && Regular(ns + [n])
    requires IsNotice(Run(r, es), e) && Shows(e, n)
    ensures Observing in Entered(Run(r, es), e) <==> forall j | 0 <= j < |ns| :: ns[j].counter < n.counter
  {
    hide Regular, Freshest, IsNotice, Shows, Next, Run, Brings, Entered, Held;
    assert (ns + [n])[..|ns|] == ns;
    RegularPrefix(ns + [n], |ns|);
    HoldsMaximum(r, es, ns);
    assert es[..|es|] == es;
    NoticeTaken(Run(r, es), ns, e, n);
  }

  // ---------------------------------------------------------------- registering again

  /**
   * When Max-Age and the random delay have passed, the request registers again and so leaves OBSERVE.
   * The next notification, however old, then replaces what was held.
   */
  lemma ReRegistered(r: Request, t1: uint32, t2: uint32, sentAt: uint32, u: nat, m: Response, t3: uint32)
    requires r.state == Observing && r.observe == Some(0)
    requires Elapsed(t1, r.retransmitStartTime, r.retransmitTimeout)
    requires (m.kind == CON || m.kind == NON) && m.token == r.token && m.observe.Some?
    ensures var r1 := Next(r, Tick(t1, t1, u, Nothing));
            var r2 := Next(r1, Tick(t2, sentAt, u, Nothing));
            var r3 := Next(r2, Arrive(m, t3, u, Nothing, Nothing));
            && r2.state == Receive && IsNotice(r2, Arrive(m, t3, u, Nothing, Nothing))
            && r3.state == Observing && r3.observeSeqNum == m.observe.value
  {
    hide RandRange, Elapsed, IsFresh;
    var r1 := Next(r, Tick(t1, t1, u, Nothing));
    assert r1.state == Transmit && r1.token == r.token && r1.observe == Some(0);
    var r2 := Next(r1, Tick(t2, sentAt, u, Nothing));
    assert r2.state == Receive && r2.token == r.token && r2.observe == Some(0);
  }

  /** A registration that is answered, runs out, is renewed and then gets an older notification. */
  function Renewal(): (es: seq<Event>)
  {
    [Create([1], 1000000), Edit(Changes(true, Some(0))), Send(true), Tick(1000, 1000, 0, Nothing),
     Arrive(Notice(5), 2000, 0, Nothing, Nothing)]
    + [Tick(70000, 70000, 0, Nothing)] + [Tick(70100, 70100, 0, Nothing)]
    + [Arrive(Notice(4), 70200, 0, Nothing, Nothing)]
  }

  function Notice(v: uint32): (m: Response)
  {
    Response(NON, 0x45, 7, [1], Some(v), None)
  }

  lemma RunSnoc(r: Request, es: seq<Event>, e: Event)
    ensures Run(r, es + [e]) == Next(Run(r, es), e)
  {
    assert (es + [e])[..|es|] == es;
  }

  lemma RunEmpty(r: Request)
    ensures Run(r, []) == r
  {
  }

  /** A new request that was registered and got its first notification, number 5 at time 2000. */
  lemma Registered(r: Request)
    requires IsNew(r)
    ensures var t := Run(r, Renewal()[..5]);
            && t.state == Observing && t.observe == Some(0) && t.token == [1] && Held(t) == Observation(5, 2000)
            && Elapsed(70000, t.retransmitStartTime, t.retransmitTimeout)
            && Brings(r, Renewal()[..5], [Notification(5, 2000)])
  {
    hide Run, Next, Elapsed, Brings;
    var es := Renewal();
    Sent(r);
    Answered(Next(Next(Next(Next(r, es[0]), es[1]), es[2]), es[3]));
    FirstFive(r, es);
    BringsNothing(r, es[..4]);
    BringsSnoc(r, es[..4], es[4], [], Notification(5, 2000));
    assert es[..5] == es[..4] + [es[4]] && [] + [Notification(5, 2000)] == [Notification(5, 2000)];
  }

  lemma Sent(r: Request)
    requires IsNew(r)
    ensures var es := Renewal();
            var t := Next(Next(Next(Next(r, es[0]), es[1]), es[2]), es[3]);
            t.state == Receive && t.observe == Some(0) && t.token == [1] && t.kind == CON
  {
    hide RandRange;
    var es := Renewal();
    var r3 := Next(Next(Next(r, es[0]), es[1]), es[2]);
    assert r3.state == Transmit && r3.observe == Some(0) && r3.token == [1] && r3.asynchronous && r3.kind == CON;
  }

  lemma Answered(r: Request)
    requires r.state == Receive && r.observe == Some(0) && r.token == [1] && r.kind == CON
    ensures var t := Next(r, Arrive(Notice(5), 2000, 0, Nothing, Nothing));
            && t.state == Observing && t.observe == Some(0) && t.token == [1] && Held(t) == Observation(5, 2000)
            && Elapsed(70000, t.retransmitStartTime, t.retransmitTimeout)
            && IsNotice(r, Arrive(Notice(5), 2000, 0, Nothing, Nothing))
  {
    var e := Arrive(Notice(5), 2000, 0, Nothing, Nothing);
    assert Noted(r, Notice(5), 2000, 0).retransmitTimeout == 65000;
    NoticeLeadsTo(r, e);
  }

  lemma FirstFive(r: Request, es: seq<Event>)
    requires |es| >= 5
    ensures Run(r, es[..4]) == Next(Next(Next(Next(r, es[0]), es[1]), es[2]), es[3])
    ensures Run(r, es[..5]) == Next(Run(r, es[..4]), es[4])
  {
    hide Run, Next;
    RunEmpty(r);
    assert es[..1] == [] + [es[0]] && es[..2] == es[..1] + [es[1]] && es[..3] == es[..2] + [es[2]];
    assert es[..4] == es[..3] + [es[3]] && es[..5] == es[..4] + [es[4]];
    RunSnoc(r, [], es[0]);
    RunSnoc(r, es[..1], es[1]);
    RunSnoc(r, es[..2], es[2]);
    RunSnoc(r, es[..3], es[3]);
    RunSnoc(r, es[..4], es[4]);
  }

  /**
   * Notification 5 at time 2000 and notification 4 at time 70200 are regular, yet the request holds 4
   * in the end: it had registered again in between.
   */
  lemma RenewalExample(r: Request)
    requires IsNew(r)
    ensures Regular([Notification(5, 2000), Notification(4, 70200)])
    ensures Freshest([Notification(5, 2000), Notification(4, 70200)]).counter == 5
    ensures Brings(r, Renewal(), [Notification(5, 2000), Notification(4, 70200)])
    ensures Run(r, Renewal()).state == Observing && Run(r, Renewal()).observeSeqNum == 4
  {
    hide Run, Next, Elapsed, IsNotice, Brings;
    var es := Renewal();
    var first := es[..5];
    Registered(r);
    var t := Run(r, first);
    ReRegistered(t, 70000, 70100, 70100, 0, Notice(4), 70200);
    SnocNext(es);
    RunSnoc(r, first, es[5]);
    RunSnoc(r, first + [es[5]], es[6]);
    RunSnoc(r, first + [es[5]] + [es[6]], es[7]);
    BringsOther(r, first, es[5], [Notification(5, 2000)]);
    BringsOther(r, first + [es[5]], es[6], [Notification(5, 2000)]);
    BringsSnoc(r, first + [es[5]] + [es[6]], es[7], [Notification(5, 2000)], Notification(4, 70200));
    assert [Notification(5, 2000)] + [Notification(4, 70200)] == [Notification(5, 2000), Notification(4, 70200)];
    RegularPair();
  }

  lemma {:induction false} BringsNothing(r: Request, es: seq<Event>)
    requires forall i | 0 <= i < |es| :: !es[i].Arrive?
    ensures Brings(r, es, [])
    decreases |es|
  {
    hide Run, Matches;
    if es != [] {
      BringsNothing(r, es[..|es| - 1]);
    }
  }

  lemma BringsOther(r: Request, es: seq<Event>, e: Event, ns: seq<Notification>)
    requires Brings(r, es, ns) && !e.Arrive?
    ensures Brings(r, es + [e], ns)
  {
    hide Run, Matches;
    assert (es + [e])[..|es|] == es;
  }

  lemma BringsSnoc(r: Request, es: seq<Event>, e: Event, ns: seq<Notification>, n: Notification)
    requires Brings(r, es, ns) && IsNotice(Run(r, es), e) && Shows(e, n)
    ensures Brings(r, es + [e], ns + [n])
  {
    hide Run, IsNotice, Shows;
    assert (es + [e])[..|es|] == es && (ns + [n])[..|ns|] == ns;
  }

  lemma SnocNext(es: seq<Event>)
    requires |es| == 8
    ensures es == es[..5] + [es[5]] + [es[6]] + [es[7]]
  {
  }

  lemma RegularPair()
    ensures Regular([Notification(5, 2000), Notification(4, 70200)])
    ensures Freshest([Notification(5, 2000), Notification(4, 70200)]).counter == 5
  {
    var ns := [Notification(5, 2000), Notification(4, 70200)];
    assert ns[..1] == [Notification(5, 2000)];
    FreshestOne(ns[..1]);
  }
}
