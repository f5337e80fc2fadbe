/** What holds in every run of a client request: transmissions, completion, Reset, separate responses. */
module RequestRuns {
  import opened Bytes
  import opened Observe
  import opened ClientRequest

  // ---------------------------------------------------------------- transmissions

  /** How often the message with the `g`-th identifier was sent. */
  function Sends(sent: seq<Datagram>, g: nat): (n: nat)
  {
    if sent == [] then 0
    else Sends(sent[..|sent| - 1], g) + if sent[|sent| - 1].gen == g then 1 else 0
  }

  function Pow2(n: nat): (r: nat)
  {
    if n == 0 then 1 else 2 * Pow2(n - 1)
  }

  /** The limits on every message identifier used so far. */
  ghost predicate Bounded(sent: seq<Datagram>, gen: nat)
  {
    && (forall i | 0 <= i < |sent| :: sent[i].gen <= gen)
    && (forall g: nat :: Sends(sent, g) <= COAP_CLIENT_MAX_RETRANSMIT)
    && (forall i | 0 <= i < |sent| && sent[i].kind == NON :: Sends(sent, sent[i].gen) == 1)
  }

  /** The current message is on the wire `retransmitCount` times, always with the same type. */
  ghost predicate Counted(r: Request)
  {
    && Sends(r.sent, r.gen) == r.retransmitCount
    && (forall i | 0 <= i < |r.sent| && r.sent[i].gen == r.gen :: r.sent[i].kind == r.kind)
    && (r.retransmitCount > 0 ==>
          && COAP_CLIENT_ACK_TIMEOUT_MIN <= r.firstTimeout <= COAP_CLIENT_ACK_TIMEOUT_MAX
          && r.retransmitTimeout == r.firstTimeout * Pow2(r.retransmitCount - 1))
  }

  /** The identifier that a draw from the counter gives. */
  function IdOf(base: uint16, draw: nat): (mid: uint16)
  {
    (base + draw) % 0x1_0000
  }

  /** Identifiers come from the counter in order: those of later generations were drawn later. */
  ghost predicate Numbered(sent: seq<Datagram>, gen: nat, nextMid: uint16, c: Counter)
  {
    && nextMid == IdOf(c.base, c.drawn)
    && (forall i | 0 <= i < |sent| ::
          sent[i].gen <= gen && sent[i].draw < c.drawn && sent[i].mid == IdOf(c.base, sent[i].draw))
    && (forall i, j | 0 <= i < |sent| && 0 <= j < |sent| :: sent[i].gen < sent[j].gen ==> sent[i].draw < sent[j].draw)
    && (forall i, j | 0 <= i < |sent| && 0 <= j < |sent| :: sent[i].gen == sent[j].gen ==> sent[i].draw == sent[j].draw)
  }

  /** The identifier of the current message is the one drawn last for the request. */
  ghost predicate IsCurrent(sent: seq<Datagram>, gen: nat, mid: uint16, c: Counter)
  {
    && c.draw < c.drawn && mid == IdOf(c.base, c.draw)
    && (forall i | 0 <= i < |sent| && sent[i].gen == gen :: sent[i].draw == c.draw)
    && (forall i | 0 <= i < |sent| && sent[i].gen < gen :: sent[i].draw < c.draw)
  }

  ghost predicate Inv(r: Request)
  {
    && (r.kind == CON || r.kind == NON)
    && Bounded(r.sent, r.gen)
    && Numbered(r.sent, r.gen, r.nextMid, r.counter)
    && (r.state == Transmit || r.state == Receive ==> IsCurrent(r.sent, r.gen, r.mid, r.counter))
    && (r.state == Transmit ==>
          Counted(r) && r.retransmitCount < COAP_CLIENT_MAX_RETRANSMIT && (r.kind == NON ==> r.retransmitCount == 0))
    && (r.state == Receive ==>
          Counted(r) && 1 <= r.retransmitCount <= COAP_CLIENT_MAX_RETRANSMIT && (r.kind == NON ==> r.retransmitCount == 1))
  }

  lemma SendsSnoc(sent: seq<Datagram>, x: Datagram, g: nat)
    ensures Sends(sent + [x], g) == Sends(sent, g) + if x.gen == g then 1 else 0
  {
    assert (sent + [x])[..|sent|] == sent;
  }

  lemma {:induction false} SendsNone(sent: seq<Datagram>, g: nat)
    requires forall i | 0 <= i < |sent| :: sent[i].gen != g
    ensures Sends(sent, g) == 0
  {
    if sent != [] {
      SendsNone(sent[..|sent| - 1], g);
    }
  }

  lemma {:induction false} SendsSome(sent: seq<Datagram>, i: nat)
    requires i < |sent|
    ensures Sends(sent, sent[i].gen) >= 1
  {
    if i < |sent| - 1 {
      SendsSome(sent[..|sent| - 1], i);
    }
  }

  /** A new identifier starts with a clean count. */
  lemma NewMidInv(r: Request)
    requires Bounded(r.sent, r.gen)
    ensures Bounded(r.sent, r.gen + 1) && Sends(r.sent, r.gen + 1) == 0
    ensures forall i | 0 <= i < |r.sent| :: r.sent[i].gen != r.gen + 1
  {
    hide Sends;
    SendsNone(r.sent, r.gen + 1);
  }

  lemma NextNumber(a: nat, b: uint16)
    ensures (IdOf(b, a) + 1) % 0x1_0000 == IdOf(b, a + 1)
  {
  }

  lemma DrawInv(sent: seq<Datagram>, gen: nat, nextMid: uint16, c: Counter)
    requires Numbered(sent, gen, nextMid, c)
    ensures Numbered(sent, gen + 1, (nextMid + 1) % 0x1_0000, Drawn(c))
    ensures IsCurrent(sent, gen + 1, nextMid, Drawn(c))
  {
    hide IdOf;
    NextNumber(c.drawn, c.base);
  }

  lemma OtherDrawInv(sent: seq<Datagram>, gen: nat, mid: uint16, nextMid: uint16, c: Counter)
    requires Numbered(sent, gen, nextMid, c)
    ensures Numbered(sent, gen, (nextMid + 1) % 0x1_0000, c.(drawn := c.drawn + 1))
    ensures IsCurrent(sent, gen, mid, c) ==> IsCurrent(sent, gen, mid, c.(drawn := c.drawn + 1))
  {
    hide IdOf;
    NextNumber(c.drawn, c.base);
  }

  lemma MailInv(r: Request)
    requires Numbered(r.sent, r.gen, r.nextMid, r.counter) && IsCurrent(r.sent, r.gen, r.mid, r.counter)
    ensures Numbered(r.sent + [Mail(r)], r.gen, r.nextMid, r.counter)
    ensures IsCurrent(r.sent + [Mail(r)], r.gen, r.mid, r.counter)
  {
    hide IdOf;
    var all, x := r.sent + [Mail(r)], Mail(r);
    assert forall i | 0 <= i < |r.sent| :: all[i] == r.sent[i];
    assert all[|r.sent|] == x;
  }

  lemma LaunchInv(r: Request, asynchronous: bool)
    requires Inv(r)
    ensures Inv(Launch(r, asynchronous))
  {
    hide Bounded, Sends, Numbered, IsCurrent;
    NewMidInv(r);
    DrawInv(r.sent, r.gen, r.nextMid, r.counter);
  }

  lemma {:induction false} ChangeStateInv(r: Request, s: Status, reaction: Reaction)
    requires Inv(r.(state := s))
    ensures Inv(ChangeState(r, s, reaction))
    decreases reaction, 1
  {
    hide Bounded, Sends, Pow2, React, Inv;
    var r1 := r.(state := s, trail := r.trail + [s]);
    TrailInv(r.(state := s), r1.trail);
    ReactInv(r1, reaction);
    FinishInv(r1);
    FinishInv(React(r1, reaction));
  }

  lemma TrailInv(r: Request, trail: seq<Status>)
    requires Inv(r)
    ensures Inv(r.(trail := trail))
  {
    hide Bounded, Sends, Numbered, IsCurrent;
  }

  lemma FinishInv(r: Request)
    requires Inv(r)
    ensures Inv(r.(state := Unused))
  {
    hide Bounded, Sends, Numbered, IsCurrent;
  }

  lemma {:induction false} ReactInv(r: Request, reaction: Reaction)
    requires Inv(r)
    ensures Inv(React(r, reaction))
    decreases reaction, 0
  {
    hide Inv, Act;
    match reaction
    case Nothing =>
    case Do(action, rest) =>
      ActInv(r, action);
      ReactInv(Act(r, action), rest);
  }

  lemma {:induction false} ActInv(r: Request, action: Action)
    requires Inv(r)
    ensures Inv(Act(r, action))
    decreases action, 0
  {
    hide Inv, CancelUsed, Edited, Started;
    match action
    case TakeBack(changes) => EditedInv(r, changes);
    case SendAgain => StartedInv(r, true);
    case SetLimit(timeout) => LimitInv(r, timeout);
    case Release => FinishInv(r);
    case CancelIt(fits, reaction) => CancelUsedInv(r, fits, reaction);
  }

  lemma EditedInv(r: Request, c: Changes)
    requires Inv(r)
    ensures Inv(Edited(r, c))
  {
    hide Bounded, Sends, Numbered, IsCurrent;
  }

  lemma StartedInv(r: Request, asynchronous: bool)
    requires Inv(r)
    ensures Inv(Started(r, asynchronous))
  {
    hide Inv, Launch;
    if r.state == Init {
      LaunchInv(r, asynchronous);
    }
  }

  lemma LimitInv(r: Request, timeout: uint32)
    requires Inv(r)
    ensures Inv(r.(timeout := timeout))
  {
    hide Bounded, Sends, Numbered, IsCurrent;
  }

  lemma {:induction false} CancelUsedInv(r: Request, fits: bool, reaction: Reaction)
    requires Inv(r)
    ensures Inv(CancelUsed(r, fits, reaction))
    decreases reaction, 3
  {
    hide Inv, Cancel;
    if r.state != Unused {
      CancelInv(r, fits, reaction);
    }
  }

  /** Sending once more keeps the limits. */
  lemma SendInv(r: Request)
    requires Inv(r) && r.state == Transmit
    ensures Bounded(r.sent + [Mail(r)], r.gen)
    ensures Sends(r.sent + [Mail(r)], r.gen) == r.retransmitCount + 1
  {
    hide Sends, Numbered, IsCurrent;
    var x := Mail(r);
    var all := r.sent + [x];
    SendsSnoc(r.sent, x, r.gen);
    forall g: nat
      ensures Sends(all, g) <= COAP_CLIENT_MAX_RETRANSMIT
    {
      SendsSnoc(r.sent, x, g);
    }
    forall i | 0 <= i < |all| && all[i].kind == NON
      ensures Sends(all, all[i].gen) == 1
    {
      SendsSnoc(r.sent, x, all[i].gen);
      if i < |r.sent| {
        SendsSome(r.sent, i);
      }
    }
  }

  lemma Doubling(n: nat, first: nat)
    requires 1 <= n < COAP_CLIENT_MAX_RETRANSMIT && first <= COAP_CLIENT_ACK_TIMEOUT_MAX
    ensures 2 * (first * Pow2(n - 1)) % CLOCK == first * Pow2(n)
  {
    assert Pow2(0) == 1 && Pow2(1) == 2 && Pow2(2) == 4 && Pow2(3) == 8;
    assert Pow2(n) == 2 * Pow2(n - 1) && Pow2(n) <= 8;
  }

  /**
   * The counter tells how often the current identifier was sent, within the limits, and the timeout
   * is the first one doubled for each retransmission.
   */
  ghost predicate InStep(r: Request)
  {
    && 1 <= r.retransmitCount <= COAP_CLIENT_MAX_RETRANSMIT
    && Bounded(r.sent, r.gen) && Sends(r.sent, r.gen) == r.retransmitCount
    && COAP_CLIENT_ACK_TIMEOUT_MIN <= r.firstTimeout <= COAP_CLIENT_ACK_TIMEOUT_MAX
    && r.retransmitTimeout == r.firstTimeout * Pow2(r.retransmitCount - 1)
  }

  lemma TransmittedInv(r: Request, sentAt: uint32, u: nat)
    requires Inv(r) && r.state == Transmit
    ensures InStep(Transmitted(r, sentAt, u))
  {
    hide Bounded, Sends, RandRange, Pow2, Numbered, IsCurrent;
    SendInv(r);
    if r.retransmitCount > 0 { Doubling(r.retransmitCount, r.firstTimeout); }
    Pow2Zero();
  }

  lemma EventsInv(r: Request, time: uint32, sentAt: uint32, u: nat, reaction: Reaction)
    requires Inv(r)
    ensures Inv(ProcessEvents(r, time, sentAt, u, reaction))
  {
    hide Bounded, Sends, Elapsed, RandRange, Pow2, ChangeState, Numbered, IsCurrent;
    match r.state {
      case Transmit =>
        SendInv(r);
        MailInv(r);
        TransmittedInv(r, sentAt, u);
        ChangeStateInv(Transmitted(r, sentAt, u), Receive, reaction);
      case Receive =>
        ChangeStateInv(r, Expired, reaction);
        if r.retransmitCount < COAP_CLIENT_MAX_RETRANSMIT && r.kind == CON {
          ChangeStateInv(r, Transmit, reaction);
        }
      case Separate => ChangeStateInv(r, Expired, reaction);
      case Observing =>
        NewMidInv(r);
        DrawInv(r.sent, r.gen, r.nextMid, r.counter);
        ChangeStateInv(NewMid(r).(retransmitCount := 0), Transmit, reaction);
      case _ =>
    }
  }

  lemma Pow2Zero()
    ensures Pow2(0) == 1
  {
  }

  lemma NotificationInv(r: Request, m: Response, time: uint32, u: nat, a: Reaction, b: Reaction)
    requires Inv(r) && r.state != Transmit
    ensures Inv(ProcessNotification(r, m, time, u, a, b))
  {
    hide Bounded, Counted, Numbered, IsCurrent, ChangeState, RandRange, IsFresh;
    match m.observe {
      case Some(v) =>
        var age := match m.maxAge case Some(x) => x case None => COAP_DEFAULT_MAX_AGE;
        var wait := age * 1000 + RandRange(u, COAP_CLIENT_RAND_DELAY_MIN, COAP_CLIENT_RAND_DELAY_MAX);
        ChangeStateInv(r.(observeSeqNum := v, retransmitStartTime := time, retransmitTimeout := wait % CLOCK),
                       Observing, a);
      case None =>
        ChangeStateInv(r, Observing, a);
        ChangeStateInv(ChangeState(r, Observing, a), Canceled, b);
    }
  }

  lemma ResponseInv(r: Request, m: Response, time: uint32, u: nat, a: Reaction, b: Reaction)
    requires Inv(r) && r.state != Transmit
    ensures Inv(ProcessResponse(r, m, time, u, a, b))
  {
    hide Bounded, Counted, Numbered, IsCurrent, ChangeState, ProcessNotification;
    NotificationInv(r, m, time, u, a, b);
    ChangeStateInv(r, Separate, a);
    ChangeStateInv(r, Reset, a);
    ChangeStateInv(r, Canceled, a);
    ChangeStateInv(r, Done, a);
  }

  lemma {:induction false} CancelInv(r: Request, fits: bool, reaction: Reaction)
    requires Inv(r)
    ensures Inv(Cancel(r, fits, reaction))
    decreases reaction, 2
  {
    hide Bounded, Sends, ChangeState, Pow2, Numbered, IsCurrent;
    NewMidInv(r);
    DrawInv(r.sent, r.gen, r.nextMid, r.counter);
    if r.observe.Some? && fits {
      ChangeStateInv(NewMid(r).(observe := Some(1), retransmitCount := 0), Transmit, reaction);
    } else {
      ChangeStateInv(if r.observe.Some? then NewMid(r) else r, Canceled, reaction);
    }
  }

  lemma NextInv(r: Request, e: Event)
    requires Inv(r)
    ensures Inv(Next(r, e))
  {
    hide Bounded, Sends, Pow2, ProcessEvents, ProcessResponse, CancelUsed, Started, Edited, Numbered, IsCurrent;
    match e {
      case Edit(changes) => EditedInv(r, changes);
      case Send(asynchronous) => StartedInv(r, asynchronous);
      case Tick(time, sentAt, u, reaction) => EventsInv(r, time, sentAt, u, reaction);
      case Arrive(m, time, u, a, b) => if Matches(r, m) { ResponseInv(r, m, time, u, a, b); }
      case CancelCall(fits, reaction) => CancelUsedInv(r, fits, reaction);
      case OtherMid => OtherDrawInv(r.sent, r.gen, r.mid, r.nextMid, r.counter);
      case _ =>
    }
  }

  lemma NewInv(r: Request)
    requires IsNew(r)
    ensures Inv(r)
  {
  }

  /** Every state that a run can reach. */
  lemma {:induction false} RunInv(r: Request, es: seq<Event>)
    requires IsNew(r)
    ensures Inv(Run(r, es))
    decreases |es|
  {
    hide Next;
    if es != [] {
      RunInv(r, es[..|es| - 1]);
      NextInv(Run(r, es[..|es| - 1]), es[|es| - 1]);
    }
  }

  /**
   * Over every run: while a response is awaited the message was sent between once and
   * MAX_RETRANSMIT times and the timeout is the first one doubled for each retransmission; no
   * message identifier is ever sent more often, and a non-confirmable one exactly once.
   */
  lemma RetransmissionLimits(r: Request, es: seq<Event>)
    requires IsNew(r)
    ensures var s := Run(r, es);
            && (s.state == Receive ==>
                  && 1 <= s.retransmitCount <= COAP_CLIENT_MAX_RETRANSMIT
                  && COAP_CLIENT_ACK_TIMEOUT_MIN <= s.firstTimeout <= COAP_CLIENT_ACK_TIMEOUT_MAX
                  && s.retransmitTimeout == s.firstTimeout * Pow2(s.retransmitCount - 1))
            && (forall g: nat :: Sends(s.sent, g) <= COAP_CLIENT_MAX_RETRANSMIT)
            && (forall i | 0 <= i < |s.sent| && s.sent[i].kind == NON :: Sends(s.sent, s.sent[i].gen) == 1)
  {
    hide Run, Sends, Pow2;
    RunInv(r, es);
  }

  // ---------------------------------------------------------------- which message completes a request

  /** The states entered by a step. */
  function Entered(r: Request, e: Event): (t: seq<Status>)
  {
    var t := Next(r, e).trail;
    if |r.trail| <= |t| then t[|r.trail|..] else t
  }

  /** A response that the request may take as its own. */
  predicate Answers(r: Request, m: Response)
  {
    && m.token == r.token
    && (m.kind == CON || m.kind == NON || m.kind == ACK)
    && (m.kind == ACK ==> m.mid == r.mid && m.code != CODE_EMPTY)
  }

  /** The trail grew by states of `allowed` only. */
  ghost predicate Adds(t: seq<Status>, t': seq<Status>, allowed: set<Status>)
  {
    t <= t' && forall i | |t| <= i < |t'| :: t'[i] in allowed
  }

  lemma AddsNothing(t: seq<Status>, allowed: set<Status>)
    ensures Adds(t, t, allowed)
  {
  }

  lemma AddsOne(t: seq<Status>, s: Status, allowed: set<Status>)
    requires s in allowed
    ensures Adds(t, t + [s], allowed)
  {
  }

  lemma AddsThen(a: seq<Status>, b: seq<Status>, c: seq<Status>, x: set<Status>, y: set<Status>, allowed: set<Status>)
    requires Adds(a, b, x) && Adds(b, c, y) && x <= allowed && y <= allowed
    ensures Adds(a, c, allowed)
  {
    forall i | |a| <= i < |c|
      ensures c[i] in allowed
    {
      if i < |b| {
        assert c[i] == b[i];
      }
    }
  }

  lemma AddsMore(a: seq<Status>, b: seq<Status>, x: set<Status>, y: set<Status>)
    requires Adds(a, b, x) && x <= y
    ensures Adds(a, b, y)
  {
  }

  /** Some call of the callback cancels the request. */
  predicate Cancels(reaction: Reaction)
  {
    reaction.Do? && (reaction.action.CancelIt? || Cancels(reaction.rest))
  }

  /** What a callback adds on its own: it may take the request back, send it again or cancel it. */
  function ByCallback(reaction: Reaction): (t: set<Status>)
  {
    if Cancels(reaction) then {Init, Transmit, Canceled} else {Init, Transmit}
  }

  lemma {:induction false} ReactAdds(r: Request, reaction: Reaction)
    ensures Adds(r.trail, React(r, reaction).trail, ByCallback(reaction))
    decreases reaction, 0
  {
    hide Act, Adds;
    match reaction
    case Nothing => AddsNothing(r.trail, ByCallback(reaction));
    case Do(action, rest) =>
      ActAdds(r, action);
      ReactAdds(Act(r, action), rest);
      AddsThen(r.trail, Act(r, action).trail, React(r, reaction).trail, ByAction(action), ByCallback(rest),
               ByCallback(reaction));
  }

  function ByAction(action: Action): (t: set<Status>)
  {
    if action.CancelIt? then {Init, Transmit, Canceled} else {Init, Transmit}
  }

  lemma {:induction false} ActAdds(r: Request, action: Action)
    ensures Adds(r.trail, Act(r, action).trail, ByAction(action))
    decreases action, 0
  {
    hide Cancel, Adds;
    AddsNothing(r.trail, ByAction(action));
    match action
    case TakeBack(changes) => AddsOne(r.trail, Init, ByAction(action));
    case SendAgain => AddsOne(r.trail, Transmit, ByAction(action));
    case SetLimit(timeout) =>
    case Release =>
    case CancelIt(fits, reaction) => CancelAdds(r, fits, reaction);
  }

  lemma {:induction false} ChangeStateAdds(r: Request, s: Status, reaction: Reaction)
    ensures Adds(r.trail, ChangeState(r, s, reaction).trail, {s} + ByCallback(reaction))
    ensures r.trail + [s] <= ChangeState(r, s, reaction).trail
    decreases reaction, 1
  {
    hide React, ByCallback;
    var r1 := r.(state := s, trail := r.trail + [s]);
    ReactAdds(r1, reaction);
    AddsOne(r.trail, s, {s} + ByCallback(reaction));
    AddsThen(r.trail, r1.trail, React(r1, reaction).trail, {s} + ByCallback(reaction), ByCallback(reaction),
             {s} + ByCallback(reaction));
  }

  lemma {:induction false} ChangeAllowed(r: Request, s: Status, reaction: Reaction, allowed: set<Status>)
    requires {s} + ByCallback(reaction) <= allowed
    ensures Adds(r.trail, ChangeState(r, s, reaction).trail, allowed)
    decreases reaction, 2
  {
    hide ChangeState, Adds;
    ChangeStateAdds(r, s, reaction);
    AddsMore(r.trail, ChangeState(r, s, reaction).trail, {s} + ByCallback(reaction), allowed);
  }

  lemma {:induction false} CancelAdds(r: Request, fits: bool, reaction: Reaction)
    ensures Adds(r.trail, Cancel(r, fits, reaction).trail, {Init, Transmit, Canceled})
    decreases reaction, 3
  {
    hide ChangeState, Adds;
    ChangeAllowed(NewMid(r).(observe := Some(1), retransmitCount := 0), Transmit, reaction, {Init, Transmit, Canceled});
    ChangeAllowed(if r.observe.Some? then NewMid(r) else r, Canceled, reaction, {Init, Transmit, Canceled});
  }

  lemma EventsAdd(r: Request, time: uint32, sentAt: uint32, u: nat, reaction: Reaction)
    ensures Adds(r.trail, ProcessEvents(r, time, sentAt, u, reaction).trail, {Receive, Expired} + ByCallback(reaction))
  {
    hide RandRange, Elapsed, ChangeState, Adds;
    var all := {Receive, Expired} + ByCallback(reaction);
    AddsNothing(r.trail, all);
    match r.state {
      case Transmit => ChangeAllowed(Transmitted(r, sentAt, u), Receive, reaction, all);
      case Observing => ChangeAllowed(NewMid(r).(retransmitCount := 0), Transmit, reaction, all);
      case _ =>
        ChangeAllowed(r, Expired, reaction, all);
        ChangeAllowed(r, Transmit, reaction, all);
    }
  }

  /** A notification that is passed on: the first one, or one that is fresh. */
  predicate IsNews(r: Request, v: uint32, time: uint32)
  {
    r.state != Observing || IsFresh(r.observeSeqNum, r.retransmitStartTime, v, time)
  }

  /** The states that a matching message leads to. */
  function ByMessage(r: Request, m: Response, time: uint32): (t: set<Status>)
  {
    if m.kind == ACK && m.code == CODE_EMPTY then {Separate}
    else if m.kind == RST then {Reset}
    else if r.observe.None? then {Done}
    else if r.observe.value != 0 then {Canceled}
    else if m.observe.None? then {Observing, Canceled}
    else if IsNews(r, m.observe.value, time) then {Observing}
    else {}
  }

  lemma NotificationAdds(r: Request, m: Response, time: uint32, u: nat, a: Reaction, b: Reaction)
    ensures m.observe.None? ==>
              Adds(r.trail, ProcessNotification(r, m, time, u, a, b).trail,
                   {Observing, Canceled} + ByCallback(a) + ByCallback(b))
    ensures m.observe.Some? && IsNews(r, m.observe.value, time) ==>
              Adds(r.trail, ProcessNotification(r, m, time, u, a, b).trail, {Observing} + ByCallback(a))
    ensures m.observe.Some? && !IsNews(r, m.observe.value, time) ==> ProcessNotification(r, m, time, u, a, b) == r
  {
    hide ChangeState, Adds, ByCallback, RandRange, IsFresh;
    match m.observe {
      case Some(v) =>
        var age := match m.maxAge case Some(x) => x case None => COAP_DEFAULT_MAX_AGE;
        var wait := age * 1000 + RandRange(u, COAP_CLIENT_RAND_DELAY_MIN, COAP_CLIENT_RAND_DELAY_MAX);
        ChangeAllowed(r.(observeSeqNum := v, retransmitStartTime := time, retransmitTimeout := wait % CLOCK),
                      Observing, a, {Observing} + ByCallback(a));
      case None =>
        var all := {Observing, Canceled} + ByCallback(a) + ByCallback(b);
        var r1 := ChangeState(r, Observing, a);
        ChangeAllowed(r, Observing, a, all);
        ChangeAllowed(r1, Canceled, b, all);
        AddsThen(r.trail, r1.trail, ChangeState(r1, Canceled, b).trail, all, all, all);
    }
  }

  lemma ResponseAdds(r: Request, m: Response, time: uint32, u: nat, a: Reaction, b: Reaction)
    ensures Adds(r.trail, ProcessResponse(r, m, time, u, a, b).trail,
                 ByMessage(r, m, time) + ByCallback(a) + ByCallback(b))
  {
    hide ChangeState, Adds, ProcessNotification, ByCallback, IsNews;
    var all := ByMessage(r, m, time) + ByCallback(a) + ByCallback(b);
    if m.kind == ACK && m.code == CODE_EMPTY {
      ChangeAllowed(r, Separate, a, all);
    } else if m.kind == RST {
      ChangeAllowed(r, Reset, a, all);
    } else if r.observe.None? {
      ChangeAllowed(r, Done, a, all);
    } else if r.observe.value != 0 {
      ChangeAllowed(r, Canceled, a, all);
    } else {
      NoticeAdds(r, m, time, u, a, b, all);
    }
  }

  lemma NoticeAdds(r: Request, m: Response, time: uint32, u: nat, a: Reaction, b: Reaction, all: set<Status>)
    requires m.observe.None? ==> {Observing, Canceled} + ByCallback(a) + ByCallback(b) <= all
    requires m.observe.Some? && IsNews(r, m.observe.value, time) ==> {Observing} + ByCallback(a) <= all
    ensures Adds(r.trail, ProcessNotification(r, m, time, u, a, b).trail, all)
  {
    hide Adds, ProcessNotification, ByCallback, IsNews;
    NotificationAdds(r, m, time, u, a, b);
    var t := ProcessNotification(r, m, time, u, a, b).trail;
    if m.observe.None? {
      AddsMore(r.trail, t, {Observing, Canceled} + ByCallback(a) + ByCallback(b), all);
    } else if IsNews(r, m.observe.value, time) {
      AddsMore(r.trail, t, {Observing} + ByCallback(a), all);
    } else {
      AddsNothing(r.trail, all);
    }
  }

  /** The states that a step may enter. */
  function ByEvent(r: Request, e: Event): (t: set<Status>)
  {
    match e
    case Create(_, _) => {Init}
    case Edit(_) => {Init}
    case SetTimeout(_) => {}
    case Send(_) => {Transmit}
    case Tick(_, _, _, reaction) => {Receive, Expired} + ByCallback(reaction)
    case Arrive(m, time, _, a, b) =>
      if Matches(r, m) then ByMessage(r, m, time) + ByCallback(a) + ByCallback(b) else {}
    case CancelCall(_, _) => {Init, Transmit, Canceled}
    case Delete => {}
    case OtherMid => {}
  }

  lemma StepAdds(r: Request, e: Event)
    ensures Adds(r.trail, Next(r, e).trail, ByEvent(r, e))
  {
    hide ProcessEvents, ProcessResponse, Cancel, Matches, Adds, ByMessage, ByCallback;
    AddsNothing(r.trail, ByEvent(r, e));
    match e {
      case Tick(time, sentAt, u, reaction) => EventsAdd(r, time, sentAt, u, reaction);
      case Arrive(m, time, u, a, b) => ResponseAdds(r, m, time, u, a, b);
      case CancelCall(fits, reaction) => CancelAdds(r, fits, reaction);
      case Send(_) => AddsOne(r.trail, Transmit, {Transmit});
      case Create(_, _) => AddsOne(r.trail, Init, {Init});
      case Edit(_) => AddsOne(r.trail, Init, {Init});
      case _ =>
    }
  }

  lemma EnteredBy(r: Request, e: Event, s: Status)
    requires s in Entered(r, e)
    ensures s in ByEvent(r, e)
  {
    hide Next, ByEvent;
    StepAdds(r, e);
    var t := Next(r, e).trail;
    var i: nat :| i < |Entered(r, e)| && Entered(r, e)[i] == s;
    assert t[|r.trail| + i] == s;
  }

  /** A call of the application, or a callback, cancels the request. */
  predicate AppCancels(e: Event)
  {
    match e
    case CancelCall(_, _) => true
    case Tick(_, _, _, reaction) => Cancels(reaction)
    case Arrive(_, _, _, a, b) => Cancels(a) || Cancels(b)
    case _ => false
  }

  /**
   * In any state, a request enters DONE or OBSERVE only on a received message with its own token,
   * and with its own message identifier if the message is a piggybacked response. CANCELED needs
   * the same, or a call of the application.
   */
  lemma OnlyOwnResponses(r: Request, e: Event)
    ensures Done in Entered(r, e) || Observing in Entered(r, e) ==>
              e.Arrive? && Matches(r, e.message) && Answers(r, e.message)
    ensures Canceled in Entered(r, e) ==>
              AppCancels(e) || (e.Arrive? && Matches(r, e.message) && Answers(r, e.message))
  {
    hide Next, Entered;
    if Done in Entered(r, e) {
      EnteredBy(r, e, Done);
    }
    if Observing in Entered(r, e) {
      EnteredBy(r, e, Observing);
    }
    if Canceled in Entered(r, e) {
      EnteredBy(r, e, Canceled);
    }
  }

  // ---------------------------------------------------------------- Reset messages

  /**
   * The arrival of a Reset that the request takes as its own. A confirmable request recognises it
   * by its code, 3, and not by its type alone.
   */
  predicate TakesReset(r: Request, e: Event)
  {
    && e.Arrive? && e.message.kind == RST && r.state == Receive && e.message.mid == r.mid
    && (r.kind != CON || e.message.code == TYPE_RST)
  }

  /** A step enters RESET if and only if a Reset with the message identifier of the request is taken. */
  lemma ResetEntered(r: Request, e: Event)
    ensures Reset in Entered(r, e) <==> TakesReset(r, e)
  {
    hide Next, Entered, ProcessResponse, ChangeState;
    if Reset in Entered(r, e) {
      EnteredBy(r, e, Reset);
    }
    if TakesReset(r, e) {
      ResetTaken(r, e);
    }
  }

  lemma ResetTaken(r: Request, e: Event)
    requires TakesReset(r, e)
    ensures Reset in Entered(r, e)
  {
    hide ChangeState;
    ChangeStateAdds(r, Reset, e.first);
    assert Next(r, e) == ChangeState(r, Reset, e.first);
    assert Next(r, e).trail[|r.trail|] == Reset;
    assert Entered(r, e)[0] == Reset;
  }

  /** Step `k` of the run takes a Reset. */
  ghost predicate ResetAt(r: Request, es: seq<Event>, k: nat)
  {
    k < |es| && TakesReset(Run(r, es[..k]), es[k])
  }

  lemma ResetAtInit(r: Request, es: seq<Event>, k: nat)
    requires es != [] && k < |es| - 1
    ensures ResetAt(r, es[..|es| - 1], k) <==> ResetAt(r, es, k)
  {
    hide Run, TakesReset;
    assert es[..|es| - 1][..k] == es[..k];
  }

  /** Over every run: RESET was entered if and only if some step took a Reset. */
  lemma {:induction false} ResetInRun(r: Request, es: seq<Event>)
    requires IsNew(r)
    ensures Reset in Run(r, es).trail <==> exists k: nat :: ResetAt(r, es, k)
    decreases |es|
  {
    hide Next, TakesReset, ResetAt, Entered;
    if es == [] {
      NoStep(r);
    } else {
      var n: nat := |es| - 1;
      var init := es[..n];
      ResetInRun(r, init);
      StepTrail(Run(r, init), es[n]);
      ResetEntered(Run(r, init), es[n]);
      LastReset(r, es);
      if k: nat :| ResetAt(r, init, k) {
        ResetAtBound(r, init, k);
        ResetAtInit(r, es, k);
      }
      if k: nat :| ResetAt(r, es, k) {
        ResetAtBound(r, es, k);
        if k < n {
          ResetAtInit(r, es, k);
        }
      }
    }
  }

  lemma NoStep(r: Request)
    ensures forall k: nat :: !ResetAt(r, [], k)
  {
  }

  lemma ResetAtBound(r: Request, es: seq<Event>, k: nat)
    requires ResetAt(r, es, k)
    ensures k < |es|
  {
  }

  lemma LastReset(r: Request, es: seq<Event>)
    requires es != []
    ensures ResetAt(r, es, |es| - 1) <==> TakesReset(Run(r, es[..|es| - 1]), es[|es| - 1])
  {
  }

  lemma StepTrail(r: Request, e: Event)
    ensures forall s :: s in Next(r, e).trail <==> s in r.trail || s in Entered(r, e)
  {
    hide Next, ByEvent;
    StepAdds(r, e);
    var t := Next(r, e).trail;
    assert t == r.trail + Entered(r, e);
  }

  /** All that the callback makes of the message is confirmable. */
  predicate KeepsConfirmable(reaction: Reaction)
    decreases reaction
  {
    match reaction
    case Nothing => true
    case Do(action, rest) =>
      && (action.TakeBack? ==> action.changes.confirmable)
      && (action.CancelIt? ==> KeepsConfirmable(action.reaction))
      && KeepsConfirmable(rest)
  }

  /** Neither the application nor its callbacks make the request non-confirmable. */
  predicate IsConfirming(e: Event)
  {
    match e
    case Edit(changes) => changes.confirmable
    case Tick(_, _, _, reaction) => KeepsConfirmable(reaction)
    case Arrive(_, _, _, a, b) => KeepsConfirmable(a) && KeepsConfirmable(b)
    case CancelCall(_, reaction) => KeepsConfirmable(reaction)
    case _ => true
  }

  lemma {:induction false} ReactKind(r: Request, reaction: Reaction)
    requires KeepsConfirmable(reaction) && r.kind == CON
    ensures React(r, reaction).kind == CON
    decreases reaction, 0
  {
    hide Act;
    if reaction.Do? {
      ActKind(r, reaction.action);
      ReactKind(Act(r, reaction.action), reaction.rest);
    }
  }

  lemma {:induction false} ActKind(r: Request, action: Action)
    requires action.TakeBack? ==> action.changes.confirmable
    requires action.CancelIt? ==> KeepsConfirmable(action.reaction)
    requires r.kind == CON
    ensures Act(r, action).kind == CON
    decreases action, 0
  {
    hide CancelUsed, KeepsConfirmable;
    if action.CancelIt? {
      CancelUsedKind(r, action.fits, action.reaction);
    }
  }

  lemma {:induction false} CancelUsedKind(r: Request, fits: bool, reaction: Reaction)
    requires KeepsConfirmable(reaction) && r.kind == CON
    ensures CancelUsed(r, fits, reaction).kind == CON
    decreases reaction, 3
  {
    hide Cancel, KeepsConfirmable;
    CancelKind(r, fits, reaction);
  }

  lemma {:induction false} ChangeStateKind(r: Request, s: Status, reaction: Reaction)
    requires KeepsConfirmable(reaction) && r.kind == CON
    ensures ChangeState(r, s, reaction).kind == CON
    decreases reaction, 1
  {
    hide React, KeepsConfirmable;
    ReactKind(r.(state := s, trail := r.trail + [s]), reaction);
  }

  lemma {:induction false} CancelKind(r: Request, fits: bool, reaction: Reaction)
    requires KeepsConfirmable(reaction) && r.kind == CON
    ensures Cancel(r, fits, reaction).kind == CON
    decreases reaction, 2
  {
    hide ChangeState, KeepsConfirmable;
    ChangeStateKind(NewMid(r).(observe := Some(1), retransmitCount := 0), Transmit, reaction);
    ChangeStateKind(if r.observe.Some? then NewMid(r) else r, Canceled, reaction);
  }

  lemma NotificationKind(r: Request, m: Response, time: uint32, u: nat, a: Reaction, b: Reaction)
    requires KeepsConfirmable(a) && KeepsConfirmable(b) && r.kind == CON
    ensures ProcessNotification(r, m, time, u, a, b).kind == CON
  {
    hide ChangeState, RandRange, IsFresh, KeepsConfirmable;
    if m.observe.Some? {
      var age := match m.maxAge case Some(x) => x case None => COAP_DEFAULT_MAX_AGE;
      var wait := age * 1000 + RandRange(u, COAP_CLIENT_RAND_DELAY_MIN, COAP_CLIENT_RAND_DELAY_MAX);
      ChangeStateKind(r.(observeSeqNum := m.observe.value, retransmitStartTime := time,
                         retransmitTimeout := wait % CLOCK), Observing, a);
    } else {
      ChangeStateKind(r, Observing, a);
      ChangeStateKind(ChangeState(r, Observing, a), Canceled, b);
    }
  }

  lemma ResponseKind(r: Request, m: Response, time: uint32, u: nat, a: Reaction, b: Reaction)
    requires KeepsConfirmable(a) && KeepsConfirmable(b) && r.kind == CON
    ensures ProcessResponse(r, m, time, u, a, b).kind == CON
  {
    hide ChangeState, ProcessNotification, KeepsConfirmable;
    ChangeStateKind(r, Separate, a);
    ChangeStateKind(r, Reset, a);
    ChangeStateKind(r, Canceled, a);
    ChangeStateKind(r, Done, a);
    NotificationKind(r, m, time, u, a, b);
  }

  lemma EventsKind(r: Request, time: uint32, sentAt: uint32, u: nat, reaction: Reaction)
    requires KeepsConfirmable(reaction) && r.kind == CON
    ensures ProcessEvents(r, time, sentAt, u, reaction).kind == CON
  {
    hide ChangeState, RandRange, Elapsed, KeepsConfirmable;
    ChangeStateKind(Transmitted(r, sentAt, u), Receive, reaction);
    ChangeStateKind(r, Expired, reaction);
    ChangeStateKind(r, Transmit, reaction);
    ChangeStateKind(NewMid(r).(retransmitCount := 0), Transmit, reaction);
  }

  lemma UnusedStays(r: Request, e: Event)
    requires r.state == Unused
    ensures Next(r, e).state == Unused || (e.Create? && Next(r, e).kind == CON)
  {
  }

  lemma StepKind(r: Request, e: Event)
    requires (r.state == Unused || r.kind == CON) && IsConfirming(e)
    ensures Next(r, e).state == Unused || Next(r, e).kind == CON
  {
    hide ProcessResponse, ProcessEvents, CancelUsed, KeepsConfirmable, Matches;
    if r.state == Unused {
      UnusedStays(r, e);
    } else {
      match e {
        case Tick(time, sentAt, u, reaction) => EventsKind(r, time, sentAt, u, reaction);
        case Arrive(m, time, u, a, b) => ResponseKind(r, m, time, u, a, b);
        case CancelCall(fits, reaction) => CancelUsedKind(r, fits, reaction);
        case _ =>
      }
    }
  }

  /** The kind of a request in use is the one that the application gave it. */
  lemma {:induction false} StaysConfirmable(r: Request, es: seq<Event>)
    requires IsNew(r) && forall i | 0 <= i < |es| :: IsConfirming(es[i])
    ensures Run(r, es).state == Unused || Run(r, es).kind == CON
    decreases |es|
  {
    hide Next, IsConfirming;
    if es != [] {
      var n := |es| - 1;
      StaysConfirmable(r, es[..n]);
      StepKind(Run(r, es[..n]), es[n]);
    }
  }

  /**
   * A Reset message is Empty (section 4.2 of RFC 7252). Over every run in which all Reset messages
   * are, a confirmable request never enters RESET.
   */
  lemma EmptyResetIgnored(r: Request, es: seq<Event>)
    requires IsNew(r) && forall i | 0 <= i < |es| :: IsConfirming(es[i])
    requires forall i | 0 <= i < |es| && es[i].Arrive? && es[i].message.kind == RST :: es[i].message.code == CODE_EMPTY
    ensures Reset !in Run(r, es).trail
  {
    hide Next, Run, IsConfirming;
    ResetInRun(r, es);
    forall k: nat
      ensures !ResetAt(r, es, k)
    {
      if k < |es| {
        assert forall i | 0 <= i < k :: es[..k][i] == es[i];
        StaysConfirmable(r, es[..k]);
      }
    }
  }

  // ---------------------------------------------------------------- separate responses

  /** Steps that end the wait for a separate response. */
  predicate EndsWait(r: Request, e: Event)
  {
    match e
    case Arrive(m, _, _, _, _) => Matches(r, m)
    case Tick(time, _, _, _) => Elapsed(time, r.startTime, r.timeout)
    case CancelCall(_, _) => true
    case Delete => true
    case _ => false
  }

  lemma SeparateStep(r: Request, e: Event)
    requires r.state == Separate && !EndsWait(r, e)
    ensures Next(r, e).state == Separate && Next(r, e).sent == r.sent
    ensures forall m :: Matches(Next(r, e), m) == Matches(r, m)
    ensures Next(r, e).startTime == r.startTime
    ensures !e.SetTimeout? ==> Next(r, e).timeout == r.timeout
  {
  }

  /** No step of the run completes, expires or cancels the request. */
  predicate Waits(r: Request, es: seq<Event>)
  {
    es != [] ==> Waits(r, es[..|es| - 1]) && !EndsWait(Run(r, es[..|es| - 1]), es[|es| - 1])
  }

  /** While a separate response is awaited, no datagram of the request is sent. */
  lemma {:induction false} SilentWhileSeparate(r: Request, es: seq<Event>)
    requires r.state == Separate && Waits(r, es)
    ensures Run(r, es).state == Separate && Run(r, es).sent == r.sent
    decreases |es|
  {
    if es != [] {
      hide Next, EndsWait;
      SilentWhileSeparate(r, es[..|es| - 1]);
      SeparateStep(Run(r, es[..|es| - 1]), es[|es| - 1]);
    }
  }
}
