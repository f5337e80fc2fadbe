/**
 * The functions of `coap_client_misc.c`, `coap_client_observe.c` and `coap_client_request.c` that
 * update a request in place, each proved to be the step of the state machine it stands for.
 */
module RequestHandle {
  import opened Bytes
  import opened Observe
  import opened ClientRequest
  import opened RequestRuns

  class Handle {
    var state: Status
    var asynchronous: bool
    var kind: MessageType
    var mid: uint16
    var token: seq<byte>
    var observe: Option<uint32>
    var startTime: uint32
    var timeout: uint32
    var retransmitStartTime: uint32
    var retransmitTimeout: uint32
    var retransmitCount: nat
    var observeSeqNum: uint32
    /** `context->mid`. */
    var nextMid: uint16
    ghost var gen: nat
    ghost var counter: Counter
    ghost var firstTimeout: nat
    ghost var sent: seq<Datagram>
    ghost var trail: seq<Status>

    /** The request as a value. */
    ghost function Model(): (r: Request)
      reads this
    {
      Request(state, asynchronous, kind, mid, token, observe, startTime, timeout, retransmitStartTime,
              retransmitTimeout, retransmitCount, observeSeqNum, nextMid, gen, counter, firstTimeout, sent, trail)
    }

    /** The numbers of transmissions and the timeouts agree with what was sent. */
    ghost predicate Valid()
      reads this
    {
      Inv(Model())
    }

    /** `coapClientGenerateMessageId`: nothing was sent yet under the new identifier. */
    method GenerateMessageId()
      modifies this
      ensures Model() == NewMid(old(Model()))
      ensures old(Bounded(sent, gen)) ==> Bounded(sent, gen) && Sends(sent, gen) == 0
    {
      hide Bounded, Sends;
      if Bounded(sent, gen) {
        NewMidInv(Model());
      }
      mid := nextMid;
      nextMid := (nextMid + 1) % 0x1_0000;
      gen := gen + 1;
      counter := Drawn(counter);
    }

    /** Switches to a state and records it. */
    method Enter(s: Status)
      modifies this
      ensures Model() == old(Model()).(state := s, trail := old(trail) + [s])
    {
      state := s;
      trail := trail + [s];
    }

    /** The application's callback. */
    method Callback(reaction: Reaction)
      modifies this
      ensures Model() == React(old(Model()), reaction)
      decreases reaction, 0
    {
      hide Act;
      match reaction {
        case Nothing =>
        case Do(action, rest) =>
          Call(action);
          Callback(rest);
      }
    }

    /** One call that the callback makes. */
    method Call(action: Action)
      modifies this
      ensures Model() == Act(old(Model()), action)
      decreases action, 0
    {
      hide Cancel, Edited, Started;
      match action {
        case TakeBack(changes) => EditMessage(changes);
        case SendAgain => SendRequest(true);
        case SetLimit(limit) => timeout := limit;
        case Release => state := Unused;
        case CancelIt(fits, reaction) =>
          if state != Unused {
            CancelRequest(fits, reaction);
          }
      }
    }

    /** `coapClientGetRequestMessage`, followed by changes to the message. */
    method EditMessage(changes: Changes)
      modifies this
      ensures Model() == Edited(old(Model()), changes)
    {
      hide IsAccessible;
      if IsAccessible(state) {
        SetMessage(if changes.confirmable then CON else NON, changes.observe);
        Enter(Init);
      }
    }

    /** The type and the Observe option of the message. */
    method SetMessage(newKind: MessageType, newObserve: Option<uint32>)
      modifies this
      ensures Model() == old(Model()).(kind := newKind, observe := newObserve)
    {
      kind := newKind;
      observe := newObserve;
    }

    /** `coapClientChangeRequestState`. */
    method ChangeRequestState(s: Status, reaction: Reaction)
      modifies this
      ensures Model() == ChangeState(old(Model()), s, reaction)
      decreases reaction, 1
    {
      Enter(s);
      if asynchronous {
        if s == Observing || s == Done || s == Reset || s == Expired || s == Canceled {
          Callback(reaction);
        }
        if s == Done || s == Reset || s == Expired || s == Canceled {
          if state != Transmit {
            state := Unused;
          }
        }
      }
    }

    /** The INIT branch of `coapClientSendRequest`; in every other state the call only waits. */
    method SendRequest(callback: bool)
      modifies this
      ensures Model() == Started(old(Model()), callback)
    {
      if state == Init {
        GenerateMessageId();
        retransmitCount := 0;
        asynchronous := callback;
        Enter(Transmit);
      }
    }

    /** Sends the request and sets the retransmission timer; count and timeout stay in step. */
    method SendDatagram(sentAt: uint32, u: nat)
      modifies this
      ensures Model() == Transmitted(old(Model()), sentAt, u)
      ensures old(Valid()) && old(state) == Transmit ==> InStep(Model())
    {
      hide RandRange, InStep, Inv;
      if Valid() && state == Transmit {
        TransmittedInv(Model(), sentAt, u);
      }
      LogDatagram(sentAt);
      if retransmitCount == 0 {
        FirstTimeout(RandRange(u, COAP_CLIENT_ACK_TIMEOUT_MIN, COAP_CLIENT_ACK_TIMEOUT_MAX));
      } else {
        retransmitTimeout := 2 * retransmitTimeout % CLOCK;
      }
      retransmitCount := retransmitCount + 1;
    }

    method LogDatagram(sentAt: uint32)
      modifies this
      ensures Model() == old(Model()).(sent := old(sent) + [Mail(old(Model()))],
                                       retransmitStartTime := sentAt)
    {
      sent := sent + [Mail(Model())];
      retransmitStartTime := sentAt;
    }

    method FirstTimeout(first: uint32)
      modifies this
      ensures Model() == old(Model()).(startTime := old(retransmitStartTime), retransmitTimeout := first,
                                       firstTimeout := first)
    {
      startTime := retransmitStartTime;
      retransmitTimeout := first;
      firstTimeout := first;
    }

    /** `coapClientProcessRequestEvents`. */
    method ProcessRequestEvents(time: uint32, sentAt: uint32, u: nat, reaction: Reaction)
      modifies this
      ensures Model() == ProcessEvents(old(Model()), time, sentAt, u, reaction)
      ensures old(Valid()) ==> Valid()
    {
      hide ChangeState, Transmitted, Elapsed, Inv;
      if Valid() { EventsInv(Model(), time, sentAt, u, reaction); }
      if state == Transmit {
        SendDatagram(sentAt, u);
        ChangeRequestState(Receive, reaction);
      } else if state == Receive {
        if Elapsed(time, startTime, timeout) {
          ChangeRequestState(Expired, reaction);
        } else if Elapsed(time, retransmitStartTime, retransmitTimeout) {
          if kind == CON {
            if retransmitCount < COAP_CLIENT_MAX_RETRANSMIT {
              ChangeRequestState(Transmit, reaction);
            } else {
              ChangeRequestState(Expired, reaction);
            }
          }
        }
      } else if state == Separate {
        if Elapsed(time, startTime, timeout) {
          ChangeRequestState(Expired, reaction);
        }
      } else if state == Observing {
        if Elapsed(time, retransmitStartTime, retransmitTimeout) {
          GenerateMessageId();
          retransmitCount := 0;
          ChangeRequestState(Transmit, reaction);
        }
      }
    }

    /** `coapClientProcessNotification`. */
    method ProcessNotice(m: Response, time: uint32, u: nat, a: Reaction, b: Reaction)
      modifies this
      ensures Model() == ProcessNotification(old(Model()), m, time, u, a, b)
    {
      hide ChangeState, RandRange, IsFresh;
      if m.observe.Some? {
        var valid := state != Observing || IsFresh(observeSeqNum, retransmitStartTime, m.observe.value, time);
        if valid {
          var value := if m.maxAge.Some? then m.maxAge.value else COAP_DEFAULT_MAX_AGE;
          Note(m.observe.value, time,
               (value * 1000 + RandRange(u, COAP_CLIENT_RAND_DELAY_MIN, COAP_CLIENT_RAND_DELAY_MAX)) % CLOCK);
          ChangeRequestState(Observing, a);
        }
      } else {
        ChangeRequestState(Observing, a);
        ChangeRequestState(Canceled, b);
      }
    }

    /** Remembers the freshest notification and when to register again. */
    method Note(v: uint32, time: uint32, wait: uint32)
      modifies this
      ensures Model() == old(Model()).(observeSeqNum := v, retransmitStartTime := time, retransmitTimeout := wait)
    {
      observeSeqNum := v;
      retransmitStartTime := time;
      retransmitTimeout := wait;
    }

    /** `coapClientProcessResponse`. */
    method ProcessAnswer(m: Response, time: uint32, u: nat, a: Reaction, b: Reaction)
      modifies this
      ensures Model() == ProcessResponse(old(Model()), m, time, u, a, b)
    {
      hide ChangeState, ProcessNotification;
      if m.kind == ACK && m.code == CODE_EMPTY {
        ChangeRequestState(Separate, a);
      } else if m.kind == CON || m.kind == NON || m.kind == ACK {
        if observe.Some? {
          if observe.value == 0 {
            ProcessNotice(m, time, u, a, b);
          } else {
            ChangeRequestState(Canceled, a);
          }
        } else {
          ChangeRequestState(Done, a);
        }
      } else {
        ChangeRequestState(Reset, a);
      }
    }

    /** `coapClientCancelRequest`. */
    method CancelRequest(fits: bool, reaction: Reaction)
      modifies this
      ensures Model() == Cancel(old(Model()), fits, reaction)
      decreases reaction, 2
    {
      hide ChangeState;
      if observe.Some? {
        GenerateMessageId();
        if fits {
          observe := Some(1);
          retransmitCount := 0;
          ChangeRequestState(Transmit, reaction);
        } else {
          ChangeRequestState(Canceled, reaction);
          state := Unused;
        }
      } else {
        ChangeRequestState(Canceled, reaction);
        state := Unused;
      }
    }

    /** `coapClientMatchResponse`. */
    method MatchResponse(m: Response) returns (matches: bool)
      ensures matches == Matches(Model(), m)
    {
      if state == Receive {
        if kind == CON {
          if m.kind == CON || m.kind == NON {
            return m.token == token;
          } else if m.kind == ACK {
            if m.mid == mid {
              return m.code == CODE_EMPTY || m.token == token;
            }
          } else if m.code == TYPE_RST {
            return m.mid == mid;
          }
        } else {
          if m.kind == CON || m.kind == NON {
            return m.token == token;
          } else if m.kind == RST {
            return m.mid == mid;
          }
        }
      } else if state == Separate || state == Observing {
        if m.kind == CON || m.kind == NON {
          return m.token == token;
        }
      }
      return false;
    }

    /** Another request of the context generates an identifier. */
    method DrawOther()
      modifies this
      ensures Model() == old(Model()).(nextMid := (old(nextMid) + 1) % 0x1_0000,
                                       counter := old(counter).(drawn := old(counter).drawn + 1))
    {
      nextMid := (nextMid + 1) % 0x1_0000;
      counter := counter.(drawn := counter.drawn + 1);
    }

    /** `coapClientCreateRequest` on this entry of the table. */
    method CreateRequest(newToken: seq<byte>, limit: uint32)
      modifies this
      ensures Model() == Next(old(Model()), Create(newToken, limit))
    {
      hide ProcessEvents, ProcessResponse, CancelUsed, Started, Edited, Matches;
      if state == Unused {
        ClearEntry(newToken);
        SetMessage(CON, None);
        timeout := limit;
        Enter(Init);
      }
    }

    method ClearEntry(newToken: seq<byte>)
      modifies this
      ensures Model() == old(Model()).(asynchronous := false, mid := 0, token := newToken)
    {
      asynchronous := false;
      mid := 0;
      token := newToken;
    }

    /** One event of the client's loop or call of the application. */
    method Step(e: Event)
      modifies this
      ensures Model() == Next(old(Model()), e)
      ensures old(Valid()) ==> Valid()
    {
      hide ProcessEvents, ProcessResponse, Cancel, Matches, Inv, Edited, Started;
      if Valid() { NextInv(Model(), e); }
      match e {
        case Create(newToken, limit) => CreateRequest(newToken, limit);
        case Edit(changes) => EditMessage(changes);
        case SetTimeout(limit) => timeout := limit;
        case Send(callback) => SendRequest(callback);
        case Tick(time, sentAt, u, reaction) => ProcessRequestEvents(time, sentAt, u, reaction);
        case Arrive(m, time, u, a, b) =>
          var matches := MatchResponse(m);
          if matches {
            ProcessAnswer(m, time, u, a, b);
          }
        case CancelCall(fits, reaction) =>
          if state != Unused {
            CancelRequest(fits, reaction);
          }
        case Delete => state := Unused;
        case OtherMid => DrawOther();
      }
    }

    /**
     * Any sequence of events on a new table entry: no message identifier is sent too often, the
     * timeout doubles, and RESET is entered exactly when a Reset was taken.
     */
    method Drive(es: seq<Event>)
      requires IsNew(Model())
      modifies this
      ensures Valid() && Model() == Run(old(Model()), es)
      ensures forall g: nat :: Sends(sent, g) <= COAP_CLIENT_MAX_RETRANSMIT
      ensures forall i | 0 <= i < |sent| && sent[i].kind == NON :: Sends(sent, sent[i].gen) == 1
      ensures state == Receive ==>
                && 1 <= retransmitCount <= COAP_CLIENT_MAX_RETRANSMIT
                && COAP_CLIENT_ACK_TIMEOUT_MIN <= firstTimeout <= COAP_CLIENT_ACK_TIMEOUT_MAX
                && retransmitTimeout == firstTimeout * Pow2(retransmitCount - 1)
      ensures Reset in trail <==> exists k: nat :: ResetAt(old(Model()), es, k)
    {
      hide Next, Inv, ResetAt, Sends, Pow2;
      ghost var start := Model();
      NewInv(start);
      var i: nat := 0;
      assert es[..0] == [];
      while i < |es|
        invariant i <= |es| && Valid() && Model() == Run(start, es[..i])
      {
        assert es[..i + 1][..i] == es[..i];
        Step(es[i]);
        i := i + 1;
      }
      assert es[..i] == es;
      RetransmissionLimits(start, es);
      ResetInRun(start, es);
    }
  }
}
