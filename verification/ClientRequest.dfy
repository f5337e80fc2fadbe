/**
 * The CoAP client request state machine: transmission and retransmission (section 4.2 of
 * RFC 7252), request/response matching (section 5.3.2 of RFC 7252), observation and its
 * cancellation (RFC 7641). The clock, the random numbers, the received messages, the application
 * and its callbacks are inputs.
 */
module ClientRequest {
  import opened Bytes
  import opened Observe

  const COAP_CLIENT_MAX_RETRANSMIT := 4
  const COAP_CLIENT_ACK_TIMEOUT_MIN := 2000
  const COAP_CLIENT_ACK_TIMEOUT_MAX := 3000
  const COAP_CLIENT_RAND_DELAY_MIN := 5000
  const COAP_CLIENT_RAND_DELAY_MAX := 15000
  const COAP_DEFAULT_MAX_AGE := 60

  datatype Status =
    | Unused | Init | Transmit | Receive | Separate | Observing | Done | Reset | Expired | Canceled

  datatype MessageType = CON | NON | ACK | RST

  /** COAP_CODE_EMPTY, and the number of the Reset message type. */
  const CODE_EMPTY: byte := 0
  const TYPE_RST: byte := 3

  /** The parts of a received message that the state machine looks at. */
  datatype Response = Response(
    kind: MessageType, code: byte, mid: uint16, token: seq<byte>,
    observe: Option<uint32>, maxAge: Option<uint32>)

  /**
   * A datagram of the request. `gen` counts the message identifiers generated for the request, and
   * `draw` those taken from the counter of the context.
   */
  datatype Datagram = Datagram(gen: nat, mid: uint16, kind: MessageType, draw: nat)

  /** The counter of the context: its first value, how often it was drawn from, and the draw of the current identifier. */
  datatype Counter = Counter(base: uint16, drawn: nat, draw: nat)

  /** What the application changes in the message of a request. */
  datatype Changes = Changes(confirmable: bool, observe: Option<uint32>)

  /**
   * A call that a completion callback makes on its own request. A cancellation may call the callback
   * again, which then does `reaction`; `fits` is as in `Cancel`.
   */
  datatype Action =
    | TakeBack(changes: Changes)
    | SendAgain
    | SetLimit(timeout: uint32)
    | Release
    | CancelIt(fits: bool, reaction: Reaction)

  /** The calls that a completion callback makes, one after the other. */
  datatype Reaction = Nothing | Do(action: Action, rest: Reaction)

  /**
   * A request: the fields of `CoapClientRequest` and of its message header, the message identifier
   * counter of the context, and the history of the run (`gen`, `counter`, `firstTimeout`, `sent`,
   * `trail`).
   */
  datatype Request = Request(
    state: Status, asynchronous: bool,
    kind: MessageType, mid: uint16, token: seq<byte>, observe: Option<uint32>,
    startTime: uint32, timeout: uint32,
    retransmitStartTime: uint32, retransmitTimeout: uint32, retransmitCount: nat,
    observeSeqNum: uint32, nextMid: uint16,
    gen: nat, counter: Counter, firstTimeout: nat, sent: seq<Datagram>, trail: seq<Status>)

  // ---------------------------------------------------------------- steps

  /** `netGetRandRange(min, max)` for a random number `u`. */
  function RandRange(u: nat, min: nat, max: nat): (r: nat)
    requires min <= max
    ensures min <= r <= max
  {
    min + u % (max - min + 1)
  }

  /** `coapClientGenerateMessageId`. */
  function NewMid(r: Request): (r': Request)
  {
    r.(mid := r.nextMid, nextMid := (r.nextMid + 1) % 0x1_0000, gen := r.gen + 1, counter := Drawn(r.counter))
  }

  /** The counter after another draw, for the current identifier. */
  function Drawn(c: Counter): (c': Counter)
  {
    c.(drawn := c.drawn + 1, draw := c.drawn)
  }

  /** The datagram that carries the message. */
  function Mail(r: Request): (x: Datagram)
  {
    Datagram(r.gen, r.mid, r.kind, r.counter.draw)
  }

  /** The INIT branch of `coapClientSendRequest`. */
  function Launch(r: Request, asynchronous: bool): (r': Request)
  {
    NewMid(r).(retransmitCount := 0, asynchronous := asynchronous, state := Transmit, trail := r.trail + [Transmit])
  }

  /** `coapClientGetRequestMessage`: the states in which the application may touch the message. */
  predicate IsAccessible(s: Status)
  {
    s == Init || s == Observing || IsFinal(s)
  }

  /** `coapClientGetRequestMessage`, followed by changes to the message. */
  function Edited(r: Request, c: Changes): (r': Request)
  {
    if IsAccessible(r.state) then
      r.(state := Init, trail := r.trail + [Init], kind := if c.confirmable then CON else NON, observe := c.observe)
    else r
  }

  /** `coapClientSendRequest`, as far as it does not wait. */
  function Started(r: Request, asynchronous: bool): (r': Request)
  {
    if r.state == Init then Launch(r, asynchronous) else r
  }

  /** `coapClientCancelRequest` on a request in use. */
  function CancelUsed(r: Request, fits: bool, reaction: Reaction): (r': Request)
    decreases reaction, 3
  {
    if r.state == Unused then r else Cancel(r, fits, reaction)
  }

  function Act(r: Request, action: Action): (r': Request)
    decreases action, 0
  {
    match action
    case TakeBack(changes) => Edited(r, changes)
    case SendAgain => Started(r, true)
    case SetLimit(timeout) => r.(timeout := timeout)
    case Release => r.(state := Unused)
    case CancelIt(fits, reaction) => CancelUsed(r, fits, reaction)
  }

  function React(r: Request, reaction: Reaction): (r': Request)
    decreases reaction, 0
  {
    match reaction
    case Nothing => r
    case Do(action, rest) => React(Act(r, action), rest)
  }

  predicate IsFinal(s: Status)
  {
    s == Done || s == Reset || s == Expired || s == Canceled
  }

  /** `coapClientChangeRequestState`. */
  function ChangeState(r: Request, s: Status, reaction: Reaction): (r': Request)
    decreases reaction, 1
  {
    var r1 := r.(state := s, trail := r.trail + [s]);
    if !r.asynchronous then r1
    else
      var r2 := if IsFinal(s) || s == Observing then React(r1, reaction) else r1;
      if IsFinal(s) && r2.state != Transmit then r2.(state := Unused) else r2
  }

  /** `timeCompare(time, start + duration) >= 0`. */
  predicate Elapsed(time: uint32, start: uint32, duration: uint32)
  {
    TimeCompare(time, (start + duration) % CLOCK) >= 0
  }

  /** One transmission: `sentAt` is the clock after sending, `u` a random number. */
  function Transmitted(r: Request, sentAt: uint32, u: nat): (r': Request)
  {
    var first := RandRange(u, COAP_CLIENT_ACK_TIMEOUT_MIN, COAP_CLIENT_ACK_TIMEOUT_MAX);
    var r1 := r.(sent := r.sent + [Mail(r)], retransmitStartTime := sentAt,
                 retransmitCount := r.retransmitCount + 1);
    if r.retransmitCount == 0 then r1.(startTime := sentAt, retransmitTimeout := first, firstTimeout := first)
    else r1.(retransmitTimeout := 2 * r.retransmitTimeout % CLOCK)
  }

  /** `coapClientProcessRequestEvents`; `sentAt` is the clock after sending, `u` a random number. */
  function ProcessEvents(r: Request, time: uint32, sentAt: uint32, u: nat, reaction: Reaction): (r': Request)
  {
    match r.state
    case Transmit => ChangeState(Transmitted(r, sentAt, u), Receive, reaction)
    case Receive =>
      if Elapsed(time, r.startTime, r.timeout) then ChangeState(r, Expired, reaction)
      else if Elapsed(time, r.retransmitStartTime, r.retransmitTimeout) && r.kind == CON then
        if r.retransmitCount < COAP_CLIENT_MAX_RETRANSMIT then ChangeState(r, Transmit, reaction)
        else ChangeState(r, Expired, reaction)
      else r
    case Separate =>
      if Elapsed(time, r.startTime, r.timeout) then ChangeState(r, Expired, reaction) else r
    case Observing =>
      if Elapsed(time, r.retransmitStartTime, r.retransmitTimeout) then
        ChangeState(NewMid(r).(retransmitCount := 0), Transmit, reaction)
      else r
    case _ => r
  }

  /** `coapClientMatchResponse`. */
  predicate Matches(r: Request, m: Response)
  {
    match r.state
    case Receive => if r.kind == CON then MatchesConfirmable(r, m) else MatchesNonConfirmable(r, m)
    case Separate => (m.kind == CON || m.kind == NON) && m.token == r.token
    case Observing => (m.kind == CON || m.kind == NON) && m.token == r.token
    case _ => false
  }

  /** A confirmable request in the RECEIVE state. A Reset is recognised by its code, not its type. */
  predicate MatchesConfirmable(r: Request, m: Response)
  {
    if m.kind == CON || m.kind == NON then m.token == r.token
    else if m.kind == ACK then m.mid == r.mid && (m.code == CODE_EMPTY || m.token == r.token)
    else m.code == TYPE_RST && m.mid == r.mid
  }

  predicate MatchesNonConfirmable(r: Request, m: Response)
  {
    if m.kind == CON || m.kind == NON then m.token == r.token
    else m.kind == RST && m.mid == r.mid
  }

  /** `coapClientProcessNotification`. */
  function ProcessNotification(r: Request, m: Response, time: uint32, u: nat, a: Reaction, b: Reaction): (r': Request)
  {
    match m.observe
    case Some(v) =>
      if r.state != Observing || IsFresh(r.observeSeqNum, r.retransmitStartTime, v, time) then
        var age := match m.maxAge case Some(x) => x case None => COAP_DEFAULT_MAX_AGE;
        var wait := age * 1000 + RandRange(u, COAP_CLIENT_RAND_DELAY_MIN, COAP_CLIENT_RAND_DELAY_MAX);
        ChangeState(r.(observeSeqNum := v, retransmitStartTime := time, retransmitTimeout := wait % CLOCK),
                    Observing, a)
      else r
    case None => ChangeState(ChangeState(r, Observing, a), Canceled, b)
  }

  /** `coapClientProcessResponse`. */
  function ProcessResponse(r: Request, m: Response, time: uint32, u: nat, a: Reaction, b: Reaction): (r': Request)
  {
    if m.kind == ACK && m.code == CODE_EMPTY then ChangeState(r, Separate, a)
    else if m.kind == RST then ChangeState(r, Reset, a)
    else
      match r.observe
      case Some(v) => if v == 0 then ProcessNotification(r, m, time, u, a, b) else ChangeState(r, Canceled, a)
      case None => ChangeState(r, Done, a)
  }

  /** `coapClientCancelRequest`; `fits` tells whether the Observe option could be rewritten. */
  function Cancel(r: Request, fits: bool, reaction: Reaction): (r': Request)
    decreases reaction, 2
  {
    if r.observe.Some? && fits then
      ChangeState(NewMid(r).(observe := Some(1), retransmitCount := 0), Transmit, reaction)
    else
      ChangeState(if r.observe.Some? then NewMid(r) else r, Canceled, reaction).(state := Unused)
  }

  // ---------------------------------------------------------------- runs

  /** Everything that can happen to a request. */
  datatype Event =
    | Create(token: seq<byte>, timeout: uint32)
    | Edit(changes: Changes)
    | SetTimeout(timeout: uint32)
    | Send(asynchronous: bool)
    | Tick(time: uint32, sentAt: uint32, u: nat, reaction: Reaction)
    | Arrive(message: Response, time: uint32, u: nat, first: Reaction, second: Reaction)
    | CancelCall(fits: bool, reaction: Reaction)
    | Delete
    | OtherMid

  function Next(r: Request, e: Event): (r': Request)
  {
    match e
    case Create(token, timeout) =>
      if r.state == Unused then
        r.(state := Init, trail := r.trail + [Init], asynchronous := false, kind := CON, mid := 0, token := token,
           observe := None, timeout := timeout)
      else r
    case Edit(changes) => Edited(r, changes)
    case SetTimeout(timeout) => r.(timeout := timeout)
    case Send(asynchronous) => Started(r, asynchronous)
    case Tick(time, sentAt, u, reaction) => ProcessEvents(r, time, sentAt, u, reaction)
    case Arrive(m, time, u, a, b) => if Matches(r, m) then ProcessResponse(r, m, time, u, a, b) else r
    case CancelCall(fits, reaction) => CancelUsed(r, fits, reaction)
    case Delete => r.(state := Unused)
    case OtherMid =>
      r.(nextMid := (r.nextMid + 1) % 0x1_0000, counter := r.counter.(drawn := r.counter.drawn + 1))
  }

  function Run(r: Request, es: seq<Event>): (r': Request)
  {
    if es == [] then r else Next(Run(r, es[..|es| - 1]), es[|es| - 1])
  }

  /** A request table entry before its first use. */
  predicate IsNew(r: Request)
  {
    && r.state == Unused && r.sent == [] && r.trail == [] && (r.kind == CON || r.kind == NON)
    && r.counter.base == r.nextMid && r.counter.drawn == 0
  }
}
