/**
 * The TCP state machine (section 3.9 of RFC 793): the handlers of the connection states, the user
 * calls and the timers as steps on a control block. Sequence numbers wrap at 2^32.
 */
module TcpFsm {
  import opened Bytes

  const MODULUS := 0x1_0000_0000
  const HALF := 0x8000_0000
  const TCP_MAX_TX_BUFFER_SIZE := 22880

  datatype State =
    | Closed | SynSent | SynReceived | Established | CloseWait | LastAck | FinWait1 | FinWait2 | Closing | TimeWait

  /** The fields of a received segment that the handlers look at. */
  datatype Segment = Segment(
    seqNum: uint32, ackNum: uint32, length: uint16, fin: bool, syn: bool, rst: bool, ack: bool)

  datatype Kind = SendSyn | SendSynAck | SendAck | SendFinAck | SendRst | SendRstAck

  /** A control segment that was sent. */
  datatype Reply = Reply(kind: Kind, seqNum: uint32, ackNum: uint32)

  /** The branch that a `tcpShutdown` call in progress has taken. */
  datatype Call = NoCall | ActiveClose | PassiveClose

  /**
   * The control block, the `tcpShutdown` call in progress, and the history of the connection:
   * `out` is what was sent, `seen` what arrived, `fins` how often RCV.NXT was advanced over a FIN
   * and `finEnd` the value it then got, `ourFin` the sequence number of our FIN and `mark` the
   * number of segments seen before it was sent.
   */
  datatype Tcb = Tcb(
    state: State, owned: bool, used: bool, resetFlag: bool, closedFlag: bool,
    iss: uint32, sndUna: uint32, sndNxt: uint32, irs: uint32, rcvNxt: uint32, rcvWnd: uint16,
    call: Call,
    out: seq<Reply>, seen: seq<Segment>, fins: nat, finEnd: uint32, ourFin: Option<uint32>, mark: nat)

  // ---------------------------------------------------------------- sequence numbers

  function Add(a: uint32, n: int): (r: uint32)
  {
    (a + n) % MODULUS
  }

  /** How far `a` is ahead of `b` on the circle of sequence numbers. */
  function Ahead(a: uint32, b: uint32): (r: uint32)
  {
    (a - b) % MODULUS
  }

  /** `TCP_CMP_SEQ`. */
  function CmpSeq(a: uint32, b: uint32): (r: int)
  {
    if Ahead(a, b) < HALF then Ahead(a, b) else Ahead(a, b) - MODULUS
  }

  /** The number of sequence numbers sent and not acknowledged. */
  function Outstanding(s: Tcb): (r: uint32)
  {
    Ahead(s.sndNxt, s.sndUna)
  }

  // ---------------------------------------------------------------- helpers of the handlers

  /** What a check decides: drop the segment or go on with it. */
  datatype Outcome = Stop(tcb: Tcb) | Go(tcb: Tcb)

  /** `tcpChangeState`. */
  function ChangeState(s: Tcb, to: State): (s': Tcb)
  {
    if to != Closed then s.(state := to)
    else if s.state == LastAck || s.state == TimeWait then s.(state := Closed, closedFlag := true)
    else s.(state := Closed, resetFlag := true)
  }

  /** `tcpSendSegment` for a control segment. */
  function SendControl(s: Tcb, kind: Kind, seqNum: uint32, ackNum: uint32): (s': Tcb)
  {
    s.(out := s.out + [Reply(kind, seqNum, ackNum)])
  }

  function SendAckNow(s: Tcb): (s': Tcb)
  {
    SendControl(s, SendAck, s.sndNxt, s.rcvNxt)
  }

  /** `n` lies in the receive window. */
  predicate InWindow(s: Tcb, n: uint32)
  {
    CmpSeq(n, s.rcvNxt) >= 0 && CmpSeq(n, Add(s.rcvNxt, s.rcvWnd)) < 0
  }

  /** The acceptability test of `tcpCheckSequenceNumber`. */
  predicate Acceptable(s: Tcb, g: Segment)
  {
    if g.length == 0 && s.rcvWnd == 0 then g.seqNum == s.rcvNxt
    else if g.length == 0 then InWindow(s, g.seqNum)
    else s.rcvWnd != 0 && (InWindow(s, g.seqNum) || InWindow(s, Add(g.seqNum, g.length - 1)))
  }

  /** `tcpCheckSequenceNumber`. */
  function CheckSequence(s: Tcb, g: Segment): (o: Outcome)
  {
    if Acceptable(s, g) then Go(s) else Stop(if g.rst then s else SendAckNow(s))
  }

  /** `tcpCheckSyn`. */
  function CheckSyn(s: Tcb, g: Segment): (o: Outcome)
  {
    if !g.syn then Go(s)
    else if g.ack then Stop(SendControl(s, SendRst, g.ackNum, 0))
    else Stop(SendControl(s, SendRstAck, 0, Add(g.seqNum, g.length + 1)))
  }

  /** `tcpCheckAck`, without the send window and congestion control. */
  function CheckAck(s: Tcb, g: Segment): (o: Outcome)
  {
    if !g.ack then Stop(s)
    else if CmpSeq(g.ackNum, s.sndUna) < 0 then Go(s)
    else if CmpSeq(g.ackNum, s.sndNxt) > 0 then Stop(SendAckNow(s))
    else if CmpSeq(g.ackNum, s.sndUna) > 0 then Go(s.(sndUna := g.ackNum))
    else Go(s)
  }

  /**
   * The range of received data that `tcpUpdateSackBlocks` makes of a segment: the segment alone, or
   * what it becomes together with the blocks that are queued.
   */
  datatype Merged = Unqueued | Merged(leftEdge: uint32, rightEdge: uint32)

  /** The first sequence number of the text that lies in the receive window. */
  function LeftEdge(next: uint32, g: Segment): (n: uint32)
  {
    if CmpSeq(g.seqNum, next) < 0 then next else g.seqNum
  }

  /** The sequence number behind it. */
  function RightEdge(next: uint32, wnd: uint16, g: Segment): (n: uint32)
  {
    var end, limit := Add(g.seqNum, g.length), Add(next, wnd);
    if CmpSeq(end, limit) > 0 then limit else end
  }

  /** How much a segment adds to the data received in order; none if there is a gap in front of it. */
  function Gain(next: uint32, wnd: uint16, g: Segment, m: Merged): (n: Option<uint32>)
  {
    var left := if m.Merged? then m.leftEdge else LeftEdge(next, g);
    var right := if m.Merged? then m.rightEdge else RightEdge(next, wnd, g);
    if CmpSeq(left, next) > 0 then None else Some(Ahead(right, left))
  }

  /** `tcpProcessSegmentData`. */
  function ProcessData(s: Tcb, g: Segment, m: Merged): (s': Tcb)
  {
    match Gain(s.rcvNxt, s.rcvWnd, g, m)
    case None => SendAckNow(s)
    case Some(n) => SendAckNow(s.(rcvNxt := Add(s.rcvNxt, n), rcvWnd := (s.rcvWnd - n) % 0x1_0000))
  }

  /** The segment's text, if it has any. */
  function TakeText(s: Tcb, g: Segment, m: Merged): (s': Tcb)
  {
    if g.length > 0 then ProcessData(s, g, m) else s
  }

  /** All of the segment was received, and it carries a FIN. */
  predicate AtFin(s: Tcb, g: Segment)
  {
    g.fin && s.rcvNxt == Add(g.seqNum, g.length)
  }

  /** Advances RCV.NXT over the peer's FIN and acknowledges it. */
  function TakeFin(s: Tcb): (s': Tcb)
  {
    SendAckNow(s.(rcvNxt := Add(s.rcvNxt, 1), fins := s.fins + 1, finEnd := Add(s.rcvNxt, 1)))
  }

  /** `tcpNagleAlgo` as far as SND.NXT goes: it sends at most `n` bytes of the usable window. */
  function Push(s: Tcb, n: nat): (s': Tcb)
  {
    if Outstanding(s) + n <= TCP_MAX_TX_BUFFER_SIZE then s.(sndNxt := Add(s.sndNxt, n)) else s
  }

  /** The checks that open every handler of a synchronized state: sequence number, RST, SYN. */
  function Screen(s: Tcb, g: Segment): (o: Outcome)
  {
    match CheckSequence(s, g)
    case Stop(s1) => Stop(s1)
    case Go(s1) => if g.rst then Stop(ChangeState(s1, Closed)) else CheckSyn(s1, g)
  }

  /** The same, followed by the ACK field. */
  function ScreenAck(s: Tcb, g: Segment): (o: Outcome)
  {
    match Screen(s, g)
    case Stop(s1) => Stop(s1)
    case Go(s1) => CheckAck(s1, g)
  }

  // ---------------------------------------------------------------- handlers

  /** `tcpStateSynSent`. */
  function OnSynSent(s: Tcb, g: Segment): (s': Tcb)
  {
    if g.ack && g.ackNum != s.sndNxt then if g.rst then s else SendControl(s, SendRst, g.ackNum, 0)
    else if g.rst then if g.ack then ChangeState(s, Closed) else s
    else if g.syn then Synchronize(s, g)
    else s
  }

  /** The SYN branch of `tcpStateSynSent`. */
  function Synchronize(s: Tcb, g: Segment): (s': Tcb)
  {
    var s1 := s.(irs := g.seqNum, rcvNxt := Add(g.seqNum, 1), sndUna := if g.ack then g.ackNum else s.sndUna);
    if CmpSeq(s1.sndUna, s1.iss) > 0 then ChangeState(SendAckNow(s1), Established)
    else ChangeState(SendControl(s1, SendSynAck, s1.iss, s1.rcvNxt), SynReceived)
  }

  /** `tcpStateSynReceived`: on success the segment is processed again as in ESTABLISHED. */
  function OnSynReceived(s: Tcb, g: Segment, m: Merged, n: nat): (s': Tcb)
  {
    match Screen(s, g)
    case Stop(s1) => s1
    case Go(s1) =>
      if !g.ack then s1
      else if g.ackNum != s1.sndNxt then SendControl(s1, SendRst, g.ackNum, 0)
      else OnEstablished(ChangeState(s1, Established), g, m, n)
  }

  /** `tcpStateEstablished`. */
  function OnEstablished(s: Tcb, g: Segment, m: Merged, n: nat): (s': Tcb)
  {
    match ScreenAck(s, g)
    case Stop(s1) => s1
    case Go(s1) =>
      var s2 := TakeText(s1, g, m);
      Push(if AtFin(s2, g) then ChangeState(TakeFin(s2), CloseWait) else s2, n)
  }

  /** `tcpStateCloseWait`. */
  function OnCloseWait(s: Tcb, g: Segment, n: nat): (s': Tcb)
  {
    match ScreenAck(s, g)
    case Stop(s1) => s1
    case Go(s1) => Push(s1, n)
  }

  /** `tcpStateLastAck`. */
  function OnLastAck(s: Tcb, g: Segment): (s': Tcb)
  {
    match Screen(s, g)
    case Stop(s1) => s1
    case Go(s1) => if g.ack && g.ackNum == s1.sndNxt then ChangeState(s1, Closed) else s1
  }

  /** `tcpStateFinWait1`. */
  function OnFinWait1(s: Tcb, g: Segment, m: Merged): (s': Tcb)
  {
    match ScreenAck(s, g)
    case Stop(s1) => s1
    case Go(s1) =>
      var s2 := TakeText(if g.ackNum == s1.sndNxt then ChangeState(s1, FinWait2) else s1, g, m);
      if AtFin(s2, g) then ChangeState(TakeFin(s2), if g.ackNum == s2.sndNxt then TimeWait else Closing) else s2
  }

  /** `tcpStateFinWait2`. */
  function OnFinWait2(s: Tcb, g: Segment, m: Merged): (s': Tcb)
  {
    match ScreenAck(s, g)
    case Stop(s1) => s1
    case Go(s1) =>
      var s2 := TakeText(s1, g, m);
      if AtFin(s2, g) then ChangeState(TakeFin(s2), TimeWait) else s2
  }

  /** `tcpStateClosing`. */
  function OnClosing(s: Tcb, g: Segment): (s': Tcb)
  {
    match ScreenAck(s, g)
    case Stop(s1) => s1
    case Go(s1) => if g.ackNum == s1.sndNxt then ChangeState(s1, TimeWait) else s1
  }

  /** `tcpStateTimeWait`: a reset disposes of a socket that the user gave up. */
  function OnTimeWait(s: Tcb, g: Segment): (s': Tcb)
  {
    match CheckSequence(s, g)
    case Stop(s1) => s1
    case Go(s1) =>
      if g.rst then Dispose(ChangeState(s1, Closed))
      else
        match CheckSyn(s1, g)
        case Stop(s2) => s2
        case Go(s2) => if g.ack && g.fin then SendAckNow(s2) else s2
  }

  function Dispose(s: Tcb): (s': Tcb)
  {
    if s.owned then s else s.(used := false)
  }

  /** The dispatch of `tcpProcessSegment`. */
  function Handle(s: Tcb, g: Segment, m: Merged, n: nat): (s': Tcb)
  {
    match s.state
    case Closed => s
    case SynSent => OnSynSent(s, g)
    case SynReceived => OnSynReceived(s, g, m, n)
    case Established => OnEstablished(s, g, m, n)
    case CloseWait => OnCloseWait(s, g, n)
    case LastAck => OnLastAck(s, g)
    case FinWait1 => OnFinWait1(s, g, m)
    case FinWait2 => OnFinWait2(s, g, m)
    case Closing => OnClosing(s, g)
    case TimeWait => OnTimeWait(s, g)
  }

  // ---------------------------------------------------------------- user calls and timers

  /** The initialization shared by `tcpConnect` and `tcpAccept`. */
  function Open(s: Tcb, iss: uint32, wnd: uint16): (s': Tcb)
  {
    s.(owned := true, used := true, iss := iss, sndUna := iss, sndNxt := Add(iss, 1), rcvWnd := wnd,
       seen := [], fins := 0, ourFin := None, mark := 0)
  }

  /** `tcpConnect` on a closed socket. */
  function Connect(s: Tcb, iss: uint32, wnd: uint16): (s': Tcb)
  {
    ChangeState(SendControl(Open(s, iss, wnd), SendSyn, iss, 0), SynSent)
  }

  /** The socket that `tcpAccept` creates for a queued SYN. */
  function Accept(s: Tcb, iss: uint32, irs: uint32, wnd: uint16): (s': Tcb)
  {
    var s1 := Open(s, iss, wnd).(irs := irs, rcvNxt := Add(irs, 1));
    ChangeState(SendControl(s1, SendSynAck, iss, s1.rcvNxt), SynReceived)
  }

  /** The `switch` of `tcpShutdown`: the branch is chosen before the send buffer is flushed. */
  function ShutdownBegin(s: Tcb): (s': Tcb)
  {
    match s.state
    case SynReceived => s.(call := ActiveClose)
    case Established => s.(call := ActiveClose)
    case CloseWait => s.(call := PassiveClose)
    case _ => s
  }

  /** The FIN of `tcpShutdown`, after the wait for the flush; the state is not looked at again. */
  function ShutdownFin(s: Tcb): (s': Tcb)
    requires s.call != NoCall
  {
    var s1 := SendControl(s, SendFinAck, s.sndNxt, s.rcvNxt).(
      sndNxt := Add(s.sndNxt, 1), ourFin := Some(s.sndNxt), mark := |s.seen|, call := NoCall);
    ChangeState(s1, if s.call == ActiveClose then FinWait1 else LastAck)
  }

  /** `tcpAbort`. */
  function Abort(s: Tcb): (s': Tcb)
  {
    if s.state == TimeWait then s.(owned := false)
    else
      var s1 := if SendsReset(s.state) then SendControl(s, SendRst, s.sndNxt, 0) else s;
      ChangeState(s1, Closed).(used := false)
  }

  /** The states in which `tcpAbort` tells the peer. */
  predicate SendsReset(state: State)
  {
    state == SynReceived || state == Established || state == FinWait1 || state == FinWait2 || state == CloseWait
  }

  /** `tcpTick` when a timer gives up: retransmission, persist, FIN-WAIT-2 or 2MSL. */
  function Expire(s: Tcb): (s': Tcb)
  {
    if s.state == Closed then s
    else if s.state == TimeWait then Dispose(ChangeState(s, Closed))
    else ChangeState(s, Closed)
  }

  // ---------------------------------------------------------------- runs

  datatype Event =
    | ConnectCall(iss: uint32, wnd: uint16)
    | AcceptCall(iss: uint32, irs: uint32, wnd: uint16)
    | Arrive(segment: Segment, merged: Merged, push: nat)
    | SendData(n: nat)
    | ReadData(wnd: uint16)
    | ShutdownCall
    | ShutdownFlushed
    | ShutdownFails
    | AbortCall
    | TimerGivesUp

  function Next(s: Tcb, e: Event): (s': Tcb)
  {
    match e
    case ConnectCall(iss, wnd) => if s.state == Closed && s.call == NoCall then Connect(s, iss, wnd) else s
    case AcceptCall(iss, irs, wnd) => if s.state == Closed && s.call == NoCall then Accept(s, iss, irs, wnd) else s
    case Arrive(g, m, n) => Handle(s.(seen := s.seen + [g]), g, m, n)
    case SendData(n) => if s.state == Established || s.state == CloseWait then Push(s, n) else s
    case ReadData(wnd) => s.(rcvWnd := wnd)
    case ShutdownCall => if s.call == NoCall then ShutdownBegin(s) else s
    case ShutdownFlushed => if s.call == NoCall then s else ShutdownFin(s)
    case ShutdownFails => s.(call := NoCall)
    case AbortCall => Abort(s)
    case TimerGivesUp => Expire(s)
  }

  function Run(s: Tcb, es: seq<Event>): (s': Tcb)
  {
    if es == [] then s else Next(Run(s, es[..|es| - 1]), es[|es| - 1])
  }

  /** The socket before its first connection. */
  predicate IsNew(s: Tcb)
  {
    s.state == Closed && s.call == NoCall && s.fins == 0 && s.seen == [] && s.mark == 0
  }

  /** The `case` labels of the branch that the `tcpShutdown` call in progress took. */
  predicate StillInBranch(s: Tcb)
  {
    match s.call
    case NoCall => true
    case ActiveClose => s.state == SynReceived || s.state == Established
    case PassiveClose => s.state == CloseWait
  }

  /** The peer's FIN did not arrive since `tcpShutdown` took the branch of an open connection. */
  predicate SafeToClose(s: Tcb)
  {
    s.call == ActiveClose ==> s.fins == 0
  }

  /** No `tcpShutdown` sends its FIN when that is unsafe. */
  predicate Undisturbed(s: Tcb, es: seq<Event>)
  {
    es == [] ||
    (Undisturbed(s, es[..|es| - 1]) &&
     (es[|es| - 1].ShutdownFlushed? ==> SafeToClose(Run(s, es[..|es| - 1]))))
  }
}
