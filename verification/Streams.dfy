/** One stream as functions on its record: state machine, flags and the two window accounts. */
module Streams {
  import opened Bytes
  import opened Frames

  datatype StreamPriority = Urgent | High | Normal | Low | Background

  datatype StreamStateType =
    | Idle | Open | HalfClosedLocal | HalfClosedRemote | Closed | ReservedLocal | ReservedRemote

  datatype StreamType = ClientBidirectional | ServerBidirectional | ClientUnidirectional | ServerUnidirectional

  /** The two low bits of the identifier. */
  function TypeOfId(id: u64): StreamType {
    if id % 4 == 0 then ClientBidirectional
    else if id % 4 == 1 then ServerBidirectional
    else if id % 4 == 2 then ClientUnidirectional
    else ServerUnidirectional
  }

  datatype StreamConfig = StreamConfig(initialWindowSize: u32, priority: StreamPriority)

  datatype Stream = Stream(
    id: u64, state: StreamStateType, sendWindow: u32, recvWindow: u32, initialWindowSize: u32,
    headersReceived: bool, headersSent: bool, endStreamReceived: bool, endStreamSent: bool,
    priority: StreamPriority, streamType: StreamType, bytesSent: nat, bytesReceived: nat,
    lastActivity: nat, reset: bool, resetErrorCode: Option<u64>)

  datatype StreamEvent =
    | HeadersReceived(id: u64) | DataReceived(id: u64, data: seq<byte>) | EndStreamReceived(id: u64)

  datatype StreamError = WrongState(actual: StreamStateType) | WindowTooSmall | HeadersAlreadySent | WindowOverflow

  function New(id: u64, config: StreamConfig, now: nat): Stream {
    Stream(id, Idle, config.initialWindowSize, config.initialWindowSize, config.initialWindowSize,
           false, false, false, false, config.priority, TypeOfId(id), 0, 0, now, false, None)
  }

  /** The states in which data may be sent. */
  predicate Sending(state: StreamStateType) {
    state.Open? || state.HalfClosedRemote?
  }

  predicate CanSend(s: Stream) {
    Sending(s.state)
  }

  predicate CanReceive(s: Stream) {
    s.state.Open? || s.state.HalfClosedLocal?
  }

  /** The peer's data has ended: only the state moves. */
  function EndReceived(s: Stream): (Stream, Result<(), StreamError>) {
    match s.state
    case Open => (s.(state := HalfClosedRemote), Ok(()))
    case HalfClosedLocal => (s.(state := Closed), Ok(()))
    case _ => (s, Err(WrongState(s.state)))
  }

  function EndSent(s: Stream): (Stream, Result<(), StreamError>) {
    var t := s.(endStreamSent := true);
    match s.state
    case Open => (t.(state := HalfClosedLocal), Ok(()))
    case HalfClosedRemote => (t.(state := Closed), Ok(()))
    case _ => (t, Err(WrongState(s.state)))
  }

  /** The common tail of the frames that can end a stream: the flag is set even when the state refuses the end. */
  function MaybeEnd(s: Stream, end: bool, events: seq<StreamEvent>): (Stream, Result<seq<StreamEvent>, StreamError>) {
    if !end then (s, Ok(events))
    else
      var (t, r) := EndReceived(s.(endStreamReceived := true));
      (t, if r.Ok? then Ok(events + [EndStreamReceived(s.id)]) else Err(r.error))
  }

  function ProcessFrame(s: Stream, frame: H3Frame): (Stream, Result<seq<StreamEvent>, StreamError>) {
    match frame
    case Headers(_, _, end, _) =>
      MaybeEnd(s.(headersReceived := true), end, if s.headersReceived then [] else [HeadersReceived(s.id)])
    case Data(_, data, end) =>
      if |data| > s.recvWindow then (s, Err(WindowTooSmall))
      else MaybeEnd(s.(recvWindow := s.recvWindow - |data|), end, [DataReceived(s.id, data)])
    case _ => (s, Ok([]))
  }

  function Reset(s: Stream, code: u64, now: nat): Stream {
    s.(state := Closed, reset := true, resetErrorCode := Some(code), lastActivity := now)
  }

  function OpenStream(s: Stream, now: nat): (Stream, Result<(), StreamError>) {
    if s.state.Idle? then (s.(state := Open, lastActivity := now), Ok(())) else (s, Err(WrongState(s.state)))
  }

  function SendHeaders(s: Stream, end: bool, now: nat): (Stream, Result<(), StreamError>) {
    if !CanSend(s) then (s, Err(WrongState(s.state)))
    else if s.headersSent then (s, Err(HeadersAlreadySent))
    else
      var t := s.(headersSent := true, lastActivity := now);
      if end then EndSent(t) else (t, Ok(()))
  }

  function SendData(s: Stream, length: nat, end: bool, now: nat): (Stream, Result<(), StreamError>) {
    if !CanSend(s) then (s, Err(WrongState(s.state)))
    else if length > s.sendWindow then (s, Err(WindowTooSmall))
    else
      var t := s.(sendWindow := s.sendWindow - length, bytesSent := s.bytesSent + length, lastActivity := now);
      if end then EndSent(t) else (t, Ok(()))
  }

  function UpdateSendWindow(s: Stream, increment: u32, now: nat): (Stream, Result<(), StreamError>) {
    if s.sendWindow + increment >= TWO_TO_32 then (s, Err(WindowOverflow))
    else (s.(sendWindow := s.sendWindow + increment, lastActivity := now), Ok(()))
  }

  function UpdateRecvWindow(s: Stream, increment: u32, now: nat): (Stream, Result<(), StreamError>) {
    if s.recvWindow + increment >= TWO_TO_32 then (s, Err(WindowOverflow))
    else (s.(recvWindow := s.recvWindow + increment, lastActivity := now), Ok(()))
  }

  /** The transition table. */
  predicate CanTransition(from: StreamStateType, to: StreamStateType) {
    || to.Closed? || from == to
    || match from
       case Idle => to.Open? || to.ReservedLocal? || to.ReservedRemote?
       case Open => to.HalfClosedLocal? || to.HalfClosedRemote?
       case ReservedLocal => to.HalfClosedRemote?
       case ReservedRemote => to.HalfClosedLocal?
       case _ => false
  }

  // ---------- runs ----------

  datatype StreamOp =
    | Receive(frame: H3Frame)
    | FinishSending
    | Abort(code: u64, now: nat)
    | Start(now: nat)
    | PutHeaders(end: bool, now: nat)
    | PutData(length: nat, end: bool, now: nat)
    | WidenSend(increment: u32, now: nat)
    | WidenRecv(increment: u32, now: nat)

  function Step(s: Stream, op: StreamOp): Stream {
    match op
    case Receive(frame) => ProcessFrame(s, frame).0
    case FinishSending => EndSent(s).0
    case Abort(code, now) => Reset(s, code, now)
    case Start(now) => OpenStream(s, now).0
    case PutHeaders(end, now) => SendHeaders(s, end, now).0
    case PutData(length, end, now) => SendData(s, length, end, now).0
    case WidenSend(increment, now) => UpdateSendWindow(s, increment, now).0
    case WidenRecv(increment, now) => UpdateRecvWindow(s, increment, now).0
  }

  function Run(s: Stream, ops: seq<StreamOp>): Stream {
    if ops == [] then s else Step(Run(s, ops[..|ops| - 1]), ops[|ops| - 1])
  }

  /** A frame changes the state only when it ends the peer's data. */
  lemma FrameMoves(s: Stream, frame: H3Frame)
    ensures var to := ProcessFrame(s, frame).0.state;
            to == s.state || (s.state.Open? && to.HalfClosedRemote?) || (s.state.HalfClosedLocal? && to.Closed?)
  {
  }

  /** Every state change is an edge of the transition table. */
  lemma StepIsEdge(s: Stream, op: StreamOp)
    ensures CanTransition(s.state, Step(s, op).state)
  {
    if op.Receive? {
      FrameMoves(s, op.frame);
    }
  }

  /** Closed and half-closed states tell the truth about what ended the stream. */
  predicate Honest(s: Stream) {
    && (s.state.HalfClosedLocal? ==> s.endStreamSent)
    && (s.state.HalfClosedRemote? ==> s.endStreamReceived)
    && (s.state.Closed? && !s.reset ==> s.endStreamSent && s.endStreamReceived)
    && (s.reset <==> s.resetErrorCode.Some?) && (s.reset ==> s.state.Closed?)
    && !s.state.ReservedLocal? && !s.state.ReservedRemote?
  }

  /** A stream that is closed without a reset was ended by both sides: in every run of a new stream. */
  lemma {:induction false} RunHonest(id: u64, config: StreamConfig, now: nat, ops: seq<StreamOp>)
    ensures Honest(Run(New(id, config, now), ops))
  {
    if ops == [] {
    } else {
      RunHonest(id, config, now, ops[..|ops| - 1]);
      StepHonest(Run(New(id, config, now), ops[..|ops| - 1]), ops[|ops| - 1]);
    }
  }

  lemma FrameHonest(s: Stream, frame: H3Frame)
    requires Honest(s)
    ensures Honest(ProcessFrame(s, frame).0)
  {
  }

  lemma SendingHonest(s: Stream, length: nat, end: bool, now: nat)
    requires Honest(s)
    ensures Honest(SendData(s, length, end, now).0) && Honest(SendHeaders(s, end, now).0)
  {
  }

  lemma StepHonest(s: Stream, op: StreamOp)
    requires Honest(s)
    ensures Honest(Step(s, op))
  {
    match op
    case Receive(frame) => FrameHonest(s, frame);
    case PutHeaders(end, now) => SendingHonest(s, 0, end, now);
    case PutData(length, end, now) => SendingHonest(s, length, end, now);
    case _ =>
  }

  predicate DoneSending(s: Stream) {
    s.state.HalfClosedLocal? || s.state.Closed?
  }

  lemma DoneStep(s: Stream, op: StreamOp, t: Stream)
    requires DoneSending(s) && t == Step(s, op)
    ensures DoneSending(t) && t.bytesSent == s.bytesSent && (s.state.Closed? ==> t.state.Closed?)
  {
    if op.Receive? {
      FrameMoves(s, op.frame);
      FrameBalanced(s, op.frame, t);
    }
  }

  /** Once the local side is done it stays done, closed stays closed, and the bytes counted as sent never change again. */
  lemma {:induction false} DoneIsForever(s: Stream, ops: seq<StreamOp>)
    requires DoneSending(s)
    ensures DoneSending(Run(s, ops))
    ensures Run(s, ops).bytesSent == s.bytesSent
    ensures s.state.Closed? ==> Run(s, ops).state.Closed?
  {
    if ops == [] {
    } else {
      DoneIsForever(s, ops[..|ops| - 1]);
      DoneStep(Run(s, ops[..|ops| - 1]), ops[|ops| - 1], Run(s, ops));
    }
  }

  /** Sending either happens as a whole or changes nothing. */
  lemma SendingIsAtomic(s: Stream, length: nat, end: bool, now: nat)
    ensures SendData(s, length, end, now).1.Err? ==> SendData(s, length, end, now).0 == s
    ensures SendData(s, length, end, now).1.Ok? <==> CanSend(s) && length <= s.sendWindow
    ensures SendHeaders(s, end, now).1.Err? ==> SendHeaders(s, end, now).0 == s
    ensures SendHeaders(s, end, now).1.Ok? <==> CanSend(s) && !s.headersSent
  {
  }

  /**
    Receiving is not: data that does not fit the window is refused unchanged, but an end of stream that the
    state refuses is reported after the window was charged and the end-of-stream flag set. It is refused
    exactly outside the two receiving states.
   */
  lemma RefusedEndStillCharges(s: Stream, data: seq<byte>, end: bool, id: u64)
    ensures ProcessFrame(s, Data(id, data, end)).1.Err? <==> |data| > s.recvWindow || (end && !CanReceive(s))
    ensures |data| > s.recvWindow ==> ProcessFrame(s, Data(id, data, end)).0 == s
    ensures |data| <= s.recvWindow && end && !CanReceive(s) ==>
              ProcessFrame(s, Data(id, data, end)).0
              == s.(recvWindow := s.recvWindow - |data|, endStreamReceived := true)
  {
  }

  /** Likewise for headers that end the stream: both flags are set although the end is refused. */
  lemma RefusedEndOfHeaders(s: Stream, frame: H3Frame)
    requires frame.Headers?
    ensures ProcessFrame(s, frame).1.Err? <==> frame.endStream && !CanReceive(s)
    ensures frame.endStream && !CanReceive(s) ==>
              ProcessFrame(s, frame).0 == s.(headersReceived := true, endStreamReceived := true)
  {
  }

  /** So a failing frame leaves the record as it was exactly when its data did not fit or the flags were set already. */
  lemma FailedFrameUnchangedIff(s: Stream, frame: H3Frame)
    requires ProcessFrame(s, frame).1.Err?
    ensures ProcessFrame(s, frame).0 == s <==>
            match frame
            case Data(_, data, _) => |data| > s.recvWindow || (data == [] && s.endStreamReceived)
            case _ => s.headersReceived && s.endStreamReceived
  {
    if frame.Headers? {
      RefusedEndOfHeaders(s, frame);
    }
  }

  // ---------- window accounts ----------

  /** The credit an operation adds to the send window. */
  function SendCredit(s: Stream, op: StreamOp): nat {
    if op.WidenSend? && UpdateSendWindow(s, op.increment, op.now).1.Ok? then op.increment else 0
  }

  function RecvCredit(s: Stream, op: StreamOp): nat {
    if op.WidenRecv? && UpdateRecvWindow(s, op.increment, op.now).1.Ok? then op.increment else 0
  }

  /** The data an operation takes in, whether or not the end of stream that came with it was refused. */
  function TakenIn(s: Stream, op: StreamOp): nat {
    if op.Receive? && op.frame.Data? && |op.frame.data| <= s.recvWindow then |op.frame.data| else 0
  }

  datatype Account = Account(sendCredit: nat, recvCredit: nat, takenIn: nat)

  function Accounts(s: Stream, ops: seq<StreamOp>): Account {
    if ops == [] then Account(0, 0, 0)
    else
      var front, last := ops[..|ops| - 1], ops[|ops| - 1];
      var a, t := Accounts(s, front), Run(s, front);
      Account(a.sendCredit + SendCredit(t, last), a.recvCredit + RecvCredit(t, last), a.takenIn + TakenIn(t, last))
  }

  /** The end of a direction moves the state and its flag, never an account. */
  predicate SameAccounts(s: Stream, t: Stream) {
    t.sendWindow == s.sendWindow && t.recvWindow == s.recvWindow && t.bytesSent == s.bytesSent
  }

  lemma EndsKeepAccounts(s: Stream)
    ensures SameAccounts(s, EndSent(s).0) && SameAccounts(s, EndReceived(s).0)
  {
  }

  lemma FrameBalanced(s: Stream, frame: H3Frame, t: Stream)
    requires t == ProcessFrame(s, frame).0
    ensures t.sendWindow == s.sendWindow && t.bytesSent == s.bytesSent
    ensures t.recvWindow == if frame.Data? && |frame.data| <= s.recvWindow then s.recvWindow - |frame.data| else s.recvWindow
  {
    match frame
    case Headers(_, _, _, _) => EndsKeepAccounts(s.(headersReceived := true));
    case Data(_, data, _) =>
      if |data| <= s.recvWindow {
        EndsKeepAccounts(s.(recvWindow := s.recvWindow - |data|));
      }
    case _ =>
  }

  lemma DataBalanced(s: Stream, length: nat, end: bool, now: nat, t: Stream)
    requires t == SendData(s, length, end, now).0
    ensures t.sendWindow + t.bytesSent == s.sendWindow + s.bytesSent && t.recvWindow == s.recvWindow
  {
    if CanSend(s) && length <= s.sendWindow {
      EndsKeepAccounts(s.(sendWindow := s.sendWindow - length, bytesSent := s.bytesSent + length, lastActivity := now));
    }
  }

  lemma HeadersBalanced(s: Stream, end: bool, now: nat)
    ensures SameAccounts(s, SendHeaders(s, end, now).0)
  {
    EndsKeepAccounts(s.(headersSent := true, lastActivity := now));
  }

  lemma OthersBalanced(s: Stream, op: StreamOp, t: Stream)
    requires t == Step(s, op)
    requires op.Abort? || op.Start? || op.WidenSend? || op.WidenRecv?
    ensures t.sendWindow == s.sendWindow + SendCredit(s, op) && t.bytesSent == s.bytesSent
    ensures t.recvWindow == s.recvWindow + RecvCredit(s, op)
  {
  }

  lemma StepBalanced(s: Stream, op: StreamOp, t: Stream)
    requires t == Step(s, op)
    ensures t.sendWindow + t.bytesSent == s.sendWindow + s.bytesSent + SendCredit(s, op)
    ensures t.recvWindow + TakenIn(s, op) == s.recvWindow + RecvCredit(s, op)
  {
    match op
    case Receive(frame) => FrameBalanced(s, frame, t);
    case FinishSending => EndsKeepAccounts(s);
    case PutHeaders(end, now) => HeadersBalanced(s, end, now);
    case PutData(length, end, now) => DataBalanced(s, length, end, now, t);
    case _ => OthersBalanced(s, op, t);
  }

  /** On every path, error paths included, each window and what went through it add up to the credit given. */
  lemma {:induction false} WindowsBalanced(s: Stream, ops: seq<StreamOp>)
    ensures Run(s, ops).sendWindow + Run(s, ops).bytesSent == s.sendWindow + s.bytesSent + Accounts(s, ops).sendCredit
    ensures Run(s, ops).recvWindow + Accounts(s, ops).takenIn == s.recvWindow + Accounts(s, ops).recvCredit
  {
    if ops == [] {
    } else {
      WindowsBalanced(s, ops[..|ops| - 1]);
      StepBalanced(Run(s, ops[..|ops| - 1]), ops[|ops| - 1], Run(s, ops));
    }
  }
}
