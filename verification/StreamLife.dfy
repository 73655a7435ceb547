/** The life of one stream told by its history: opened, ended by either side, reset; its activity and its reports. */
module StreamLife {
  import opened Bytes
  import opened Frames
  import opened Streams

  predicate Succeeds(s: Stream, op: StreamOp) {
    match op
    case Receive(frame) => ProcessFrame(s, frame).1.Ok?
    case FinishSending => EndSent(s).1.Ok?
    case Abort(_, _) => true
    case Start(now) => OpenStream(s, now).1.Ok?
    case PutHeaders(end, now) => SendHeaders(s, end, now).1.Ok?
    case PutData(length, end, now) => SendData(s, length, end, now).1.Ok?
    case WidenSend(increment, now) => UpdateSendWindow(s, increment, now).1.Ok?
    case WidenRecv(increment, now) => UpdateRecvWindow(s, increment, now).1.Ok?
  }

  /** The peer may end its side of the stream. */
  predicate Receiving(state: StreamStateType) {
    state == StreamStateType.Open || state == HalfClosedLocal
  }

  /** This side may send, and end its own side. */
  predicate LocalOpen(state: StreamStateType) {
    state == StreamStateType.Open || state == HalfClosedRemote
  }

  /** When each operation succeeds. */
  lemma SucceedsIff(s: Stream, op: StreamOp)
    ensures Succeeds(s, op) <==>
            match op
            case Receive(Headers(_, _, end, _)) => end ==> Receiving(s.state)
            case Receive(Data(_, data, end)) => |data| <= s.recvWindow && (end ==> Receiving(s.state))
            case FinishSending => LocalOpen(s.state)
            case Start(_) => s.state == Idle
            case PutHeaders(_, _) => LocalOpen(s.state) && !s.headersSent
            case PutData(length, _, _) => LocalOpen(s.state) && length <= s.sendWindow
            case WidenSend(increment, _) => s.sendWindow + increment <= 0xFFFF_FFFF
            case WidenRecv(increment, _) => s.recvWindow + increment <= 0xFFFF_FFFF
            case _ => true
  {
  }

  function ErrorOf(s: Stream, op: StreamOp): Option<StreamError> {
    match op
    case Receive(frame) => ErrorIn(ProcessFrame(s, frame).1)
    case FinishSending => ErrorIn(EndSent(s).1)
    case Abort(_, _) => None
    case Start(now) => ErrorIn(OpenStream(s, now).1)
    case PutHeaders(end, now) => ErrorIn(SendHeaders(s, end, now).1)
    case PutData(length, end, now) => ErrorIn(SendData(s, length, end, now).1)
    case WidenSend(increment, now) => ErrorIn(UpdateSendWindow(s, increment, now).1)
    case WidenRecv(increment, now) => ErrorIn(UpdateRecvWindow(s, increment, now).1)
  }

  function ErrorIn<T>(r: Result<T, StreamError>): Option<StreamError> {
    if r.Ok? then None else Some(r.error)
  }

  /** A failing operation names the state it found, or else the limit it met; the state comes first when sending. */
  lemma ErrorsName(s: Stream, op: StreamOp)
    requires !Succeeds(s, op)
    ensures ErrorOf(s, op)
         == Some(if op.WidenSend? || op.WidenRecv? then WindowOverflow
                 else if op.PutHeaders? && LocalOpen(s.state) then HeadersAlreadySent
                 else if op.PutData? && LocalOpen(s.state) then WindowTooSmall
                 else if op.Receive? && op.frame.Data? && |op.frame.data| > s.recvWindow then WindowTooSmall
                 else WrongState(s.state))
  {
    SucceedsIff(s, op);
  }

  /** How often headers were sent in a run. */
  function HeadersPut(s: Stream, ops: seq<StreamOp>): nat {
    if ops == [] then 0
    else
      var front, last := ops[..|ops| - 1], ops[|ops| - 1];
      HeadersPut(s, front) + if last.PutHeaders? && Succeeds(Run(s, front), last) then 1 else 0
  }

  lemma HeadersStep(s: Stream, op: StreamOp)
    ensures Step(s, op).headersSent <==> s.headersSent || (op.PutHeaders? && Succeeds(s, op))
  {
    match op
    case Receive(frame) => FrameKeeps(s, frame);
    case PutHeaders(_, _) => SucceedsIff(s, op);
    case PutData(length, end, now) => DataKeepsHeaders(s, length, end, now);
    case _ =>
  }

  lemma DataKeepsHeaders(s: Stream, length: nat, end: bool, now: nat)
    ensures SendData(s, length, end, now).0.headersSent == s.headersSent
  {
  }

  /** Headers are sent at most once, and the flag says whether they were. */
  lemma {:induction false} HeadersOnce(id: u64, config: StreamConfig, now: nat, ops: seq<StreamOp>)
    ensures var s := New(id, config, now);
            HeadersPut(s, ops) == if Run(s, ops).headersSent then 1 else 0
  {
    var s := New(id, config, now);
    if ops == [] {
    } else {
      var front, last := ops[..|ops| - 1], ops[|ops| - 1];
      HeadersOnce(id, config, now, front);
      HeadersStep(Run(s, front), last);
      SucceedsIff(Run(s, front), last);
    }
  }

  // ---------- the state is the history ----------

  datatype Milestone = Opening | LocalEnd | RemoteEnd | Resetting

  predicate Ends(frame: H3Frame) {
    match frame
    case Headers(_, _, end, _) => end
    case Data(_, _, end) => end
    case _ => false
  }

  /** The milestones that an operation means to reach. */
  predicate Means(op: StreamOp, what: Milestone) {
    match op
    case Start(_) => what.Opening?
    case FinishSending => what.LocalEnd?
    case PutHeaders(end, _) => end && what.LocalEnd?
    case PutData(_, end, _) => end && what.LocalEnd?
    case Receive(frame) => Ends(frame) && what.RemoteEnd?
    case Abort(_, _) => what.Resetting?
    case _ => false
  }

  predicate Reaches(s: Stream, op: StreamOp, what: Milestone) {
    Means(op, what) && Succeeds(s, op)
  }

  /** Some operation of the run reached the milestone. */
  predicate Reached(s: Stream, ops: seq<StreamOp>, what: Milestone) {
    ops != [] && (Reached(s, ops[..|ops| - 1], what) || Reaches(Run(s, ops[..|ops| - 1]), ops[|ops| - 1], what))
  }

  /** Which of the milestones lie behind the stream. */
  datatype History = History(started: bool, localEnd: bool, remoteEnd: bool, reset: bool)

  function Past(s: Stream, ops: seq<StreamOp>): History {
    History(Reached(s, ops, Opening), Reached(s, ops, LocalEnd), Reached(s, ops, RemoteEnd), Reached(s, ops, Resetting))
  }

  function After(s: Stream, op: StreamOp, h: History): History {
    History(h.started || Reaches(s, op, Opening), h.localEnd || Reaches(s, op, LocalEnd),
            h.remoteEnd || Reaches(s, op, RemoteEnd), h.reset || Reaches(s, op, Resetting))
  }

  /** Section 6.1 of RFC 9114 for a stream that was never reserved. */
  function StateFor(h: History): StreamStateType {
    if h.reset || (h.localEnd && h.remoteEnd) then Closed
    else if h.localEnd then HalfClosedLocal
    else if h.remoteEnd then HalfClosedRemote
    else if h.started then StreamStateType.Open
    else Idle
  }

  /** Nothing ends that was not opened. */
  predicate Possible(h: History) {
    h.localEnd || h.remoteEnd ==> h.started
  }

  lemma FrameTold(s: Stream, frame: H3Frame, h: History)
    requires Possible(h) && s.state == StateFor(h)
    ensures Possible(After(s, Receive(frame), h))
    ensures ProcessFrame(s, frame).0.state == StateFor(After(s, Receive(frame), h))
  {
    SucceedsIff(s, Receive(frame));
  }

  lemma SendTold(s: Stream, op: StreamOp, h: History)
    requires Possible(h) && s.state == StateFor(h) && (op.FinishSending? || op.PutHeaders? || op.PutData?)
    ensures Possible(After(s, op, h)) && Step(s, op).state == StateFor(After(s, op, h))
  {
    SucceedsIff(s, op);
  }

  lemma StepTold(s: Stream, op: StreamOp, h: History)
    requires Possible(h) && s.state == StateFor(h)
    ensures Possible(After(s, op, h)) && Step(s, op).state == StateFor(After(s, op, h))
  {
    match op
    case Receive(frame) => FrameTold(s, frame, h);
    case FinishSending => SendTold(s, op, h);
    case PutHeaders(_, _) => SendTold(s, op, h);
    case PutData(_, _, _) => SendTold(s, op, h);
    case _ =>
  }

  /**
    In every run of a new stream the state says which milestones were reached: whether it was opened, whether this
    side's and the peer's end succeeded, and whether it was reset.
   */
  lemma {:induction false} StateIsHistory(id: u64, config: StreamConfig, now: nat, ops: seq<StreamOp>)
    ensures var s := New(id, config, now);
            Run(s, ops).state == StateFor(Past(s, ops)) && Possible(Past(s, ops))
  {
    var s := New(id, config, now);
    if ops == [] {
    } else {
      StateIsHistory(id, config, now, ops[..|ops| - 1]);
      StepTold(Run(s, ops[..|ops| - 1]), ops[|ops| - 1], Past(s, ops[..|ops| - 1]));
    }
  }

  /** An operation that moves a stream from one state to the other, if there is one. */
  function Mover(from: StreamStateType, to: StreamStateType): StreamOp {
    if to == Closed then Abort(0, 0)
    else if to == StreamStateType.Open && from == Idle then Start(0)
    else if to == HalfClosedLocal && from == StreamStateType.Open then FinishSending
    else if to == HalfClosedRemote && from == StreamStateType.Open then Receive(Data(0, [], true))
    else WidenSend(0, 0)
  }

  /** Between the states that streams take, the transition table allows exactly the moves that some operation makes. */
  lemma TableIsSteps(from: StreamStateType, to: StreamStateType)
    requires !from.ReservedLocal? && !from.ReservedRemote? && !to.ReservedLocal? && !to.ReservedRemote?
    ensures CanTransition(from, to) <==> exists s: Stream, op: StreamOp :: s.state == from && Step(s, op).state == to
  {
    if CanTransition(from, to) {
      var s := New(0, StreamConfig(0, Normal), 0).(state := from);
      assert Step(s, Mover(from, to)).state == to;
    }
    forall s: Stream, op: StreamOp | s.state == from && Step(s, op).state == to
      ensures CanTransition(from, to)
    {
      StepIsEdge(s, op);
    }
  }

  /** From the reserved states, which no operation enters, the peer's or this side's half is left, or nothing. */
  lemma ReservedTransitions(to: StreamStateType)
    ensures CanTransition(ReservedLocal, to) <==> to in {ReservedLocal, HalfClosedRemote, Closed}
    ensures CanTransition(ReservedRemote, to) <==> to in {ReservedRemote, HalfClosedLocal, Closed}
    ensures to.ReservedLocal? || to.ReservedRemote? ==> forall from :: CanTransition(from, to) <==> from in {Idle, to}
  {
  }

  // ---------- after an end ----------

  /** Nothing can be sent. */
  ghost predicate Silent(s: Stream) {
    forall op: StreamOp :: op.FinishSending? || op.PutHeaders? || op.PutData? ==> !Succeeds(s, op)
  }

  /** No end of the peer's data can arrive. */
  ghost predicate NoMoreEnds(s: Stream) {
    forall frame :: Ends(frame) ==> !Succeeds(s, Receive(frame))
  }

  predicate DoneReceiving(s: Stream) {
    s.state == HalfClosedRemote || s.state == Closed
  }

  lemma DoneReceivingStep(s: Stream, op: StreamOp, t: Stream)
    requires DoneReceiving(s) && t == Step(s, op)
    ensures DoneReceiving(t)
  {
    if op.Receive? {
      FrameMoves(s, op.frame);
    }
  }

  lemma {:induction false} StaysDoneReceiving(s: Stream, ops: seq<StreamOp>)
    requires DoneReceiving(s)
    ensures DoneReceiving(Run(s, ops))
  {
    if ops == [] {
    } else {
      StaysDoneReceiving(s, ops[..|ops| - 1]);
      DoneReceivingStep(Run(s, ops[..|ops| - 1]), ops[|ops| - 1], Run(s, ops));
    }
  }

  lemma SendEnds(s: Stream, op: StreamOp, t: Stream)
    requires Reaches(s, op, LocalEnd) && t == Step(s, op)
    ensures t.state == if s.state == StreamStateType.Open then HalfClosedLocal else Closed
    ensures LocalOpen(s.state)
    ensures t.bytesSent == s.bytesSent + if op.PutData? then op.length else 0
  {
    SucceedsIff(s, op);
    match op
    case PutData(length, end, now) => DataBalanced(s, length, end, now, t);
    case PutHeaders(end, now) => HeadersBalanced(s, end, now);
    case _ =>
  }

  /** Whatever ends the sending side ends it for good: no later operation sends anything. */
  lemma NothingAfterLocalEnd(s: Stream, op: StreamOp, ops: seq<StreamOp>)
    requires Reaches(s, op, LocalEnd)
    ensures var t := Step(s, op);
            && t.state == (if s.state == StreamStateType.Open then HalfClosedLocal else Closed)
            && t.bytesSent == s.bytesSent + (if op.PutData? then op.length else 0)
            && Run(t, ops).bytesSent == t.bytesSent && Silent(Run(t, ops))
  {
    var t := Step(s, op);
    SendEnds(s, op, t);
    DoneIsForever(t, ops);
    forall o: StreamOp | o.FinishSending? || o.PutHeaders? || o.PutData?
      ensures !Succeeds(Run(t, ops), o)
    {
      SucceedsIff(Run(t, ops), o);
    }
  }

  /** The peer's end moves the state the other way, and no second end is accepted in any later run. */
  lemma NothingAfterRemoteEnd(s: Stream, op: StreamOp, ops: seq<StreamOp>)
    requires Reaches(s, op, RemoteEnd)
    ensures var t := Step(s, op);
            && t.state == (if s.state == StreamStateType.Open then HalfClosedRemote else Closed)
            && NoMoreEnds(Run(t, ops))
  {
    var t := Step(s, op);
    SucceedsIff(s, op);
    StaysDoneReceiving(t, ops);
    forall frame | Ends(frame)
      ensures !Succeeds(Run(t, ops), Receive(frame))
    {
      SucceedsIff(Run(t, ops), Receive(frame));
    }
  }

  /** Data that does not end the stream is still accepted after the peer's end, window permitting. */
  lemma DataAfterRemoteEnd(s: Stream, data: seq<byte>, id: u64)
    requires DoneReceiving(s) && |data| <= s.recvWindow
    ensures ProcessFrame(s, Data(id, data, false))
         == (s.(recvWindow := s.recvWindow - |data|), Ok([DataReceived(s.id, data)]))
  {
  }

  lemma StaysReset(s: Stream, op: StreamOp)
    requires s.state == Closed && s.reset && s.resetErrorCode.Some?
    ensures var t := Step(s, op);
            && t.state == Closed && t.reset
            && t.resetErrorCode == if op.Abort? then Some(op.code) else s.resetErrorCode
  {
    if op.Receive? {
      SucceedsIff(s, op);
    }
  }

  /** The code of the last reset in a run, or `code` if there is none. */
  function LastCode(code: u64, ops: seq<StreamOp>): u64 {
    if ops == [] then code
    else if ops[|ops| - 1].Abort? then ops[|ops| - 1].code
    else LastCode(code, ops[..|ops| - 1])
  }

  /** A reset closes the stream in any state and for good; only another reset changes the code. */
  lemma {:induction false} ResetIsFinal(s: Stream, code: u64, now: nat, ops: seq<StreamOp>)
    ensures var t := Run(Step(s, Abort(code, now)), ops);
            && t.state == Closed && t.reset && t.resetErrorCode == Some(LastCode(code, ops))
            && Silent(t) && NoMoreEnds(t)
  {
    var t := Run(Step(s, Abort(code, now)), ops);
    if ops == [] {
    } else {
      ResetIsFinal(s, code, now, ops[..|ops| - 1]);
      StaysReset(Run(Step(s, Abort(code, now)), ops[..|ops| - 1]), ops[|ops| - 1]);
    }
    forall op: StreamOp
      ensures op.FinishSending? || op.PutHeaders? || op.PutData? ==> !Succeeds(t, op)
      ensures op.Receive? && Ends(op.frame) ==> !Succeeds(t, op)
    {
      SucceedsIff(t, op);
    }
  }

  // ---------- when a stream was last active ----------

  /** The time an operation leaves, if it counts as activity: frames received and a bare end sent do not. */
  function TimeOf(s: Stream, op: StreamOp): Option<nat> {
    match op
    case Abort(_, now) => Some(now)
    case Start(now) => if Succeeds(s, op) then Some(now) else None
    case PutHeaders(_, now) => if Succeeds(s, op) then Some(now) else None
    case PutData(_, _, now) => if Succeeds(s, op) then Some(now) else None
    case WidenSend(_, now) => if Succeeds(s, op) then Some(now) else None
    case WidenRecv(_, now) => if Succeeds(s, op) then Some(now) else None
    case Receive(_) => None
    case FinishSending => None
  }

  /** The time of the last activity in a run, or `now` if there is none. */
  function LastActive(s: Stream, now: nat, ops: seq<StreamOp>): nat {
    if ops == [] then now
    else
      match TimeOf(Run(s, ops[..|ops| - 1]), ops[|ops| - 1])
      case Some(later) => later
      case None => LastActive(s, now, ops[..|ops| - 1])
  }

  /** What a frame does to the fields that tell of headers and activity, taken or not. */
  lemma FrameKeeps(s: Stream, frame: H3Frame)
    ensures var t := ProcessFrame(s, frame).0;
            && t.lastActivity == s.lastActivity && t.bytesReceived == s.bytesReceived
            && t.headersSent == s.headersSent && (t.headersReceived <==> s.headersReceived || frame.Headers?)
  {
    match frame
    case Headers(_, _, end, _) => EndKeeps(s.(headersReceived := true), end, []);
    case Data(_, data, end) =>
      if |data| <= s.recvWindow {
        EndKeeps(s.(recvWindow := s.recvWindow - |data|), end, []);
      }
    case _ =>
  }

  lemma EndKeeps(s: Stream, end: bool, events: seq<StreamEvent>)
    ensures forall es :: MaybeEnd(s, end, es).0 == MaybeEnd(s, end, events).0
    ensures var t := MaybeEnd(s, end, events).0;
            && t.lastActivity == s.lastActivity && t.bytesReceived == s.bytesReceived
            && t.headersSent == s.headersSent && t.headersReceived == s.headersReceived
  {
  }

  lemma SendSetsTime(s: Stream, op: StreamOp)
    requires op.PutHeaders? || op.PutData?
    ensures Step(s, op).lastActivity == (if Succeeds(s, op) then op.now else s.lastActivity)
    ensures Step(s, op).bytesReceived == s.bytesReceived
  {
    SucceedsIff(s, op);
  }

  lemma ActiveStep(s: Stream, op: StreamOp)
    ensures Step(s, op).lastActivity == match TimeOf(s, op) case Some(now) => now case None => s.lastActivity
    ensures Step(s, op).bytesReceived == s.bytesReceived
  {
    match op
    case Receive(frame) => FrameKeeps(s, frame);
    case PutHeaders(_, _) => SendSetsTime(s, op);
    case PutData(_, _, _) => SendSetsTime(s, op);
    case _ =>
  }

  /**
    A new stream was last active when the last operation counting as activity succeeded, or when it was created.
    The bytes it receives are never added up.
   */
  lemma {:induction false} ActivityIsHistory(id: u64, config: StreamConfig, now: nat, ops: seq<StreamOp>)
    ensures Run(New(id, config, now), ops).lastActivity == LastActive(New(id, config, now), now, ops)
    ensures Run(New(id, config, now), ops).bytesReceived == 0
  {
    if ops == [] {
    } else {
      ActivityIsHistory(id, config, now, ops[..|ops| - 1]);
      ActiveStep(Run(New(id, config, now), ops[..|ops| - 1]), ops[|ops| - 1]);
    }
  }

  // ---------- what a stream reports ----------

  function EventsOf(s: Stream, op: StreamOp): seq<StreamEvent> {
    if op.Receive? && ProcessFrame(s, op.frame).1.Ok? then ProcessFrame(s, op.frame).1.value else []
  }

  /** What the events have handed over and how many ends and headers they told of. */
  datatype Report = Report(data: seq<byte>, ends: nat, headers: nat)

  function Note(r: Report, e: StreamEvent): Report {
    match e
    case DataReceived(_, data) => r.(data := r.data + data)
    case EndStreamReceived(_) => r.(ends := r.ends + 1)
    case HeadersReceived(_) => r.(headers := r.headers + 1)
  }

  function NoteAll(r: Report, events: seq<StreamEvent>): Report
    decreases |events|
  {
    if events == [] then r else NoteAll(Note(r, events[0]), events[1..])
  }

  /** All events of a run, in order. */
  function Reported(s: Stream, ops: seq<StreamOp>): Report {
    if ops == [] then Report([], 0, 0)
    else NoteAll(Reported(s, ops[..|ops| - 1]), EventsOf(Run(s, ops[..|ops| - 1]), ops[|ops| - 1]))
  }

  function DataOf(s: Stream, op: StreamOp): seq<byte> {
    if op.Receive? && op.frame.Data? && Succeeds(s, op) then op.frame.data else []
  }

  /** The data of the DATA frames that were taken, in order. */
  function DataTaken(s: Stream, ops: seq<StreamOp>): seq<byte> {
    if ops == [] then []
    else DataTaken(s, ops[..|ops| - 1]) + DataOf(Run(s, ops[..|ops| - 1]), ops[|ops| - 1])
  }

  /** The events of a frame that is taken: its headers if they are the first, its data, its end, in this order. */
  lemma EventsAre(s: Stream, frame: H3Frame)
    requires ProcessFrame(s, frame).1.Ok?
    ensures var events := ProcessFrame(s, frame).1.value;
            var end := if Ends(frame) then [EndStreamReceived(s.id)] else [];
            match frame
            case Headers(_, _, _, _) => events == (if s.headersReceived then [] else [HeadersReceived(s.id)]) + end
            case Data(_, data, _) => events == [DataReceived(s.id, data)] + end
            case _ => events == []
  {
  }

  lemma NoteTwo(r: Report, first: seq<StreamEvent>, second: seq<StreamEvent>)
    requires |first| <= 1 && |second| <= 1
    ensures NoteAll(r, first + second)
         == (if first == [] then (if second == [] then r else Note(r, second[0]))
             else if second == [] then Note(r, first[0]) else Note(Note(r, first[0]), second[0]))
  {
    NoteOne(r, second);
    if first == [] {
      assert first + second == second;
    } else {
      assert (first + second)[1..] == second;
      NoteOne(Note(r, first[0]), second);
    }
  }

  lemma NoteOne(r: Report, events: seq<StreamEvent>)
    requires |events| <= 1
    ensures NoteAll(r, events) == if events == [] then r else Note(r, events[0])
  {
    if events != [] {
      assert events[1..] == [];
    }
  }

  lemma FrameReports(s: Stream, frame: H3Frame, r: Report)
    requires ProcessFrame(s, frame).1.Ok?
    ensures NoteAll(r, ProcessFrame(s, frame).1.value)
         == Report(if frame.Data? then r.data + frame.data else r.data, if Ends(frame) then r.ends + 1 else r.ends,
                   if frame.Headers? && !s.headersReceived then r.headers + 1 else r.headers)
  {
    var end := if Ends(frame) then [EndStreamReceived(s.id)] else [];
    EventsAre(s, frame);
    match frame
    case Headers(_, _, _, _) => NoteTwo(r, if s.headersReceived then [] else [HeadersReceived(s.id)], end);
    case Data(_, data, _) => NoteTwo(r, [DataReceived(s.id, data)], end);
    case _ =>
  }

  lemma StepReports(s: Stream, op: StreamOp, r: Report)
    ensures var q := NoteAll(r, EventsOf(s, op));
            && q.data == r.data + DataOf(s, op) && q.ends == r.ends + (if Reaches(s, op, RemoteEnd) then 1 else 0)
            && (q.headers == r.headers
                || (q.headers == r.headers + 1 && !s.headersReceived && Step(s, op).headersReceived))
            && (s.headersReceived ==> Step(s, op).headersReceived)
  {
    if op.Receive? {
      FrameKeeps(s, op.frame);
      if Succeeds(s, op) {
        FrameReports(s, op.frame, r);
      }
    }
  }

  /**
    Over any run of a new stream: the events hand over the data of the DATA frames taken, each byte once and in
    order; the peer's end is reported exactly once if it succeeded, and otherwise never; headers are reported at
    most once.
   */
  lemma {:induction false} ReportsAreExact(id: u64, config: StreamConfig, now: nat, ops: seq<StreamOp>)
    ensures var s := New(id, config, now);
            && Reported(s, ops).data == DataTaken(s, ops)
            && Reported(s, ops).ends == (if Reached(s, ops, RemoteEnd) then 1 else 0)
            && Reported(s, ops).headers <= (if Run(s, ops).headersReceived then 1 else 0)
  {
    var s := New(id, config, now);
    if ops == [] {
    } else {
      var front, last := ops[..|ops| - 1], ops[|ops| - 1];
      ReportsAreExact(id, config, now, front);
      StepReports(Run(s, front), last, Reported(s, front));
      EndOnce(id, config, now, front, last);
    }
  }

  lemma EndOnce(id: u64, config: StreamConfig, now: nat, front: seq<StreamOp>, last: StreamOp)
    ensures var s := New(id, config, now);
            Reaches(Run(s, front), last, RemoteEnd) ==> !Reached(s, front, RemoteEnd)
  {
    StateIsHistory(id, config, now, front);
    SucceedsIff(Run(New(id, config, now), front), last);
  }
}
