/** Runs in which frames open streams implicitly: which streams are recorded, and when a record is overwritten. */
module Overwriting {
  import opened Bytes
  import opened Manager
  import opened ManagerRuns
  import opened ServerRuns
  import Frames
  import Streams
  import StreamLife
  import ManagerRecords

  /** A call of one of the manager's operations, or a frame for it to process. */
  datatype Use = Call(op: ManagerOp) | Receive(frame: Frames.H3Frame, now: nat)

  function Apply(m: Mgr, u: Use): Mgr {
    match u
    case Call(op) => Step(m, op)
    case Receive(frame, now) => ProcessFrame(m, frame, now).0
  }

  function RunUses(m: Mgr, uses: seq<Use>): Mgr {
    if uses == [] then m else Apply(RunUses(m, uses[..|uses| - 1]), uses[|uses| - 1])
  }

  /** The stream that a frame opens, if any. */
  function Opened(m: Mgr, frame: Frames.H3Frame): seq<u64> {
    match frame.StreamId()
    case Some(id) => if id in m.streams then [] else [id]
    case None => []
  }

  /** The stream that enters, if any. */
  function Entering(m: Mgr, u: Use): seq<u64> {
    match u
    case Call(op) => Inserted(m, op)
    case Receive(frame, _) => Opened(m, frame)
  }

  function Leaving(m: Mgr, u: Use): set<u64> {
    if u.Call? then Removed(m, u.op) else {}
  }

  // ---------- what a frame does ----------

  /**
    A frame works on the record of its stream, opening it first if there is none; nothing else changes. So a stream
    that a frame opens has no windows, and neither the role nor the limit is asked.
   */
  lemma FrameOpens(m: Mgr, frame: Frames.H3Frame, now: nat)
    ensures var n := ProcessFrame(m, frame, now).0;
            && n.streams.Keys == m.streams.Keys + (set id | id in Opened(m, frame))
            && n == m.(streams := n.streams)
            && (forall id :: id in m.streams && frame.StreamId() != Some(id) ==> n.streams[id] == m.streams[id])
            && (forall id :: id in m.streams && frame.StreamId() == Some(id) ==>
                               n.streams[id] == Streams.Step(m.streams[id], Streams.Receive(frame)))
  {
  }

  /** DATA, HEADERS, PUSH_PROMISE and GOAWAY frames speak of the stream they carry, others of none. */
  lemma FrameStream(frame: Frames.H3Frame)
    ensures frame.StreamId()
         == if frame.Data? || frame.Headers? || frame.PushPromise? || frame.Goaway? then Some(frame.streamId) else None
  {
  }

  /**
    The caller gets what the record makes of the frame, and nothing from a frame without a stream. A frame that opens
    its stream is taken exactly if its data fits the initial window, its end included.
   */
  lemma FrameReports(m: Mgr, frame: Frames.H3Frame, now: nat)
    ensures var r := ProcessFrame(m, frame, now).1;
            match frame.StreamId()
            case None => r == Ok([])
            case Some(id) =>
              if id in m.streams then r == Streams.ProcessFrame(m.streams[id], frame).1
              else
                && (r.Ok? <==> (frame.Data? ==> |frame.data| <= m.config.initialWindowSize))
                && (r.Err? ==> r == Err(Streams.WindowTooSmall))
                && (r.Ok? && frame.Data? ==>
                      r.value == [Streams.DataReceived(id, frame.data)]
                                 + if frame.endStream then [Streams.EndStreamReceived(id)] else [])
                && (r.Ok? && frame.Headers? ==>
                      r.value == [Streams.HeadersReceived(id)]
                                 + if frame.endStream then [Streams.EndStreamReceived(id)] else [])
                && (r.Ok? && !frame.Data? && !frame.Headers? ==> r.value == [])
  {
    if frame.StreamId().Some? && frame.StreamId().value !in m.streams {
      var s := Streams.New(frame.StreamId().value, m.config, now).(state := Streams.Open);
      assert OpenImplicitly(m, frame.StreamId().value, now).streams[frame.StreamId().value] == s;
      FreshFrame(s, frame);
    }
  }

  lemma FreshFrame(s: Streams.Stream, frame: Frames.H3Frame)
    requires s.state == Streams.Open && !s.headersReceived
    ensures var r := Streams.ProcessFrame(s, frame).1;
            && (r.Ok? <==> (frame.Data? ==> |frame.data| <= s.recvWindow))
            && (r.Err? ==> r == Err(Streams.WindowTooSmall))
            && (r.Ok? && frame.Data? ==>
                  r.value == [Streams.DataReceived(s.id, frame.data)]
                             + if frame.endStream then [Streams.EndStreamReceived(s.id)] else [])
            && (r.Ok? && frame.Headers? ==>
                  r.value == [Streams.HeadersReceived(s.id)]
                             + if frame.endStream then [Streams.EndStreamReceived(s.id)] else [])
            && (r.Ok? && !frame.Data? && !frame.Headers? ==> r.value == [])
  {
    StreamLife.SucceedsIff(s, Streams.Receive(frame));
    if Streams.ProcessFrame(s, frame).1.Ok? {
      StreamLife.EventsAre(s, frame);
    }
  }

  /** The frame that opens a stream can end the peer's data at once, but never the stream. */
  lemma OpenedIsAlive(m: Mgr, frame: Frames.H3Frame, now: nat, id: u64)
    requires id in Opened(m, frame)
    ensures var n := ProcessFrame(m, frame, now).0;
            id in n.streams && (n.streams[id].state.Open? || n.streams[id].state.HalfClosedRemote?)
  {
    Streams.FrameMoves(Streams.New(id, m.config, now).(state := Streams.Open), frame);
  }

  /**
    The streams that are recorded and not closed keep their windows exactly when the frame opens none, or stream 0,
    or one whose windows were left behind.
   */
  lemma FrameWindowedIff(m: Mgr, frame: Frames.H3Frame, now: nat)
    requires ManagerRecords.Windowed(m)
    ensures ManagerRecords.Windowed(ProcessFrame(m, frame, now).0) <==>
            forall id :: id in Opened(m, frame) && id != 0 ==> id in m.flow.send && id in m.flow.recv
  {
    var n := ProcessFrame(m, frame, now).0;
    FrameOpens(m, frame, now);
    forall id | id in Opened(m, frame)
      ensures id in n.streams && !n.streams[id].state.Closed?
    {
      OpenedIsAlive(m, frame, now, id);
    }
    forall id | id in m.streams && m.streams[id].state.Closed?
      ensures n.streams[id].state.Closed?
    {
      if frame.StreamId() == Some(id) {
        Streams.FrameMoves(m.streams[id], frame);
      }
    }
  }

  /** Frames close no stream abruptly and leave no stream queued or with a window but without a record. */
  lemma FrameKeepsRecords(m: Mgr, frame: Frames.H3Frame, now: nat)
    ensures ManagerRecords.AllHonest(m) ==> ManagerRecords.AllHonest(ProcessFrame(m, frame, now).0)
    ensures ManagerRecords.Recorded(m) ==> ManagerRecords.Recorded(ProcessFrame(m, frame, now).0)
  {
    FrameOpens(m, frame, now);
    if ManagerRecords.AllHonest(m) && frame.StreamId().Some? {
      var id := frame.StreamId().value;
      Streams.FrameHonest(OpenImplicitly(m, id, now).streams[id], frame);
    }
  }

  // ---------- which streams are recorded ----------

  lemma UseKeys(m: Mgr, u: Use, id: u64)
    ensures id in Apply(m, u).streams <==> (id in m.streams && id !in Leaving(m, u)) || id in Entering(m, u)
  {
    match u
    case Call(op) => StepKeys(m, op, id);
    case Receive(frame, now) => FrameOpens(m, frame, now);
  }

  /** The stream entered with use `j` and no later use removed it. */
  ghost predicate Holds(m: Mgr, uses: seq<Use>, j: nat, id: u64) {
    && j < |uses| && id in Entering(RunUses(m, uses[..j]), uses[j])
    && forall i :: j < i < |uses| ==> id !in Leaving(RunUses(m, uses[..i]), uses[i])
  }

  lemma HoldsOn(m: Mgr, front: seq<Use>, last: Use, j: nat, id: u64)
    requires j < |front|
    ensures Holds(m, front + [last], j, id) <==> Holds(m, front, j, id) && id !in Leaving(RunUses(m, front), last)
  {
    var uses := front + [last];
    assert uses[..|front|] == front && uses[|front|] == last;
    forall i | 0 <= i < |front|
      ensures RunUses(m, uses[..i]) == RunUses(m, front[..i]) && uses[i] == front[i]
    {
      assert uses[..i] == front[..i];
    }
  }

  lemma HoldsLast(m: Mgr, front: seq<Use>, last: Use, id: u64)
    ensures Holds(m, front + [last], |front|, id) <==> id in Entering(RunUses(m, front), last)
  {
    assert (front + [last])[..|front|] == front;
  }

  ghost predicate Held(m: Mgr, uses: seq<Use>, id: u64) {
    exists j: nat :: Holds(m, uses, j, id)
  }

  lemma HeldStep(m: Mgr, front: seq<Use>, last: Use, id: u64)
    ensures Held(m, front + [last], id) <==>
            (Held(m, front, id) && id !in Leaving(RunUses(m, front), last)) || id in Entering(RunUses(m, front), last)
  {
    HoldsLast(m, front, last, id);
    forall j: nat | j < |front|
      ensures Holds(m, front + [last], j, id) <==> Holds(m, front, j, id) && id !in Leaving(RunUses(m, front), last)
    {
      HoldsOn(m, front, last, j, id);
    }
  }

  /** The live streams of a run are those that entered and were not removed since. */
  lemma {:induction false} LiveIff(m: Mgr, uses: seq<Use>, id: u64)
    requires m.streams == map[]
    ensures id in RunUses(m, uses).streams <==> Held(m, uses, id)
  {
    if uses == [] {
    } else {
      var front, last := uses[..|uses| - 1], uses[|uses| - 1];
      assert uses == front + [last];
      LiveIff(m, front, id);
      UseKeys(RunUses(m, front), last, id);
      HeldStep(m, front, last, id);
    }
  }

  // ---------- overwriting ----------

  datatype Kind = Creation | Acceptance | Implicit

  function KindOf(u: Use): Kind {
    match u
    case Call(op) => if op.Accept? then Acceptance else Creation
    case Receive(_, _) => Implicit
  }

  /** The identifier that a use hands out, if any. */
  function Made(m: Mgr, u: Use): seq<u64> {
    if u.Call? then Created(m, u.op) else []
  }

  function Taken(m: Mgr, u: Use): seq<u64> {
    if u.Call? then Accepted(m, u.op) else []
  }

  lemma UseRoleStep(m: Mgr, u: Use)
    requires Counter(m) + 4 < TWO_TO_64
    ensures RoleStep(m, Apply(m, u), Made(m, u), Taken(m, u))
  {
    match u
    case Call(op) => AnyRoleStep(m, op);
    case Receive(frame, now) => FrameOpens(m, frame, now);
  }

  predicate New(m: Mgr) {
    Counter(m) == 0 && m.maxRemoteId == 0 && m.streams == map[]
  }

  lemma NewManagerIsNew(config: Streams.StreamConfig, isClient: bool, now: nat)
    ensures New(NewManager(config, isClient, now))
  {
  }

  /** A manager's role, and a bound on a counter that stays a multiple of four. */
  predicate CountedTo(m: Mgr, isClient: bool, bound: nat) {
    m.isClient == isClient && Counter(m) <= bound && Counter(m) % 4 == 0
  }

  lemma CountOn(m: Mgr, n: Mgr, created: seq<u64>, accepted: seq<u64>, bound: nat)
    requires CountedTo(m, m.isClient, bound) && RoleStep(m, n, created, accepted)
    ensures CountedTo(n, m.isClient, bound + 4)
  {
  }

  lemma {:induction false} UsesCount(start: Mgr, uses: seq<Use>)
    requires New(start) && 4 * |uses| < TWO_TO_64
    ensures CountedTo(RunUses(start, uses), start.isClient, 4 * |uses|)
  {
    if uses != [] {
      var front, last := uses[..|uses| - 1], uses[|uses| - 1];
      var m := RunUses(start, front);
      UsesCount(start, front);
      UseRoleStep(m, last);
      CountOn(m, Apply(m, last), Made(m, last), Taken(m, last), 4 * |front|);
    }
  }

  /** What was created is below one counter, what was accepted at most the other. */
  predicate Below(created: seq<u64>, accepted: seq<u64>, m: Mgr) {
    (forall id :: id in created ==> id < Counter(m)) && (forall id :: id in accepted ==> id <= m.maxRemoteId)
  }

  lemma StepBelow(m: Mgr, n: Mgr, created: seq<u64>, accepted: seq<u64>)
    requires RoleStep(m, n, created, accepted)
    ensures Below(created, accepted, n)
  {
  }

  /** Identifiers created or accepted earlier are below the counters. */
  lemma {:induction false} EarlierUse(start: Mgr, uses: seq<Use>, j: nat)
    requires New(start) && 4 * |uses| < TWO_TO_64 && j < |uses|
    ensures var m := RunUses(start, uses[..j]);
            Below(Made(m, uses[j]), Taken(m, uses[j]), RunUses(start, uses))
    decreases |uses|
  {
    var front, last := uses[..|uses| - 1], uses[|uses| - 1];
    var here := RunUses(start, front);
    UsesCount(start, front);
    UseRoleStep(here, last);
    if j == |front| {
      assert uses[..j] == front;
      StepBelow(here, RunUses(start, uses), Made(here, last), Taken(here, last));
    } else {
      EarlierUse(start, front, j);
      assert front[..j] == uses[..j] && front[j] == uses[j];
    }
  }

  lemma KindOfEntering(m: Mgr, u: Use, id: u64)
    requires id in Entering(m, u)
    ensures KindOf(u).Creation? ==> id in Made(m, u)
    ensures KindOf(u).Acceptance? ==> id in Taken(m, u)
    ensures KindOf(u).Implicit? ==> id !in m.streams
  {
  }

  /** The stream entered before by a use of another kind, and was not removed since. */
  ghost predicate HeldByOtherKind(m: Mgr, uses: seq<Use>, u: Use, id: u64) {
    exists j: nat :: Holds(m, uses, j, id) && KindOf(uses[j]) != KindOf(u)
  }

  lemma DifferentKinds(m: Mgr, u: Use, earlierM: Mgr, earlier: Use, id: u64)
    requires RoleStep(m, Apply(m, u), Made(m, u), Taken(m, u)) && id in Entering(m, u) && id in m.streams
    requires Below(Made(earlierM, earlier), Taken(earlierM, earlier), m) && id in Entering(earlierM, earlier)
    ensures KindOf(earlier) != KindOf(u)
  {
    KindOfEntering(m, u, id);
    KindOfEntering(earlierM, earlier, id);
  }

  lemma OfOtherKind(start: Mgr, uses: seq<Use>, u: Use, id: u64, j: nat)
    requires New(start) && 4 * |uses| + 4 < TWO_TO_64
    requires id in Entering(RunUses(start, uses), u) && id in RunUses(start, uses).streams
    requires Holds(start, uses, j, id)
    ensures KindOf(uses[j]) != KindOf(u)
  {
    var m := RunUses(start, uses);
    UsesCount(start, uses);
    UseRoleStep(m, u);
    EarlierUse(start, uses, j);
    DifferentKinds(m, u, RunUses(start, uses[..j]), uses[j], id);
  }

  /**
    After any run of either role short of wrapping the counter, removals and frames included, a stream that enters
    takes the place of a live record exactly when it entered before by a use of another kind (a creation, an
    acceptance, a frame) and was not removed since.
   */
  lemma OverwritesIff(start: Mgr, uses: seq<Use>, u: Use, id: u64)
    requires New(start) && 4 * |uses| + 4 < TWO_TO_64
    requires id in Entering(RunUses(start, uses), u)
    ensures id in RunUses(start, uses).streams <==> HeldByOtherKind(start, uses, u, id)
  {
    LiveIff(start, uses, id);
    if id in RunUses(start, uses).streams {
      forall j: nat | Holds(start, uses, j, id)
        ensures KindOf(uses[j]) != KindOf(u)
      {
        OfOtherKind(start, uses, u, id, j);
      }
    }
  }

  // ---------- clients ----------

  predicate Parity(kind: Kind, id: u64) {
    match kind
    case Creation => id % 4 == 0
    case Acceptance => id % 2 == 1
    case Implicit => true
  }

  lemma ClientParity(m: Mgr, u: Use, id: u64)
    requires m.isClient && Counter(m) % 4 == 0 && id in Entering(m, u)
    ensures Parity(KindOf(u), id)
  {
    RemoteIdsAreOdd(id);
  }

  lemma HolderParity(start: Mgr, uses: seq<Use>, id: u64, j: nat)
    requires New(start) && start.isClient && 4 * |uses| + 4 < TWO_TO_64 && Holds(start, uses, j, id)
    ensures Parity(KindOf(uses[j]), id)
  {
    UsesCount(start, uses[..j]);
    ClientParity(RunUses(start, uses[..j]), uses[j], id);
  }

  ghost predicate HeldByFrame(m: Mgr, uses: seq<Use>, id: u64) {
    exists j: nat :: Holds(m, uses, j, id) && uses[j].Receive?
  }

  lemma OverwritesInserted(m: Mgr, op: ManagerOp, id: u64)
    requires id in Inserted(m, op)
    ensures Overwrites(m, op) <==> id in m.streams
  {
    InsertedOne(m, op);
  }

  lemma ParitiesDiffer(u: Use, op: ManagerOp, id: u64)
    requires Parity(KindOf(u), id) && Parity(KindOf(Call(op)), id)
    ensures KindOf(u) != KindOf(Call(op)) <==> u.Receive?
  {
  }

  lemma HolderIsFrame(start: Mgr, uses: seq<Use>, op: ManagerOp, id: u64, j: nat)
    requires New(start) && start.isClient && 4 * |uses| + 4 < TWO_TO_64 && Holds(start, uses, j, id)
    requires Parity(KindOf(Call(op)), id)
    ensures KindOf(uses[j]) != KindOf(Call(op)) <==> uses[j].Receive?
  {
    HolderParity(start, uses, id, j);
    ParitiesDiffer(uses[j], op, id);
  }

  /** A client overwrites a record exactly when a frame opened the stream and nothing removed it since. */
  lemma ClientOverwritesIff(start: Mgr, uses: seq<Use>, op: ManagerOp, id: u64)
    requires New(start) && start.isClient && 4 * |uses| + 4 < TWO_TO_64
    requires id in Inserted(RunUses(start, uses), op)
    ensures Overwrites(RunUses(start, uses), op) <==> HeldByFrame(start, uses, id)
  {
    OverwritesInserted(RunUses(start, uses), op, id);
    OverwritesIff(start, uses, Call(op), id);
    UsesCount(start, uses);
    ClientParity(RunUses(start, uses), Call(op), id);
    forall j: nat | Holds(start, uses, j, id)
      ensures KindOf(uses[j]) != KindOf(Call(op)) <==> uses[j].Receive?
    {
      HolderIsFrame(start, uses, op, id, j);
    }
  }

  /** The stream of a parsed frame is 0, whatever stream it came on, except that a GOAWAY frame carries one. */
  lemma ParsedFrameStream(t: Frames.FrameType, payload: seq<byte>, frame: Frames.H3Frame)
    requires Frames.DecodePayload(t, payload) == Ok(frame)
    ensures frame.StreamId()
         == if t.DataFrame? || t.HeadersFrame? || t.PushPromiseFrame? then Some(0)
            else if frame.Goaway? then Some(frame.streamId) else None
    ensures t.GoawayFrame? <==> frame.Goaway?
  {
  }

  /** So a client's first stream overwrites a record if one parsed DATA frame, even a refused one, came before it. */
  lemma ParsedDataOverwrites(config: Streams.StreamConfig, payload: seq<byte>, now: nat)
    ensures var frame := Frames.DecodePayload(Frames.DataFrame, payload);
            && frame.Ok?
            && Overwrites(RunUses(NewManager(config, true, now), [Receive(frame.value, now)]),
                          Create(Streams.ClientBidirectional, now))
  {
    var start, frame := NewManager(config, true, now), Frames.DecodePayload(Frames.DataFrame, payload).value;
    var u := Receive(frame, now);
    var m := RunUses(start, [u]);
    assert [u][..|[u]| - 1] == [] && RunUses(start, []) == start;
    assert m == Apply(start, u);
    FrameOpens(start, frame, now);
    assert Opened(start, frame) == [0];
    assert m.streams.Keys == {0};
    assert Inserted(m, Create(Streams.ClientBidirectional, now)) == [0];
  }
}
