/** The records of a manager over whole runs: which are closed honestly, and what stays behind when they go. */
module ManagerRecords {
  import opened Bytes
  import opened StableSort
  import opened Manager
  import opened ManagerRuns
  import Streams
  import Scheduling

  // ---------- honest records ----------

  ghost predicate AllHonest(m: Mgr) {
    forall id :: id in m.streams ==> Streams.Honest(m.streams[id])
  }

  /** The manager closes a stream that was not reset and that not both sides have ended. */
  predicate AbruptClose(m: Mgr, op: ManagerOp) {
    && op.CloseOne? && op.id in m.streams
    && !m.streams[op.id].reset && !(m.streams[op.id].endStreamSent && m.streams[op.id].endStreamReceived)
  }

  /** An honest record stays honest in every step but an abrupt close. */
  lemma RecordHonestIff(m: Mgr, op: ManagerOp, id: u64)
    requires id in m.streams && Streams.Honest(m.streams[id]) && id !in Inserted(m, op) && id in Step(m, op).streams
    ensures Streams.Honest(Step(m, op).streams[id]) <==> !(AbruptClose(m, op) && op.id == id)
  {
    if op.OnStream? && op.id == id {
      Streams.StepHonest(m.streams[id], op.op);
    }
  }

  lemma InsertedHonest(m: Mgr, op: ManagerOp, id: u64)
    requires id in Inserted(m, op)
    ensures id in Step(m, op).streams && Streams.Honest(Step(m, op).streams[id])
  {
  }

  lemma StepHonestIff(m: Mgr, op: ManagerOp)
    requires AllHonest(m)
    ensures AllHonest(Step(m, op)) <==> !AbruptClose(m, op)
  {
    var n := Step(m, op);
    forall id | id in n.streams
      ensures Streams.Honest(n.streams[id]) <==> !(AbruptClose(m, op) && op.id == id)
    {
      StepKeys(m, op, id);
      if id in Inserted(m, op) {
        InsertedHonest(m, op, id);
      } else {
        RecordHonestIff(m, op, id);
      }
    }
    if AbruptClose(m, op) {
      StepKeys(m, op, op.id);
    }
  }

  ghost predicate AlwaysHonest(m: Mgr, ops: seq<ManagerOp>) {
    AllHonest(Run(m, ops)) && (ops == [] || AlwaysHonest(m, ops[..|ops| - 1]))
  }

  predicate NeverAbrupt(m: Mgr, ops: seq<ManagerOp>) {
    ops == [] || (NeverAbrupt(m, ops[..|ops| - 1]) && !AbruptClose(Run(m, ops[..|ops| - 1]), ops[|ops| - 1]))
  }

  /**
    The records of a manager tell the truth about how their streams ended throughout a run exactly when no step
    of the run closes a stream abruptly.
   */
  lemma {:induction false} AlwaysHonestIff(config: Streams.StreamConfig, isClient: bool, now: nat, ops: seq<ManagerOp>)
    ensures var m := NewManager(config, isClient, now); AlwaysHonest(m, ops) <==> NeverAbrupt(m, ops)
  {
    if ops == [] {
    } else {
      var m := NewManager(config, isClient, now);
      var front, last := ops[..|ops| - 1], ops[|ops| - 1];
      AlwaysHonestIff(config, isClient, now, front);
      if AlwaysHonest(m, front) {
        StepHonestIff(Run(m, front), last);
      }
    }
  }

  /** Closing a stream right after it was created is such a step. */
  lemma CloseAfterCreateIsAbrupt(m: Mgr, t: Streams.StreamType, now: nat)
    requires CreateStream(m, t, now).1.Ok?
    ensures AbruptClose(Step(m, Create(t, now)), CloseOne(CreateStream(m, t, now).1.value))
  {
  }

  // ---------- which streams have windows ----------

  /**
    A recorded stream that is not closed has both windows, except for stream 0, which the controller takes for the
    connection.
   */
  ghost predicate Windowed(m: Mgr) {
    && 0 !in m.flow.send && 0 !in m.flow.recv
    && forall id :: id in m.streams && id != 0 && !m.streams[id].state.Closed? ==>
         id in m.flow.send && id in m.flow.recv
  }

  lemma RecordWindowed(m: Mgr, s: Streams.Stream)
    requires Windowed(m)
    ensures Windowed(Record(m, s))
  {
  }

  lemma CreateWindowed(m: Mgr, t: Streams.StreamType, now: nat)
    requires Windowed(m)
    ensures Windowed(CreateStream(m, t, now).0)
  {
    var (n, r) := CreateStream(m, t, now);
    if r.Ok? {
      var next := Advance(r.value);
      var counted := if ClientType(t) then m.(nextClientId := next) else m.(nextServerId := next);
      RecordWindowed(counted, Streams.New(r.value, m.config, now).(state := Streams.Open));
    }
  }

  lemma AcceptWindowed(m: Mgr, id: u64, now: nat)
    requires Windowed(m)
    ensures Windowed(AcceptStream(m, id, now).0)
  {
    RecordWindowed(m, Streams.New(id, m.config, now));
  }

  lemma TouchWindowed(m: Mgr, id: u64, op: Streams.StreamOp)
    requires Windowed(m)
    ensures Windowed(Touch(m, id, op))
  {
    if id in m.streams && m.streams[id].state.Closed? {
      Streams.DoneStep(m.streams[id], op, Streams.Step(m.streams[id], op));
    }
  }

  lemma StepWindowed(m: Mgr, op: ManagerOp)
    requires Windowed(m)
    ensures Windowed(Step(m, op))
  {
    match op
    case Create(t, now) => CreateWindowed(m, t, now);
    case CreateWithPriority(t, _, now) => CreateWindowed(m, t, now);
    case Accept(id, now) => AcceptWindowed(m, id, now);
    case OnStream(id, o) => TouchWindowed(m, id, o);
    case _ =>
  }

  /**
    In every run of either role, a stream that is recorded and not closed has its two windows, except for stream 0,
    which never has any.
   */
  lemma {:induction false} AlwaysWindowed(config: Streams.StreamConfig, isClient: bool, now: nat, ops: seq<ManagerOp>)
    ensures Windowed(Run(NewManager(config, isClient, now), ops))
  {
    if ops == [] {
    } else {
      AlwaysWindowed(config, isClient, now, ops[..|ops| - 1]);
      StepWindowed(Run(NewManager(config, isClient, now), ops[..|ops| - 1]), ops[|ops| - 1]);
    }
  }

  /** The first stream that either role creates is stream 0: recorded, open, and without windows. */
  lemma FirstStreamHasNoWindows(config: Streams.StreamConfig, isClient: bool, t: Streams.StreamType, now: nat)
    requires ClientType(t) == isClient
    ensures var (n, r) := CreateStream(NewManager(config, isClient, now), t, now);
            && r == Ok(0) && 0 in n.streams && n.streams[0].state == Streams.Open
            && 0 !in n.flow.send && 0 !in n.flow.recv
  {
  }

  // ---------- when a table comes to name a stream without a record ----------

  /** Every stream that is queued or has a window is recorded. */
  ghost predicate Recorded(m: Mgr) {
    && (forall e :: e in m.queue ==> e.id in m.streams)
    && m.flow.send.Keys <= m.streams.Keys && m.flow.recv.Keys <= m.streams.Keys
  }

  /** A purge of closed streams of which one is queued or still has a window. */
  ghost predicate Orphans(m: Mgr, op: ManagerOp) {
    && op.PurgeClosed?
    && exists id :: id in m.streams && m.streams[id].state.Closed?
                    && (HasEntry(m.queue, id) || id in m.flow.send || id in m.flow.recv)
  }

  lemma {:induction false} ReprioritizeIds(queue: seq<Entry>, id: u64, s: Schedule)
    ensures forall e :: e in Reprioritize(queue, id, s) ==> HasEntry(queue, e.id)
  {
    if queue == [] {
    } else {
      ReprioritizeIds(queue[1..], id, s);
      assert queue[0] in queue;
      forall e | e in Reprioritize(queue, id, s)
        ensures HasEntry(queue, e.id)
      {
        if e in Reprioritize(queue[1..], id, s) {
          var f :| f in queue[1..] && f.id == e.id;
          assert f in queue;
        }
      }
    }
  }

  lemma CreateRecorded(m: Mgr, t: Streams.StreamType, now: nat)
    requires Recorded(m)
    ensures Recorded(CreateStream(m, t, now).0)
  {
  }

  lemma CreateWithPriorityRecorded(m: Mgr, t: Streams.StreamType, s: Schedule, now: nat)
    requires Recorded(m)
    ensures Recorded(CreateStreamWithPriority(m, t, s, now).0)
  {
    CreateRecorded(m, t, now);
  }

  lemma AcceptRecorded(m: Mgr, id: u64, now: nat)
    requires Recorded(m)
    ensures Recorded(AcceptStream(m, id, now).0)
  {
  }

  lemma PrioritizeRecorded(m: Mgr, id: u64, s: Schedule)
    requires Recorded(m)
    ensures Recorded(UpdatePriority(m, id, s))
  {
    ReprioritizeIds(m.queue, id, s);
  }

  lemma ForgetRecorded(m: Mgr, gone: set<u64>)
    requires Recorded(m)
    ensures Recorded(Forget(m, gone))
  {
    Scheduling.FilterMembers(m.queue, EntryStays(gone));
  }

  lemma PurgeRecordedIff(m: Mgr)
    requires Recorded(m)
    ensures Recorded(CleanupClosed(m)) <==> !Orphans(m, PurgeClosed)
  {
    var n := CleanupClosed(m);
    if Orphans(m, PurgeClosed) {
      var id :| id in m.streams && m.streams[id].state.Closed?
                && (HasEntry(m.queue, id) || id in m.flow.send || id in m.flow.recv);
      assert id !in n.streams;
    } else {
      assert forall e :: e in m.queue ==> HasEntry(m.queue, e.id);
    }
  }

  lemma OthersRecorded(m: Mgr, op: ManagerOp)
    requires Recorded(m) && (op.CloseOne? || op.SetLimit? || op.OnStream?)
    ensures Recorded(Step(m, op))
  {
  }

  /** Of all steps, exactly such a purge leaves a stream queued or with a window but without a record. */
  lemma StepRecordedIff(m: Mgr, op: ManagerOp)
    requires Recorded(m)
    ensures Recorded(Step(m, op)) <==> !Orphans(m, op)
  {
    match op
    case Create(t, now) => CreateRecorded(m, t, now);
    case CreateWithPriority(t, s, now) => CreateWithPriorityRecorded(m, t, s, now);
    case Accept(id, now) => AcceptRecorded(m, id, now);
    case Prioritize(id, s) => PrioritizeRecorded(m, id, s);
    case PurgeClosed => PurgeRecordedIff(m);
    case Cleanup(now, clock) => ForgetRecorded(m, Expired(m, clock));
    case _ => OthersRecorded(m, op);
  }

  ghost predicate AlwaysRecorded(m: Mgr, ops: seq<ManagerOp>) {
    Recorded(Run(m, ops)) && (ops == [] || AlwaysRecorded(m, ops[..|ops| - 1]))
  }

  ghost predicate NeverOrphans(m: Mgr, ops: seq<ManagerOp>) {
    ops == [] || (NeverOrphans(m, ops[..|ops| - 1]) && !Orphans(Run(m, ops[..|ops| - 1]), ops[|ops| - 1]))
  }

  /** Throughout a run everything queued or windowed is recorded exactly when no step of it is such a purge. */
  lemma {:induction false} AlwaysRecordedIff(
    config: Streams.StreamConfig, isClient: bool, now: nat, ops: seq<ManagerOp>)
    ensures var m := NewManager(config, isClient, now); AlwaysRecorded(m, ops) <==> NeverOrphans(m, ops)
  {
    if ops == [] {
    } else {
      var m := NewManager(config, isClient, now);
      var front, last := ops[..|ops| - 1], ops[|ops| - 1];
      AlwaysRecordedIff(config, isClient, now, front);
      if AlwaysRecorded(m, front) {
        StepRecordedIff(Run(m, front), last);
      }
    }
  }

  // ---------- what a purge leaves behind ----------

  ghost predicate HasEntry(queue: seq<Entry>, id: u64) {
    exists e :: e in queue && e.id == id
  }

  /** The tables that still name the stream. */
  ghost predicate Named(m: Mgr, n: Mgr, id: u64) {
    && (HasEntry(m.queue, id) ==> HasEntry(n.queue, id))
    && (id in m.tree ==> id in n.tree)
    && (id in m.flow.send ==> id in n.flow.send)
    && (id in m.flow.recv ==> id in n.flow.recv)
  }

  lemma {:induction false} ReprioritizeKeeps(queue: seq<Entry>, id: u64, s: Schedule, x: u64)
    ensures HasEntry(queue, x) ==> HasEntry(Reprioritize(queue, id, s), x)
  {
    if queue == [] {
    } else {
      ReprioritizeKeeps(queue[1..], id, s, x);
      if e :| e in queue && e.id == x {
        var after := Reprioritize(queue, id, s);
        if e == queue[0] {
          assert after[0].id == x && after[0] in after;
        } else {
          assert e in queue[1..];
          if queue[0].id == id {
            assert e in after;
          } else {
            var f :| f in Reprioritize(queue[1..], id, s) && f.id == x;
            assert f in after;
          }
        }
      }
    }
  }

  lemma ForgetKeepsOthers(m: Mgr, gone: set<u64>, id: u64)
    requires id !in gone
    ensures Named(m, Forget(m, gone), id)
  {
    Scheduling.FilterMembers(m.queue, EntryStays(gone));
  }

  lemma SweepKeepsNames(m: Mgr, now: nat, clock: u64 -> nat, id: u64)
    requires id !in m.streams
    ensures Named(m, CleanupIdle(m, now, clock), id)
  {
    ForgetKeepsOthers(m, Expired(m, clock), id);
  }

  lemma AppendKeeps(queue: seq<Entry>, e: Entry, id: u64)
    ensures HasEntry(queue, id) ==> HasEntry(queue + [e], id)
  {
    if f :| f in queue && f.id == id {
      assert f in queue + [e];
    }
  }

  lemma CreateKeepsNames(m: Mgr, t: Streams.StreamType, now: nat, id: u64)
    ensures Named(m, CreateStream(m, t, now).0, id)
  {
  }

  lemma CreateWithPriorityKeepsNames(m: Mgr, t: Streams.StreamType, s: Schedule, now: nat, id: u64)
    ensures Named(m, CreateStreamWithPriority(m, t, s, now).0, id)
  {
    CreateKeepsNames(m, t, now, id);
    var (n, r) := CreateStream(m, t, now);
    if r.Ok? {
      AppendKeeps(n.queue, EntryFor(r.value, s), id);
    }
  }

  lemma PrioritizeKeepsNames(m: Mgr, x: u64, s: Schedule, id: u64)
    ensures Named(m, UpdatePriority(m, x, s), id)
  {
    ReprioritizeKeeps(m.queue, x, s, id);
  }

  lemma CloseKeepsNames(m: Mgr, x: u64, id: u64)
    requires id !in m.streams
    ensures Named(m, CloseStream(m, x).0, id)
  {
  }

  lemma OthersKeepNames(m: Mgr, op: ManagerOp, id: u64)
    requires op.Accept? || op.PurgeClosed? || op.SetLimit? || op.OnStream?
    ensures Named(m, Step(m, op), id)
  {
  }

  /** No step forgets a stream that has no record: sweeps only look at records. */
  lemma StepKeepsOrphan(m: Mgr, op: ManagerOp, id: u64)
    requires id !in m.streams
    ensures Named(m, Step(m, op), id)
  {
    match op
    case Create(t, now) => CreateKeepsNames(m, t, now, id);
    case CreateWithPriority(t, s, now) => CreateWithPriorityKeepsNames(m, t, s, now, id);
    case Prioritize(x, s) => PrioritizeKeepsNames(m, x, s, id);
    case Cleanup(now, clock) => SweepKeepsNames(m, now, clock, id);
    case CloseOne(x) => CloseKeepsNames(m, x, id);
    case _ => OthersKeepNames(m, op, id);
  }

  /** A client never inserts a stream whose identifier was handed out or accepted before. */
  lemma NeverAgain(m: Mgr, op: ManagerOp, id: u64)
    requires ClientIds(m) && m.nextClientId + 4 < TWO_TO_64 && Allocated(m, id)
    ensures id !in Inserted(m, op) && Allocated(Step(m, op), id)
  {
    StepIds(m, op);
    FreshOnly(m, Step(m, op), Created(m, op), Accepted(m, op), id);
  }

  lemma FreshOnly(m: Mgr, n: Mgr, created: seq<u64>, accepted: seq<u64>, id: u64)
    requires |created| + |accepted| <= 1 && m.nextClientId % 4 == 0 && Allocated(m, id)
    requires n.nextClientId == m.nextClientId + 4 * |created| && (created != [] ==> created[0] == m.nextClientId)
    requires if accepted == [] then n.maxRemoteId == m.maxRemoteId
             else m.maxRemoteId < accepted[0] == n.maxRemoteId && accepted[0] % 2 == 1
    ensures id !in created + accepted && Allocated(n, id)
  {
    if created != [] {
      assert created + accepted == [m.nextClientId];
    } else if accepted != [] {
      assert created + accepted == [n.maxRemoteId];
    } else {
      assert created + accepted == [];
    }
  }

  /**
    So once a client's stream has lost its record, everything else that names it, in the queue, the tree and the
    windows, stays for good, whatever sweeps follow.
   */
  lemma {:induction false} OrphansStay(m: Mgr, ops: seq<ManagerOp>, id: u64)
    requires ClientIds(m) && m.nextClientId + 4 * |ops| + 4 < TWO_TO_64
    requires Allocated(m, id) && id !in m.streams
    ensures var n := Run(m, ops);
            && ClientIds(n) && n.nextClientId <= m.nextClientId + 4 * |ops|
            && Allocated(n, id) && id !in n.streams && Named(m, n, id)
  {
    if ops == [] {
    } else {
      var front, last := ops[..|ops| - 1], ops[|ops| - 1];
      OrphansStay(m, front, id);
      var here := Run(m, front);
      StepIds(here, last);
      NeverAgain(here, last, id);
      StepKeys(here, last, id);
      StepKeepsOrphan(here, last, id);
    }
  }

  lemma ThreeSteps(m: Mgr, a: ManagerOp, b: ManagerOp, c: ManagerOp)
    ensures Run(m, [a, b, c]) == Step(Step(Step(m, a), b), c)
  {
    RunAppend(m, [], a);
    RunAppend(m, [a], b);
    RunAppend(m, [a, b], c);
    assert [] + [a] == [a] && [a] + [b] == [a, b] && [a, b] + [c] == [a, b, c];
  }

  /** It happens: a stream is created with a priority, closed, and purged. */
  lemma PurgeLeavesEntry(config: Streams.StreamConfig, s: Schedule)
    ensures var create := CreateWithPriority(Streams.ClientBidirectional, s, 0);
            var m := Run(NewManager(config, true, 0), [create, CloseOne(0), PurgeClosed]);
            ClientIds(m) && Allocated(m, 0) && 0 !in m.streams && HasEntry(m.queue, 0)
  {
    var start, create := NewManager(config, true, 0), CreateWithPriority(Streams.ClientBidirectional, s, 0);
    ThreeSteps(start, create, CloseOne(0), PurgeClosed);
    var one := Step(start, create);
    FirstCreated(start, s);
    ClosedAndPurged(one, 0);
    assert EntryFor(0, s) in one.queue;
  }

  lemma FirstCreated(start: Mgr, s: Schedule)
    requires start.isClient && start.nextClientId == 0 && start.maxConcurrent > 0
    requires start.streams == map[] && start.queue == []
    ensures var one := Step(start, CreateWithPriority(Streams.ClientBidirectional, s, 0));
            one.isClient && one.nextClientId == 4 && one.streams.Keys == {0} && one.queue == [EntryFor(0, s)]
  {
  }

  lemma ClosedAndPurged(m: Mgr, id: u64)
    requires m.streams.Keys == {id}
    ensures var n := Step(Step(m, CloseOne(id)), PurgeClosed);
            n.streams == map[] && n.queue == m.queue && n.isClient == m.isClient && n.nextClientId == m.nextClientId
  {
    var closed := Step(m, CloseOne(id));
    assert closed.streams.Keys == {id} && closed.streams[id].state.Closed?;
  }
}
