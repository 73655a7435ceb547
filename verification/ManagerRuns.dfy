/** What the stream manager keeps over whole runs: fresh identifiers, one parent per stream, tables cleaned together. */
module ManagerRuns {
  import opened Bytes
  import opened Streams
  import opened StableSort
  import opened Manager
  import Scheduling

  datatype ManagerOp =
    | Create(t: StreamType, now: nat)
    | CreateWithPriority(t: StreamType, schedule: Schedule, now: nat)
    | Accept(id: u64, now: nat)
    | Prioritize(id: u64, schedule: Schedule)
    | CloseOne(id: u64)
    | PurgeClosed
    | Cleanup(now: nat, clock: u64 -> nat)
    | SetLimit(max: u64)
    | OnStream(id: u64, op: StreamOp)    // work on one stream's record

  function Touch(m: Mgr, id: u64, op: StreamOp): Mgr {
    if id in m.streams then m.(streams := m.streams[id := Streams.Step(m.streams[id], op)]) else m
  }

  function Step(m: Mgr, op: ManagerOp): Mgr {
    match op
    case Create(t, now) => CreateStream(m, t, now).0
    case CreateWithPriority(t, s, now) => CreateStreamWithPriority(m, t, s, now).0
    case Accept(id, now) => AcceptStream(m, id, now).0
    case Prioritize(id, s) => UpdatePriority(m, id, s)
    case CloseOne(id) => CloseStream(m, id).0
    case PurgeClosed => CleanupClosed(m)
    case Cleanup(now, clock) => CleanupIdle(m, now, clock)
    case SetLimit(max) => m.(maxConcurrent := max)
    case OnStream(id, op) => Touch(m, id, op)
  }

  function Run(m: Mgr, ops: seq<ManagerOp>): Mgr {
    if ops == [] then m else Step(Run(m, ops[..|ops| - 1]), ops[|ops| - 1])
  }

  /** The identifier a step hands out, if it creates a stream. */
  function Created(m: Mgr, op: ManagerOp): seq<u64> {
    match op
    case Create(t, now) =>
      var r := CreateStream(m, t, now).1;
      if r.Ok? then [r.value] else []
    case CreateWithPriority(t, s, now) =>
      var r := CreateStreamWithPriority(m, t, s, now).1;
      if r.Ok? then [r.value] else []
    case _ => []
  }

  function Accepted(m: Mgr, op: ManagerOp): seq<u64> {
    if op.Accept? && AcceptStream(m, op.id, op.now).1.Ok? then [op.id] else []
  }

  function CreatedIds(m: Mgr, ops: seq<ManagerOp>): seq<u64> {
    if ops == [] then []
    else CreatedIds(m, ops[..|ops| - 1]) + Created(Run(m, ops[..|ops| - 1]), ops[|ops| - 1])
  }

  function AcceptedIds(m: Mgr, ops: seq<ManagerOp>): seq<u64> {
    if ops == [] then []
    else AcceptedIds(m, ops[..|ops| - 1]) + Accepted(Run(m, ops[..|ops| - 1]), ops[|ops| - 1])
  }

  /** The stream that a step inserts, if any. */
  function Inserted(m: Mgr, op: ManagerOp): seq<u64> {
    Created(m, op) + Accepted(m, op)
  }

  /** The streams that a step removes. */
  function Removed(m: Mgr, op: ManagerOp): set<u64> {
    match op
    case PurgeClosed => set id | id in m.streams && m.streams[id].state.Closed?
    case Cleanup(now, clock) => if SweepDue(m, now) then Expired(m, clock) else {}
    case _ => {}
  }

  lemma InsertedOne(m: Mgr, op: ManagerOp)
    ensures |Inserted(m, op)| <= 1
  {
  }

  lemma InsertedKeys(m: Mgr, op: ManagerOp)
    requires op.Create? || op.CreateWithPriority? || op.Accept?
    ensures forall id :: id in Step(m, op).streams <==> id in m.streams || id in Inserted(m, op)
  {
  }

  lemma KeptKeys(m: Mgr, op: ManagerOp)
    requires !op.Create? && !op.CreateWithPriority? && !op.Accept?
    ensures forall id :: id in Step(m, op).streams <==> id in m.streams && id !in Removed(m, op)
    ensures Inserted(m, op) == []
  {
  }

  /** A step inserts and removes exactly these streams. */
  lemma StepKeys(m: Mgr, op: ManagerOp, id: u64)
    ensures id in Step(m, op).streams <==> (id in m.streams && id !in Removed(m, op)) || id in Inserted(m, op)
  {
    if op.Create? || op.CreateWithPriority? || op.Accept? {
      InsertedKeys(m, op);
    } else {
      KeptKeys(m, op);
    }
  }

  // ---------- identifiers of a client ----------

  /** The identifiers a client has handed out or accepted so far. */
  predicate Allocated(m: Mgr, id: u64) {
    (id % 4 == 0 && id < m.nextClientId) || (id % 2 == 1 && id <= m.maxRemoteId)
  }

  ghost predicate ClientIds(m: Mgr) {
    && m.isClient && m.nextClientId % 4 == 0
    && forall id :: id in m.streams ==> Allocated(m, id)
  }

  /** A stream enters that was not there, and the limit still holds. */
  ghost predicate Inserts(m: Mgr, n: Mgr, id: u64) {
    && id !in m.streams
    && n.streams.Keys == m.streams.Keys + {id}
    && |n.streams| <= n.maxConcurrent
  }

  lemma RecordInserts(m: Mgr, s: Stream)
    requires s.id !in m.streams && |m.streams| < m.maxConcurrent
    ensures Inserts(m, Record(m, s), s.id)
  {
    var after := m.streams[s.id := s];
    assert after.Keys == m.streams.Keys + {s.id};
    assert |after| == |after.Keys| && |m.streams| == |m.streams.Keys|;
  }

  lemma AllocatedGrows(m: Mgr, n: Mgr)
    requires m.nextClientId <= n.nextClientId && m.maxRemoteId <= n.maxRemoteId
    ensures forall x :: Allocated(m, x) ==> Allocated(n, x)
  {
  }

  lemma RemoteIdsAreOdd(id: u64)
    ensures !ClientType(TypeOfId(id)) <==> id % 2 == 1
  {
  }

  /** A client's created stream takes the next identifier, which no stream had; the counter moves on by four. */
  lemma CreateFresh(m: Mgr, t: StreamType, now: nat, n: Mgr, id: u64)
    requires ClientIds(m) && m.nextClientId + 4 < TWO_TO_64
    requires CreateStream(m, t, now) == (n, Ok(id))
    ensures ClientIds(n) && Inserts(m, n, id) && id == m.nextClientId
    ensures n.nextClientId == m.nextClientId + 4 && n.maxRemoteId == m.maxRemoteId
  {
    assert id !in m.streams;
    var counted := m.(nextClientId := Advance(id));
    var s := Streams.New(id, m.config, now).(state := Open);
    assert n == Record(counted, s);
    RecordInserts(counted, s);
    AllocatedGrows(m, n);
  }

  /** An accepted stream has an odd identifier above all accepted before it. */
  lemma AcceptFresh(m: Mgr, id: u64, now: nat, n: Mgr)
    requires ClientIds(m)
    requires AcceptStream(m, id, now) == (n, Ok(()))
    ensures ClientIds(n) && Inserts(m, n, id)
    ensures id % 2 == 1 && id > m.maxRemoteId && n.maxRemoteId == id && n.nextClientId == m.nextClientId
  {
    RemoteIdsAreOdd(id);
    assert id !in m.streams;
    var s := Streams.New(id, m.config, now);
    RecordInserts(m, s);
    AllocatedGrows(m, n);
  }

  /** What one step of a client does to the counters and to the set of streams. */
  ghost predicate StepsIds(m: Mgr, n: Mgr, created: seq<u64>, accepted: seq<u64>) {
    && ClientIds(n)
    && |created| + |accepted| <= 1
    && n.nextClientId == m.nextClientId + 4 * |created|
    && (created != [] ==> created[0] == m.nextClientId && Inserts(m, n, created[0]))
    && (accepted == [] ==> n.maxRemoteId == m.maxRemoteId)
    && (accepted != [] ==>
          m.maxRemoteId < accepted[0] == n.maxRemoteId && accepted[0] % 2 == 1 && Inserts(m, n, accepted[0]))
    && (created == [] == accepted ==> n.streams.Keys <= m.streams.Keys)
  }

  lemma CreateStepsIds(m: Mgr, t: StreamType, now: nat)
    requires ClientIds(m) && m.nextClientId + 4 < TWO_TO_64
    ensures StepsIds(m, CreateStream(m, t, now).0, Created(m, Create(t, now)), [])
  {
    var (n, r) := CreateStream(m, t, now);
    if r.Ok? {
      CreateFresh(m, t, now, n, r.value);
    }
  }

  lemma CreateWithPriorityStepsIds(m: Mgr, t: StreamType, s: Schedule, now: nat)
    requires ClientIds(m) && m.nextClientId + 4 < TWO_TO_64
    ensures StepsIds(m, CreateStreamWithPriority(m, t, s, now).0, Created(m, CreateWithPriority(t, s, now)), [])
  {
    var (n, r) := CreateStream(m, t, now);
    if r.Ok? {
      CreateFresh(m, t, now, n, r.value);
    }
  }

  lemma AcceptStepsIds(m: Mgr, id: u64, now: nat)
    requires ClientIds(m)
    ensures StepsIds(m, AcceptStream(m, id, now).0, [], Accepted(m, Accept(id, now)))
  {
    var (n, r) := AcceptStream(m, id, now);
    if r.Ok? {
      AcceptFresh(m, id, now, n);
    }
  }

  lemma OthersStepIds(m: Mgr, op: ManagerOp)
    requires ClientIds(m) && !op.Create? && !op.CreateWithPriority? && !op.Accept?
    ensures StepsIds(m, Step(m, op), [], [])
  {
  }

  lemma StepIds(m: Mgr, op: ManagerOp)
    requires ClientIds(m) && m.nextClientId + 4 < TWO_TO_64
    ensures StepsIds(m, Step(m, op), Created(m, op), Accepted(m, op))
  {
    match op
    case Create(t, now) => CreateStepsIds(m, t, now);
    case CreateWithPriority(t, s, now) => CreateWithPriorityStepsIds(m, t, s, now);
    case Accept(id, now) => AcceptStepsIds(m, id, now);
    case _ => OthersStepIds(m, op);
  }

  ghost predicate Increasing(ids: seq<u64>) {
    forall i, j :: 0 <= i < j < |ids| ==> ids[i] < ids[j]
  }

  /** The counters after a run, and the identifiers handed out and accepted in it. */
  ghost predicate IdsAfter(m: Mgr, created: seq<u64>, accepted: seq<u64>) {
    && ClientIds(m)
    && m.nextClientId == 4 * |created|
    && (forall i :: 0 <= i < |created| ==> created[i] == 4 * i)
    && Increasing(accepted)
    && (forall i :: 0 <= i < |accepted| ==> accepted[i] % 2 == 1 && accepted[i] <= m.maxRemoteId)
  }

  /**
    Identifiers of a client over any run short of wrapping the counter: those created are 0, 4, 8 and so on,
    and those accepted are odd and increase even after removals.
   */
  lemma {:induction false} FreshIds(config: StreamConfig, now: nat, ops: seq<ManagerOp>)
    requires 4 * |ops| + 4 < TWO_TO_64
    ensures var m := NewManager(config, true, now);
            IdsAfter(Run(m, ops), CreatedIds(m, ops), AcceptedIds(m, ops)) && |CreatedIds(m, ops)| <= |ops|
  {
    var m := NewManager(config, true, now);
    if ops == [] {
    } else {
      var front, last := ops[..|ops| - 1], ops[|ops| - 1];
      FreshIds(config, now, front);
      StepIds(Run(m, front), last);
      ExtendIds(Run(m, front), Run(m, ops), CreatedIds(m, front), AcceptedIds(m, front),
                Created(Run(m, front), last), Accepted(Run(m, front), last));
    }
  }

  lemma ExtendIds(m: Mgr, n: Mgr, created: seq<u64>, accepted: seq<u64>, more: seq<u64>, taken: seq<u64>)
    requires IdsAfter(m, created, accepted) && StepsIds(m, n, more, taken)
    ensures IdsAfter(n, created + more, accepted + taken)
  {
    if more != [] {
      assert more == [m.nextClientId];
    }
    if taken != [] {
      assert taken == [n.maxRemoteId];
      ExtendAccepted(accepted, m.maxRemoteId, n.maxRemoteId);
    }
  }

  lemma ExtendAccepted(accepted: seq<u64>, latest: u64, id: u64)
    requires Increasing(accepted) && forall i :: 0 <= i < |accepted| ==> accepted[i] % 2 == 1 && accepted[i] <= latest
    requires latest < id && id % 2 == 1
    ensures Increasing(accepted + [id])
    ensures forall i :: 0 <= i < |accepted + [id]| ==> (accepted + [id])[i] % 2 == 1 && (accepted + [id])[i] <= id
  {
  }

  /** No insertion of such a run meets a live stream or exceeds the limit in force; no other step adds a stream. */
  lemma InsertionsAreFresh(config: StreamConfig, now: nat, ops: seq<ManagerOp>, op: ManagerOp)
    requires 4 * |ops| + 8 < TWO_TO_64
    ensures var m := Run(NewManager(config, true, now), ops);
            var inserted := Inserted(m, op);
            && |inserted| <= 1
            && (inserted == [] ==> Step(m, op).streams.Keys <= m.streams.Keys)
            && (inserted != [] ==> Inserts(m, Step(m, op), inserted[0]))
  {
    FreshIds(config, now, ops);
    StepIds(Run(NewManager(config, true, now), ops), op);
  }

  // ---------- the type of a created stream ----------

  /** Both roles count in steps of four from zero. */
  predicate RoleCounters(m: Mgr) {
    if m.isClient then m.nextClientId % 4 == 0 else m.nextServerId % 4 == 0
  }

  lemma {:induction false} RunRoleCounters(config: StreamConfig, isClient: bool, now: nat, ops: seq<ManagerOp>)
    ensures RoleCounters(Run(NewManager(config, isClient, now), ops))
  {
    if ops == [] {
    } else {
      RunRoleCounters(config, isClient, now, ops[..|ops| - 1]);
      StepRoleCounters(Run(NewManager(config, isClient, now), ops[..|ops| - 1]), ops[|ops| - 1]);
    }
  }

  lemma StepRoleCounters(m: Mgr, op: ManagerOp)
    requires RoleCounters(m)
    ensures RoleCounters(Step(m, op))
  {
    match op
    case Create(t, now) => CreateRoleCounters(m, t, now);
    case CreateWithPriority(t, s, now) => CreateRoleCounters(m, t, now);
    case _ => OthersKeepCounters(m, op);
  }

  lemma AdvanceKeepsMultiple(id: u64)
    requires id % 4 == 0
    ensures Advance(id) % 4 == 0
  {
  }

  lemma CreateRoleCounters(m: Mgr, t: StreamType, now: nat)
    requires RoleCounters(m)
    ensures RoleCounters(CreateStream(m, t, now).0)
  {
    AdvanceKeepsMultiple(if m.isClient then m.nextClientId else m.nextServerId);
  }

  lemma OthersKeepCounters(m: Mgr, op: ManagerOp)
    requires !op.Create? && !op.CreateWithPriority?
    ensures Step(m, op).isClient == m.isClient
    ensures Step(m, op).nextClientId == m.nextClientId && Step(m, op).nextServerId == m.nextServerId
  {
  }

  /** The identifier handed out says the requested type exactly for a client's bidirectional streams. */
  lemma CreatedTypeIff(m: Mgr, t: StreamType, now: nat)
    requires RoleCounters(m) && CreateStream(m, t, now).1.Ok?
    ensures TypeOfId(CreateStream(m, t, now).1.value) == t <==> t == ClientBidirectional
  {
  }

  // ---------- one parent per stream ----------

  /** No stream occurs twice among all lists of children. */
  ghost predicate SingleParent(tree: Tree) {
    forall p, q, i, j ::
      p in tree && q in tree && 0 <= i < |tree[p]| && 0 <= j < |tree[q]| && tree[p][i] == tree[q][j] ==>
        p == q && i == j
  }

  ghost predicate IsChild(tree: Tree, id: u64) {
    exists p :: p in tree && id in tree[p]
  }

  lemma {:induction false} DropDistinct(children: seq<u64>, gone: set<u64>)
    requires forall i, j :: 0 <= i < j < |children| ==> children[i] != children[j]
    ensures forall i, j :: 0 <= i < j < |Drop(children, gone)| ==> Drop(children, gone)[i] != Drop(children, gone)[j]
    ensures forall c :: c in Drop(children, gone) <==> c in children && c !in gone
  {
    Scheduling.FilterMembers(children, ChildStays(gone));
    if children == [] {
    } else {
      DropDistinct(children[1..], gone);
      var rest := Drop(children[1..], gone);
      assert forall i :: 0 <= i < |rest| ==> rest[i] in rest;
      assert children[0] !in children[1..];
    }
  }

  lemma DropSingleParent(tree: Tree, gone: set<u64>)
    requires SingleParent(tree)
    ensures SingleParent(DropChildren(tree, gone))
    ensures forall c :: IsChild(DropChildren(tree, gone), c) <==> IsChild(tree, c) && c !in gone
  {
    var after := DropChildren(tree, gone);
    forall p | p in tree
      ensures forall i, j :: 0 <= i < j < |after[p]| ==> after[p][i] != after[p][j]
      ensures forall c :: c in after[p] <==> c in tree[p] && c !in gone
    {
      assert forall i, j :: 0 <= i < j < |tree[p]| ==> tree[p][i] != tree[p][j];
      DropDistinct(tree[p], gone);
    }
    forall p, q, i, j | p in after && q in after && 0 <= i < |after[p]| && 0 <= j < |after[q]| && after[p][i] == after[q][j]
      ensures p == q && i == j
    {
      assert after[p][i] in after[p] && after[q][j] in after[q];
      SameParent(tree, p, q, after[p][i]);
    }
    forall c
      ensures IsChild(after, c) <==> IsChild(tree, c) && c !in gone
    {
      if p :| p in after && c in after[p] {
        assert p in tree && c in tree[p];
      }
      if p :| p in tree && c in tree[p] && c !in gone {
        assert p in after && c in after[p];
      }
    }
  }

  lemma SameParent(tree: Tree, p: u64, q: u64, c: u64)
    requires SingleParent(tree) && p in tree && q in tree && c in tree[p] && c in tree[q]
    ensures p == q
  {
    var i :| 0 <= i < |tree[p]| && tree[p][i] == c;
    var j :| 0 <= j < |tree[q]| && tree[q][j] == c;
  }

  /** Adding a child keeps parents unique exactly when the stream was nobody's child. */
  lemma AddChildIff(tree: Tree, parent: u64, id: u64)
    requires SingleParent(tree)
    ensures SingleParent(AddChild(tree, Some(parent), id)) <==> !IsChild(tree, id)
    ensures forall c :: IsChild(AddChild(tree, Some(parent), id), c) <==> IsChild(tree, c) || c == id
  {
    var after := AddChild(tree, Some(parent), id);
    var before := Children(tree, parent);
    assert after[parent] == before + [id] && after[parent][|before|] == id;
    forall c
      ensures IsChild(after, c) <==> IsChild(tree, c) || c == id
    {
      if p :| p in tree && c in tree[p] {
        assert c in after[p];
      }
      assert id in after[parent];
    }
    if p :| p in tree && id in tree[p] {
      var i :| 0 <= i < |tree[p]| && tree[p][i] == id;
      assert after[p][i] == id;
      assert !SingleParent(after);
    } else {
      assert forall p, i :: p in tree && 0 <= i < |tree[p]| ==> tree[p][i] in tree[p] && tree[p][i] != id;
    }
  }

  /** Every child named in the tree was handed out or accepted before. */
  ghost predicate KnownChildren(m: Mgr) {
    forall c :: IsChild(m.tree, c) ==> Allocated(m, c)
  }

  ghost predicate TreeSound(m: Mgr) {
    SingleParent(m.tree) && KnownChildren(m)
  }

  lemma AttachSound(tree: Tree, parent: Option<u64>, id: u64)
    requires SingleParent(tree) && !IsChild(tree, id)
    ensures SingleParent(AddChild(tree, parent, id))
    ensures forall c :: IsChild(AddChild(tree, parent, id), c) ==> IsChild(tree, c) || c == id
  {
    if parent.Some? {
      AddChildIff(tree, parent.value, id);
    }
  }

  /** Changing a priority moves the stream: it never gets a second parent, whatever the identifier. */
  lemma PrioritizeSound(m: Mgr, id: u64, s: Schedule)
    requires SingleParent(m.tree)
    ensures SingleParent(UpdatePriority(m, id, s).tree)
    ensures forall c :: IsChild(UpdatePriority(m, id, s).tree, c) ==> IsChild(m.tree, c) || c == id
  {
    DropSingleParent(m.tree, {id});
    AttachSound(DropChildren(m.tree, {id}), s.dependentOn, id);
  }

  lemma CreateSound(m: Mgr, t: StreamType, s: Schedule, now: nat)
    requires ClientIds(m) && TreeSound(m) && m.nextClientId + 4 < TWO_TO_64
    ensures TreeSound(CreateStreamWithPriority(m, t, s, now).0)
  {
    var (n, r) := CreateStream(m, t, now);
    if r.Ok? {
      CreateFresh(m, t, now, n, r.value);
      assert !Allocated(m, m.nextClientId);
      AttachSound(m.tree, s.dependentOn, m.nextClientId);
    }
  }

  lemma RestrictSingleParent(tree: Tree, gone: set<u64>)
    requires SingleParent(tree)
    ensures SingleParent(tree - gone)
    ensures forall c :: IsChild(tree - gone, c) ==> IsChild(tree, c)
  {
    forall c | IsChild(tree - gone, c)
      ensures IsChild(tree, c)
    {
      var p :| p in tree - gone && c in (tree - gone)[p];
      assert p in tree && c in tree[p];
    }
  }

  lemma ForgetSound(m: Mgr, gone: set<u64>)
    requires SingleParent(m.tree)
    ensures SingleParent(Forget(m, gone).tree)
    ensures forall c :: IsChild(Forget(m, gone).tree, c) ==> IsChild(m.tree, c)
  {
    RestrictSingleParent(m.tree, gone);
    DropSingleParent(m.tree - gone, gone);
  }

  lemma KnownPrioritySound(m: Mgr, id: u64, s: Schedule)
    requires TreeSound(m) && Allocated(m, id)
    ensures TreeSound(UpdatePriority(m, id, s))
  {
    PrioritizeSound(m, id, s);
    var n := UpdatePriority(m, id, s);
    assert forall x :: Allocated(m, x) ==> Allocated(n, x);
  }

  lemma CleanupSound(m: Mgr, now: nat, clock: u64 -> nat)
    requires TreeSound(m)
    ensures TreeSound(CleanupIdle(m, now, clock))
  {
    ForgetSound(m, Expired(m, clock));
    var n := CleanupIdle(m, now, clock);
    assert forall x :: Allocated(m, x) ==> Allocated(n, x);
  }

  lemma OthersKeepTree(m: Mgr, op: ManagerOp)
    requires !op.CreateWithPriority? && !op.Prioritize? && !op.Cleanup?
    ensures Step(m, op).tree == m.tree
  {
  }

  lemma SameTreeSound(m: Mgr, n: Mgr)
    requires TreeSound(m) && n.tree == m.tree
    requires m.nextClientId <= n.nextClientId && m.maxRemoteId <= n.maxRemoteId
    ensures TreeSound(n)
  {
    assert forall id :: Allocated(m, id) ==> Allocated(n, id);
  }

  lemma StepSound(m: Mgr, op: ManagerOp)
    requires ClientIds(m) && TreeSound(m) && m.nextClientId + 4 < TWO_TO_64
    requires op.Prioritize? ==> Allocated(m, op.id)
    ensures TreeSound(Step(m, op))
  {
    match op
    case CreateWithPriority(t, s, now) => CreateSound(m, t, s, now);
    case Prioritize(id, s) => KnownPrioritySound(m, id, s);
    case Cleanup(now, clock) => CleanupSound(m, now, clock);
    case _ =>
      OthersKeepTree(m, op);
      StepIds(m, op);
      SameTreeSound(m, Step(m, op));
  }

  /** Priorities are changed only for streams that were created or accepted before. */
  ghost predicate PrioritizesKnown(m: Mgr, ops: seq<ManagerOp>) {
    forall k :: 0 <= k < |ops| && ops[k].Prioritize? ==> Allocated(Run(m, ops[..k]), ops[k].id)
  }

  lemma PrefixKnown(m: Mgr, ops: seq<ManagerOp>)
    requires PrioritizesKnown(m, ops) && ops != []
    ensures PrioritizesKnown(m, ops[..|ops| - 1])
  {
    var front := ops[..|ops| - 1];
    forall k | 0 <= k < |front| && front[k].Prioritize?
      ensures Allocated(Run(m, front[..k]), front[k].id)
    {
      assert front[..k] == ops[..k];
    }
  }

  /** In every run of a client that changes priorities of known streams only, each stream has at most one parent. */
  lemma {:induction false} OneParent(config: StreamConfig, now: nat, ops: seq<ManagerOp>)
    requires 4 * |ops| + 4 < TWO_TO_64 && PrioritizesKnown(NewManager(config, true, now), ops)
    ensures TreeSound(Run(NewManager(config, true, now), ops))
  {
    var m := NewManager(config, true, now);
    if ops == [] {
    } else {
      var front, last := ops[..|ops| - 1], ops[|ops| - 1];
      PrefixKnown(m, ops);
      OneParent(config, now, front);
      FreshIds(config, now, front);
      StepSound(Run(m, front), last);
    }
  }

  // ---------- exactly when a stream gets a second parent ----------

  /** The step creates a stream under a parent although its identifier is already somebody's child. */
  ghost predicate Clashes(m: Mgr, op: ManagerOp) {
    && op.CreateWithPriority? && op.schedule.dependentOn.Some?
    && |m.streams| < m.maxConcurrent && ClientType(op.t) == m.isClient
    && IsChild(m.tree, NextId(m))
  }

  /** The identifier that the next creation takes. */
  function NextId(m: Mgr): u64 {
    if m.isClient then m.nextClientId else m.nextServerId
  }

  lemma CreateTree(m: Mgr, t: StreamType, s: Schedule, now: nat)
    ensures CreateStreamWithPriority(m, t, s, now).0.tree
         == if |m.streams| < m.maxConcurrent && ClientType(t) == m.isClient
            then AddChild(m.tree, s.dependentOn, NextId(m)) else m.tree
  {
  }

  lemma CreateSingleParentIff(m: Mgr, t: StreamType, s: Schedule, now: nat)
    requires SingleParent(m.tree)
    ensures SingleParent(CreateStreamWithPriority(m, t, s, now).0.tree) <==> !Clashes(m, CreateWithPriority(t, s, now))
  {
    CreateTree(m, t, s, now);
    if s.dependentOn.Some? {
      AddChildIff(m.tree, s.dependentOn.value, NextId(m));
    }
  }

  /** Of all steps of either role only such a creation gives a stream a second parent. */
  lemma StepSingleParentIff(m: Mgr, op: ManagerOp)
    requires SingleParent(m.tree)
    ensures SingleParent(Step(m, op).tree) <==> !Clashes(m, op)
  {
    match op
    case CreateWithPriority(t, s, now) => CreateSingleParentIff(m, t, s, now);
    case Prioritize(id, s) => PrioritizeSound(m, id, s);
    case Cleanup(now, clock) => ForgetSound(m, Expired(m, clock));
    case _ => OthersKeepTree(m, op);
  }

  ghost predicate AlwaysSingleParent(m: Mgr, ops: seq<ManagerOp>) {
    SingleParent(Run(m, ops).tree) && (ops == [] || AlwaysSingleParent(m, ops[..|ops| - 1]))
  }

  ghost predicate NeverClashes(m: Mgr, ops: seq<ManagerOp>) {
    ops == [] || (NeverClashes(m, ops[..|ops| - 1]) && !Clashes(Run(m, ops[..|ops| - 1]), ops[|ops| - 1]))
  }

  lemma RunAppend(m: Mgr, front: seq<ManagerOp>, last: ManagerOp)
    ensures Run(m, front + [last]) == Step(Run(m, front), last)
  {
    assert (front + [last])[..|front|] == front;
  }

  /** So each stream has at most one parent throughout a run exactly when no step of the run clashes. */
  lemma {:induction false} RunSingleParentIff(m: Mgr, ops: seq<ManagerOp>)
    requires SingleParent(m.tree)
    ensures AlwaysSingleParent(m, ops) <==> NeverClashes(m, ops)
  {
    if ops == [] {
    } else {
      var front, last := ops[..|ops| - 1], ops[|ops| - 1];
      RunSingleParentIff(m, front);
      if AlwaysSingleParent(m, front) {
        StepSingleParentIff(Run(m, front), last);
      }
    }
  }

  /** Such a run of a client: a priority set for id 0 before it exists leaves it with two parents. */
  lemma UnknownPriorityBreaksIt(config: StreamConfig)
    ensures var s := Schedule(Normal, 16, Some(8), false);
            var m := Run(NewManager(config, true, 0),
                         [Prioritize(0, s), CreateWithPriority(ClientBidirectional, s.(dependentOn := Some(4)), 0)]);
            !SingleParent(m.tree)
  {
    var s := Schedule(Normal, 16, Some(8), false);
    var ops := [Prioritize(0, s), CreateWithPriority(ClientBidirectional, s.(dependentOn := Some(4)), 0)];
    var start := NewManager(config, true, 0);
    assert ops[..1] == [ops[0]] && ops[..1][..0] == [];
    var one := Step(start, ops[0]);
    assert Run(start, ops[..1]) == one;
    assert DropChildren(start.tree, {0}) == start.tree;
    assert one.tree[8] == [0];
    var two := Step(one, ops[1]);
    assert Run(start, ops) == two;
    assert two.tree[8][0] == 0 && two.tree[4][0] == 0;
  }

  // ---------- cleanup ----------

  /** A sweep removes the expired streams from every table and keeps everything else as it was. */
  lemma CleanupForgetsEverywhere(m: Mgr, now: nat, clock: u64 -> nat)
    requires SweepDue(m, now)
    ensures var n, gone := CleanupIdle(m, now, clock), Expired(m, clock);
            && n.streams == m.streams - gone
            && n.flow.send == m.flow.send - gone && n.flow.recv == m.flow.recv - gone
            && n.queue == Filter(m.queue, EntryStays(gone))
            && (forall e :: e in n.queue <==> e in m.queue && e.id !in gone)
            && n.tree.Keys == m.tree.Keys - gone
            && (forall p :: p in n.tree ==> n.tree[p] == Filter(m.tree[p], ChildStays(gone)))
            && (forall p, c :: p in n.tree ==> (c in n.tree[p] <==> c in m.tree[p] && c !in gone))
            && (forall id :: id in gone ==> !IsChild(n.tree, id))
  {
    var n, gone := CleanupIdle(m, now, clock), Expired(m, clock);
    Scheduling.FilterMembers(m.queue, EntryStays(gone));
    forall p | p in n.tree
      ensures forall c :: c in n.tree[p] <==> c in m.tree[p] && c !in gone
    {
      Scheduling.FilterMembers(m.tree[p], ChildStays(gone));
    }
  }
}
