/** Servers: which streams of a client they accept, and when they overwrite a record. */
module ServerRuns {
  import opened Bytes
  import opened Manager
  import opened ManagerRuns
  import Streams

  // ---------- a client and a server ----------

  /** No server ever accepts a client's first stream. */
  lemma FirstStreamNeverAccepted(config: Streams.StreamConfig, now: nat, server: Mgr, t: Streams.StreamType)
    requires CreateStream(NewManager(config, true, now), t, now).1.Ok? && !server.isClient
    ensures !CanAccept(server, CreateStream(NewManager(config, true, now), t, now).1.value)
  {
  }

  /** And no client accepts any stream that a server creates: its identifier says that a client opened it. */
  lemma ClientNeverAccepts(client: Mgr, server: Mgr, t: Streams.StreamType, now: nat)
    requires RoleCounters(server) && client.isClient && !server.isClient
    requires CreateStream(server, t, now).1.Ok?
    ensures !CanAccept(client, CreateStream(server, t, now).1.value)
  {
  }

  ghost predicate Arrivals(ops: seq<ManagerOp>) {
    forall op :: op in ops ==> op.Accept?
  }

  /** The largest identifier of the client's kind that has arrived. */
  ghost predicate LargestArrived(largest: u64, ops: seq<ManagerOp>)
    requires Arrivals(ops)
  {
    && (forall j :: 0 <= j < |ops| && ops[j].id % 2 == 0 ==> ops[j].id <= largest)
    && (largest == 0 || exists j :: 0 <= j < |ops| && ops[j].id % 2 == 0 && ops[j].id == largest)
  }

  function Server(config: Streams.StreamConfig, now: nat, max: u64): Mgr {
    NewManager(config, false, now).(maxConcurrent := max)
  }

  lemma {:induction false} ArrivalsTracked(config: Streams.StreamConfig, now: nat, max: u64, ops: seq<ManagerOp>)
    requires Arrivals(ops) && |ops| <= max
    ensures var m := Run(Server(config, now, max), ops);
            !m.isClient && m.maxConcurrent == max && |m.streams| <= |ops| && LargestArrived(m.maxRemoteId, ops)
  {
    if ops == [] {
    } else {
      var front, last := ops[..|ops| - 1], ops[|ops| - 1];
      assert last in ops;
      ArrivalsTracked(config, now, max, front);
      OneArrival(Run(Server(config, now, max), front), last.id, last.now);
      assert forall j :: 0 <= j < |front| ==> ops[j] == front[j];
    }
  }

  lemma OneArrival(m: Mgr, id: u64, now: nat)
    requires !m.isClient && |m.streams| < m.maxConcurrent
    ensures Accepted(m, Accept(id, now)) != [] <==> id % 2 == 0 && id > m.maxRemoteId
    ensures var n := Step(m, Accept(id, now));
            && !n.isClient && n.maxConcurrent == m.maxConcurrent && |n.streams| <= |m.streams| + 1
            && n.maxRemoteId == if id % 2 == 0 && id > m.maxRemoteId then id else m.maxRemoteId
  {
    RemoteIdsAreOdd(id);
    if CanAccept(m, id) {
      var s := Streams.New(id, m.config, now);
      var after := m.streams[s.id := s];
      assert after.Keys == m.streams.Keys + {s.id};
      assert |after| == |after.Keys| && |m.streams| == |m.streams.Keys|;
    }
  }

  /**
    Streams of a client that arrive at a server with room for all of them, in any order and number: exactly those
    above 0 and above every one that arrived before are accepted.
   */
  lemma RecordsAccepted(config: Streams.StreamConfig, now: nat, max: u64, ops: seq<ManagerOp>, k: nat)
    requires Arrivals(ops) && |ops| <= max && k < |ops|
    ensures ops[k] in ops && (Accepted(Run(Server(config, now, max), ops[..k]), ops[k]) != [] <==>
              && ops[k].id % 2 == 0 && ops[k].id > 0
              && forall j :: 0 <= j < k && ops[..k][j].id % 2 == 0 ==> ops[..k][j].id < ops[k].id)
  {
    var before := ops[..k];
    assert forall j :: 0 <= j < k ==> before[j] == ops[j] && ops[j] in ops;
    ArrivalsTracked(config, now, max, before);
    OneArrival(Run(Server(config, now, max), before), ops[k].id, ops[k].now);
  }

  // ---------- overwriting ----------

  /** A step puts a stream where the record of a live one was. */
  predicate Overwrites(m: Mgr, op: ManagerOp) {
    exists id :: id in Inserted(m, op) && id in m.streams
  }

  /** The counter that the role counts with. */
  function Counter(m: Mgr): u64 {
    if m.isClient then m.nextClientId else m.nextServerId
  }

  /** What one step does to the counters of a manager of either role. */
  ghost predicate RoleStep(m: Mgr, n: Mgr, created: seq<u64>, accepted: seq<u64>) {
    && n.isClient == m.isClient && |created| + |accepted| <= 1
    && Counter(n) == Counter(m) + 4 * |created| && (created != [] ==> created[0] == Counter(m))
    && (accepted == [] ==> n.maxRemoteId == m.maxRemoteId)
    && (accepted != [] ==> m.maxRemoteId < accepted[0] == n.maxRemoteId)
  }

  lemma CreateRoleStep(m: Mgr, op: ManagerOp)
    requires Counter(m) + 4 < TWO_TO_64 && (op.Create? || op.CreateWithPriority?)
    ensures RoleStep(m, Step(m, op), Created(m, op), Accepted(m, op))
  {
  }

  lemma AcceptRoleStep(m: Mgr, op: ManagerOp)
    requires op.Accept?
    ensures RoleStep(m, Step(m, op), Created(m, op), Accepted(m, op))
  {
  }

  lemma OtherRoleStep(m: Mgr, op: ManagerOp)
    requires !op.Create? && !op.CreateWithPriority? && !op.Accept?
    ensures RoleStep(m, Step(m, op), Created(m, op), Accepted(m, op))
  {
  }

  lemma AnyRoleStep(m: Mgr, op: ManagerOp)
    requires Counter(m) + 4 < TWO_TO_64
    ensures RoleStep(m, Step(m, op), Created(m, op), Accepted(m, op))
  {
    match op
    case Create(_, _) => CreateRoleStep(m, op);
    case CreateWithPriority(_, _, _) => CreateRoleStep(m, op);
    case Accept(_, _) => AcceptRoleStep(m, op);
    case _ => OtherRoleStep(m, op);
  }

  predicate NewServer(m: Mgr) {
    !m.isClient && m.nextServerId == 0 && m.maxRemoteId == 0 && m.streams == map[]
  }

  lemma NewServerIsNew(config: Streams.StreamConfig, now: nat)
    ensures NewServer(NewManager(config, false, now))
  {
  }

  /** The counters after a server run, and the identifiers created and accepted in it. */
  ghost predicate Counts(m: Mgr, created: seq<u64>, accepted: seq<u64>) {
    && !m.isClient && m.nextServerId == 4 * |created|
    && (forall i :: 0 <= i < |created| ==> created[i] == 4 * i)
    && (forall i :: 0 <= i < |accepted| ==> 0 < accepted[i] <= m.maxRemoteId)
  }

  lemma ExtendCounts(m: Mgr, n: Mgr, created: seq<u64>, accepted: seq<u64>, more: seq<u64>, taken: seq<u64>)
    requires Counts(m, created, accepted) && RoleStep(m, n, more, taken)
    ensures Counts(n, created + more, accepted + taken)
  {
  }

  lemma {:induction false} ServerCounts(start: Mgr, ops: seq<ManagerOp>)
    requires NewServer(start) && 4 * |ops| + 4 < TWO_TO_64
    ensures Counts(Run(start, ops), CreatedIds(start, ops), AcceptedIds(start, ops)) && |CreatedIds(start, ops)| <= |ops|
  {
    if ops == [] {
    } else {
      var front, last := ops[..|ops| - 1], ops[|ops| - 1];
      var m := Run(start, front);
      ServerCounts(start, front);
      AnyRoleStep(m, last);
      ExtendCounts(m, Run(start, ops), CreatedIds(start, front), AcceptedIds(start, front),
                   Created(m, last), Accepted(m, last));
    }
  }

  // ---------- runs without removals ----------

  ghost predicate NoRemovals(ops: seq<ManagerOp>) {
    forall op :: op in ops ==> !op.PurgeClosed? && !op.Cleanup?
  }

  predicate Disjoint(a: seq<u64>, b: seq<u64>) {
    forall x :: x in a ==> x !in b
  }

  /** No step of the run overwrites a record. */
  predicate NeverOverwrites(m: Mgr, ops: seq<ManagerOp>) {
    ops == [] || (NeverOverwrites(m, ops[..|ops| - 1]) && !Overwrites(Run(m, ops[..|ops| - 1]), ops[|ops| - 1]))
  }

  lemma {:induction false} AllStay(m: Mgr, ops: seq<ManagerOp>, id: u64)
    requires m.streams == map[] && NoRemovals(ops)
    ensures id in Run(m, ops).streams <==> id in CreatedIds(m, ops) || id in AcceptedIds(m, ops)
  {
    if ops == [] {
    } else {
      var front, last := ops[..|ops| - 1], ops[|ops| - 1];
      assert last in ops;
      AllStay(m, front, id);
      StepKeys(Run(m, front), last, id);
    }
  }

  lemma DisjointExtend(created: seq<u64>, accepted: seq<u64>, more: seq<u64>, taken: seq<u64>)
    requires |more| + |taken| <= 1
    ensures Disjoint(created + more, accepted + taken) <==>
            && Disjoint(created, accepted)
            && (more != [] ==> more[0] !in accepted) && (taken != [] ==> taken[0] !in created)
  {
    if more != [] {
      assert more[0] in created + more;
    }
    if taken != [] {
      assert taken[0] in accepted + taken;
    }
    assert forall x :: x in created ==> x in created + more;
    assert forall x :: x in accepted ==> x in accepted + taken;
  }

  /**
    A server that removes nothing overwrites no record throughout a run exactly when no identifier was both
    created and accepted in it.
   */
  lemma {:induction false} NeverOverwritesIff(start: Mgr, ops: seq<ManagerOp>)
    requires NewServer(start) && 4 * |ops| + 4 < TWO_TO_64 && NoRemovals(ops)
    ensures NeverOverwrites(start, ops) <==> Disjoint(CreatedIds(start, ops), AcceptedIds(start, ops))
  {
    if ops == [] {
    } else {
      var front, last := ops[..|ops| - 1], ops[|ops| - 1];
      var m := Run(start, front);
      NeverOverwritesIff(start, front);
      ServerCounts(start, front);
      AnyRoleStep(m, last);
      StepOverwritesIff(start, front, last);
      DisjointExtend(CreatedIds(start, front), AcceptedIds(start, front), Created(m, last), Accepted(m, last));
    }
  }

  lemma StepOverwritesIff(m: Mgr, front: seq<ManagerOp>, last: ManagerOp)
    requires m.streams == map[] && NoRemovals(front)
    requires Counts(Run(m, front), CreatedIds(m, front), AcceptedIds(m, front))
    requires RoleStep(Run(m, front), Step(Run(m, front), last),
                      Created(Run(m, front), last), Accepted(Run(m, front), last))
    ensures var created, taken := Created(Run(m, front), last), Accepted(Run(m, front), last);
            Overwrites(Run(m, front), last) <==>
            (created != [] && created[0] in AcceptedIds(m, front)) || (taken != [] && taken[0] in CreatedIds(m, front))
  {
    var created, taken := Created(Run(m, front), last), Accepted(Run(m, front), last);
    if created != [] {
      AllStay(m, front, created[0]);
      assert Inserted(Run(m, front), last) == [created[0]];
      assert created[0] !in CreatedIds(m, front);
    }
    if taken != [] {
      AllStay(m, front, taken[0]);
      assert Inserted(Run(m, front), last) == [taken[0]];
      assert taken[0] !in AcceptedIds(m, front);
    }
  }

  /** It happens: accept the client's stream 4, then create two. */
  lemma ServerOverwrites(config: Streams.StreamConfig)
    ensures var ops := [Accept(4, 0), Create(Streams.ServerBidirectional, 0)];
            Overwrites(Run(NewManager(config, false, 0), ops), Create(Streams.ServerBidirectional, 0))
  {
    var start := NewManager(config, false, 0);
    var ops := [Accept(4, 0), Create(Streams.ServerBidirectional, 0)];
    assert ops[..1] == [ops[0]] && ops[..1][..0] == [];
    var one := Step(start, ops[0]);
    assert Run(start, ops[..1]) == one;
    assert one.streams.Keys == {4};
    var two := Step(one, ops[1]);
    assert Run(start, ops) == two;
    assert two.streams.Keys == {0, 4} && two.nextServerId == 4;
    assert Inserted(two, Create(Streams.ServerBidirectional, 0)) == [4];
  }
}
