/** What each operation of the stream manager does to the streams, and what the operations do together. */
module ManagerEffects {
  import opened Bytes
  import opened StableSort
  import opened Manager
  import opened ManagerRuns
  import opened Scheduling
  import Streams
  import StreamLife

  // ---------- creating and accepting ----------

  /** Section 2.1 of RFC 9000: the low bit of an identifier says who opened the stream, the next one its directions. */
  lemma IdentifierBits(id: u64)
    ensures Streams.TypeOfId(id).ClientBidirectional? || Streams.TypeOfId(id).ClientUnidirectional? <==> id % 2 == 0
    ensures Streams.TypeOfId(id).ClientBidirectional? || Streams.TypeOfId(id).ServerBidirectional? <==> id / 2 % 2 == 0
  {
  }

  /** A record without a history: full windows, nothing sent or received. */
  predicate Unused(s: Streams.Stream, id: u64, m: Mgr, now: nat) {
    && s.id == id && s.sendWindow == s.recvWindow == s.initialWindowSize == m.config.initialWindowSize
    && !s.headersSent && !s.headersReceived && !s.endStreamSent && !s.endStreamReceived && !s.reset
    && s.bytesSent == 0 && s.lastActivity == now && s.priority == m.config.priority
  }

  /** The streams and their windows after one was recorded; stream 0 gets no windows. */
  ghost predicate Recorded(m: Mgr, n: Mgr, id: u64) {
    && id in n.streams && n.streams.Keys == m.streams.Keys + {id}
    && (forall x :: x in m.streams && x != id ==> n.streams[x] == m.streams[x])
    && n.flow == (if id == 0 then m.flow
                  else m.flow.(send := m.flow.send[id := m.flow.initialStream],
                               recv := m.flow.recv[id := m.flow.initialStream]))
    && n.queue == m.queue && n.tree == m.tree && n.maxConcurrent == m.maxConcurrent && n.isClient == m.isClient
    && n.idleTimeout == m.idleTimeout && n.lastCleanup == m.lastCleanup && n.config == m.config
  }

  function Own(m: Mgr): u64 {
    if m.isClient then m.nextClientId else m.nextServerId
  }

  function Foreign(m: Mgr): u64 {
    if m.isClient then m.nextServerId else m.nextClientId
  }

  predicate OwnType(m: Mgr, t: Streams.StreamType) {
    m.isClient <==> t.ClientBidirectional? || t.ClientUnidirectional?
  }

  /**
    A stream is created exactly below the limit and in the caller's own role, the limit being looked at first. It is
    open and unused, under the next identifier.
   */
  lemma CreateIff(m: Mgr, t: Streams.StreamType, now: nat)
    ensures var (n, r) := CreateStream(m, t, now);
            && (r.Ok? <==> |m.streams| < m.maxConcurrent && OwnType(m, t))
            && (r.Err? ==> n == m && r == Err(if |m.streams| >= m.maxConcurrent then LimitExceeded else WrongRole))
            && (r.Ok? ==>
                  var id := r.value;
                  && id == Own(m) && Own(n) == (id + 4) % 0x1_0000_0000_0000_0000 && Foreign(n) == Foreign(m)
                  && Recorded(m, n, id) && Unused(n.streams[id], id, m, now) && n.maxRemoteId == m.maxRemoteId
                  && n.streams[id].state == Streams.Open)
  {
    var (n, r) := CreateStream(m, t, now);
    if r.Ok? {
      var next := Advance(r.value);
      var counted := if ClientType(t) then m.(nextClientId := next) else m.(nextServerId := next);
      RecordIs(counted, Streams.New(r.value, m.config, now).(state := Streams.Open));
    }
  }

  lemma RecordIs(m: Mgr, s: Streams.Stream)
    ensures var n := Record(m, s);
            && Recorded(m, n, s.id) && n.streams[s.id] == s && n.maxRemoteId == m.maxRemoteId
            && n.nextClientId == m.nextClientId && n.nextServerId == m.nextServerId
  {
  }

  /** A created stream can send its initial window and not a byte more. */
  lemma CreatedCanSend(m: Mgr, t: Streams.StreamType, now: nat, length: nat, end: bool, later: nat)
    requires CreateStream(m, t, now).1.Ok?
    ensures var (n, r) := CreateStream(m, t, now);
            r.value in n.streams && (Streams.SendData(n.streams[r.value], length, end, later).1.Ok? <==>
                                       length <= m.config.initialWindowSize)
  {
    var (n, r) := CreateStream(m, t, now);
    StreamLife.SucceedsIff(n.streams[r.value], Streams.PutData(length, end, later));
  }

  /**
    A stream is accepted exactly if its identifier is the other side's, above every one accepted before, and within
    the limit, for clients and servers. It is idle: nothing can be sent on it before it is opened.
   */
  lemma AcceptIff(m: Mgr, id: u64, now: nat)
    ensures var (n, r) := AcceptStream(m, id, now);
            && (r.Ok? <==>
                  id % 2 == (if m.isClient then 1 else 0) && id > m.maxRemoteId && |m.streams| < m.maxConcurrent)
            && (r.Err? ==> n == m && r == Err(NotAcceptable))
            && (r.Ok? ==>
                  && Recorded(m, n, id) && Unused(n.streams[id], id, m, now) && n.maxRemoteId == id
                  && n.nextClientId == m.nextClientId && n.nextServerId == m.nextServerId
                  && n.streams[id].state == Streams.Idle && StreamLife.Silent(n.streams[id]))
  {
    RemoteIdsAreOdd(id);
    if AcceptStream(m, id, now).1.Ok? {
      RecordIs(m, Streams.New(id, m.config, now));
      NotSending(AcceptStream(m, id, now).0.streams[id]);
    }
  }

  lemma NotSending(s: Streams.Stream)
    requires !StreamLife.LocalOpen(s.state)
    ensures StreamLife.Silent(s)
  {
    forall op: Streams.StreamOp | op.FinishSending? || op.PutHeaders? || op.PutData?
      ensures !StreamLife.Succeeds(s, op)
    {
      StreamLife.SucceedsIff(s, op);
    }
  }

  /** After `k` creations of a new manager in its own role. */
  ghost predicate Counted(m: Mgr, k: nat) {
    && |m.streams| == k && Own(m) == 4 * k && m.maxConcurrent == 100
    && forall id :: id in m.streams ==> id < 4 * k
  }

  lemma OneMore(before: map<u64, Streams.Stream>, after: map<u64, Streams.Stream>, id: u64)
    requires id !in before && after.Keys == before.Keys + {id}
    ensures |after| == |before| + 1
  {
    assert |after| == |after.Keys| && |before| == |before.Keys|;
  }

  lemma CountedNext(m: Mgr, n: Mgr, k: nat)
    requires Counted(m, k) && k < 100 && n.streams.Keys == m.streams.Keys + {(4 * k) as u64}
    requires Own(n) == 4 * k + 4 && n.maxConcurrent == m.maxConcurrent
    ensures Counted(n, k + 1)
  {
    OneMore(m.streams, n.streams, 4 * k);
  }

  lemma CreateKeys(m: Mgr, t: Streams.StreamType, now: nat)
    requires |m.streams| < m.maxConcurrent && OwnType(m, t)
    ensures var (n, r) := CreateStream(m, t, now);
            && r == Ok(Own(m)) && n.streams.Keys == m.streams.Keys + {Own(m)} && Own(n) == (Own(m) + 4) % TWO_TO_64
            && n.maxConcurrent == m.maxConcurrent && n.isClient == m.isClient
  {
    CreateIff(m, t, now);
  }

  lemma CreateCounted(m: Mgr, k: nat, t: Streams.StreamType, now: nat)
    requires Counted(m, k) && k < 100 && OwnType(m, t)
    ensures var (n, r) := CreateStream(m, t, now);
            Counted(n, k + 1) && r == Ok(4 * k) && n.isClient == m.isClient
  {
    CreateKeys(m, t, now);
    CountedNext(m, CreateStream(m, t, now).0, k);
  }

  /** A new manager of either role hands out 0, 4, 8 and so on up to 396, and then no more until streams are removed. */
  lemma {:induction false} HundredStreams(
    config: Streams.StreamConfig, isClient: bool, t: Streams.StreamType, ops: seq<ManagerOp>, now: nat)
    requires OwnType(NewManager(config, isClient, now), t)
    requires forall op :: op in ops ==> op == Create(t, now)
    ensures var m := Run(NewManager(config, isClient, now), ops);
            && Counted(m, if |ops| < 100 then |ops| else 100) && m.isClient == isClient
            && CreateStream(m, t, now).1 == if |ops| < 100 then Ok(4 * |ops|) else Err(LimitExceeded)
  {
    var m := Run(NewManager(config, isClient, now), ops);
    if ops == [] {
    } else {
      var front := ops[..|ops| - 1];
      assert ops[|ops| - 1] in ops && forall op :: op in front ==> op in ops;
      HundredStreams(config, isClient, t, front, now);
      if |front| < 100 {
        CreateCounted(Run(NewManager(config, isClient, now), front), |front|, t, now);
      }
    }
    if |ops| < 100 {
      CreateCounted(m, |ops|, t, now);
    }
  }

  lemma ForeignStep(m: Mgr, op: ManagerOp)
    ensures Foreign(Step(m, op)) == Foreign(m) && Step(m, op).isClient == m.isClient
  {
    match op
    case Create(t, now) => CreateIff(m, t, now);
    case CreateWithPriority(t, _, now) => CreateIff(m, t, now);
    case _ =>
  }

  /** The counter of the other role starts at 1 and is never used. */
  lemma {:induction false} ForeignIsOne(
    config: Streams.StreamConfig, isClient: bool, now: nat, ops: seq<ManagerOp>)
    ensures var m := Run(NewManager(config, isClient, now), ops); m.isClient == isClient && Foreign(m) == 1
  {
    if ops == [] {
    } else {
      ForeignIsOne(config, isClient, now, ops[..|ops| - 1]);
      ForeignStep(Run(NewManager(config, isClient, now), ops[..|ops| - 1]), ops[|ops| - 1]);
    }
  }

  /** The controller's sizes are those of the configuration. */
  predicate Configured(m: Mgr, config: Streams.StreamConfig) {
    && m.config == config && m.flow.initialConn == m.flow.initialStream == config.initialWindowSize
    && m.flow.connSend == m.flow.connRecv == config.initialWindowSize
  }

  lemma ConfiguredStep(m: Mgr, op: ManagerOp, config: Streams.StreamConfig)
    requires Configured(m, config)
    ensures Configured(Step(m, op), config)
  {
    match op
    case Create(t, now) => CreateIff(m, t, now);
    case CreateWithPriority(t, _, now) => CreateIff(m, t, now);
    case Accept(id, now) => AcceptIff(m, id, now);
    case _ =>
  }

  /** In every run of either role streams are created and accepted with the window size of the configuration. */
  lemma {:induction false} AlwaysConfigured(
    config: Streams.StreamConfig, isClient: bool, now: nat, ops: seq<ManagerOp>)
    ensures Configured(Run(NewManager(config, isClient, now), ops), config)
  {
    if ops == [] {
    } else {
      AlwaysConfigured(config, isClient, now, ops[..|ops| - 1]);
      ConfiguredStep(Run(NewManager(config, isClient, now), ops[..|ops| - 1]), ops[|ops| - 1], config);
    }
  }

  // ---------- priorities ----------

  /** The entry says what the schedule says. */
  predicate Follows(e: Entry, id: u64, s: Schedule) {
    && e.id == id && e.priority == s.priority && e.weight == s.weight
    && e.dependentOn == s.dependentOn && e.exclusive == s.exclusive
  }

  predicate FirstOf(queue: seq<Entry>, id: u64, i: nat) {
    i < |queue| && queue[i].id == id && forall j :: 0 <= j < i ==> queue[j].id != id
  }

  lemma {:induction false} ReprioritizeIs(queue: seq<Entry>, id: u64, s: Schedule)
    ensures |Reprioritize(queue, id, s)| == |queue|
    ensures forall i :: 0 <= i < |queue| ==>
              if FirstOf(queue, id, i) then Follows(Reprioritize(queue, id, s)[i], id, s)
              else Reprioritize(queue, id, s)[i] == queue[i]
  {
    if queue == [] {
    } else if queue[0].id == id {
      assert FirstOf(queue, id, 0);
    } else {
      ReprioritizeIs(queue[1..], id, s);
      forall i | 0 < i < |queue|
        ensures FirstOf(queue, id, i) <==> FirstOf(queue[1..], id, i - 1)
      {
        assert forall j :: 0 < j < i ==> queue[j] == queue[1..][j - 1];
      }
    }
  }

  lemma {:induction false} DropIs(children: seq<u64>, id: u64)
    ensures id !in Drop(children, {id})
    ensures forall c :: c != id ==> (c in Drop(children, {id}) <==> c in children)
    ensures multiset(Drop(children, {id})) == multiset(children)[id := 0]
  {
    if children == [] {
    } else {
      DropIs(children[1..], id);
      assert children == [children[0]] + children[1..];
    }
  }

  /**
    After a priority change the stream's first entry has the new priority, weight and dependency, and every other
    entry is as and where it was. The stream is a child of its new parent alone, once and last; every other stream is
    a child where it was and as often.
   */
  lemma PriorityTakesEffect(m: Mgr, id: u64, s: Schedule)
    ensures var n := UpdatePriority(m, id, s);
            && |n.queue| == |m.queue|
            && (forall i :: 0 <= i < |m.queue| ==>
                  if FirstOf(m.queue, id, i) then Follows(n.queue[i], id, s) else n.queue[i] == m.queue[i])
            && (forall p: u64 ::
                  && multiset(Children(n.tree, p))
                     == multiset(Children(m.tree, p))[id := if s.dependentOn == Some(p) then 1 else 0]
                  && (s.dependentOn == Some(p) ==> Children(n.tree, p) != [] && Last(Children(n.tree, p)) == id))
            && n == m.(queue := n.queue, tree := n.tree)
  {
    var n := UpdatePriority(m, id, s);
    ReprioritizeIs(m.queue, id, s);
    forall p: u64
      ensures multiset(Children(n.tree, p))
           == multiset(Children(m.tree, p))[id := if s.dependentOn == Some(p) then 1 else 0]
      ensures s.dependentOn == Some(p) ==> Children(n.tree, p) != [] && Last(Children(n.tree, p)) == id
    {
      ChildrenAfter(m.tree, p, id, s.dependentOn);
    }
  }

  function Last(children: seq<u64>): u64
    requires children != []
  {
    children[|children| - 1]
  }

  lemma ChildrenAfter(tree: Tree, p: u64, id: u64, parent: Option<u64>)
    ensures Children(AddChild(DropChildren(tree, {id}), parent, id), p)
         == Drop(Children(tree, p), {id}) + if parent == Some(p) then [id] else []
    ensures multiset(Children(AddChild(DropChildren(tree, {id}), parent, id), p))
         == multiset(Children(tree, p))[id := if parent == Some(p) then 1 else 0]
  {
    DropIs(Children(tree, p), id);
    assert Drop([], {id}) == [];
  }

  /** A stream created with a priority is queued last with that priority, and becomes its parent's last child. */
  lemma CreatedWithPriority(m: Mgr, t: Streams.StreamType, s: Schedule, now: nat)
    ensures var (n, r) := CreateStreamWithPriority(m, t, s, now);
            var (c, q) := CreateStream(m, t, now);
            && r == q && (r.Err? ==> n == m)
            && (r.Ok? ==>
                  && n == c.(queue := n.queue, tree := n.tree)
                  && |n.queue| == |m.queue| + 1 && n.queue[..|m.queue|] == m.queue
                  && Follows(n.queue[|m.queue|], r.value, s)
                  && forall p: u64 :: Children(n.tree, p)
                              == Children(m.tree, p) + if s.dependentOn == Some(p) then [r.value] else [])
  {
    CreateIff(m, t, now);
  }

  /** The stream has one entry, no other entry is urgent, and it could be served. */
  ghost predicate Rival(m: Mgr, id: u64) {
    && (exists i: nat :: FirstOf(m.queue, id, i))
    && (forall i, j :: 0 <= i < j < |m.queue| && m.queue[i].id == id ==> m.queue[j].id != id)
    && (forall i :: 0 <= i < |m.queue| && m.queue[i].id != id ==> !m.queue[i].priority.Urgent?)
    && id in m.streams && m.streams[id].sendWindow > 0 && StreamLife.LocalOpen(m.streams[id].state)
  }

  /** The only stream made urgent is the next one served. */
  lemma UrgentIsServedFirst(m: Mgr, id: u64, s: Schedule)
    requires Rival(m, id) && s.priority.Urgent?
    ensures var n := UpdatePriority(m, id, s);
            SendableStreams(n) != [] && SendableStreams(n)[0] == id
  {
    var n := UpdatePriority(m, id, s);
    PriorityTakesEffect(m, id, s);
    ServedIff(n, id);
    var i: nat :| FirstOf(m.queue, id, i);
    assert n.queue[i] in n.queue && n.queue[i].id == id;
    ScheduleIsStableSort(n);
    assert id in SendableStreams(n);
    var k :| 0 <= k < |SendableStreams(n)| && SendableStreams(n)[k] == id;
    var ready := ReadyEntries(n);
    assert ready[k] in multiset(ready) && ready[0] in multiset(ready);
    assert ready[k] in Eligible(n) && ready[0] in Eligible(n);
    EligibleIff(n, ready[k]);
    EligibleIff(n, ready[0]);
    OnlyUrgent(m, n, id, s, ready[k]);
    OnlyUrgent(m, n, id, s, ready[0]);
  }

  lemma OnlyUrgent(m: Mgr, n: Mgr, id: u64, s: Schedule, e: Entry)
    requires Rival(m, id) && s.priority.Urgent? && n == UpdatePriority(m, id, s) && e in n.queue
    ensures e.priority.Urgent? <==> e.id == id
  {
    PriorityTakesEffect(m, id, s);
    var i :| 0 <= i < |n.queue| && n.queue[i] == e;
    if m.queue[i].id == id {
      assert FirstOf(m.queue, id, i);
    }
  }

  // ---------- closing and sweeping ----------

  /** Closing is possible exactly for recorded streams; a purge then takes that record and those of closed streams. */
  lemma CloseThenPurge(m: Mgr, id: u64)
    ensures var (n, r) := CloseStream(m, id);
            && (r.Ok? <==> id in m.streams) && (r.Err? ==> n == m && r == Err(NotFound))
            && (r.Ok? ==>
                  && n.streams.Keys == m.streams.Keys && n.streams[id] == m.streams[id].(state := Streams.Closed)
                  && (forall x :: x in m.streams && x != id ==> n.streams[x] == m.streams[x])
                  && id !in n.flow.send && id !in n.flow.recv && StreamLife.Silent(n.streams[id])
                  && n.queue == m.queue && n.tree == m.tree)
    ensures id in m.streams ==>
              var n := CleanupClosed(CloseStream(m, id).0);
              && (forall x :: x in n.streams <==> x in m.streams && x != id && m.streams[x].state != Streams.Closed)
              && (forall x :: x in n.streams ==> n.streams[x] == m.streams[x])
              && n.queue == m.queue && n.tree == m.tree && n.flow == CloseStream(m, id).0.flow
  {
    if id in m.streams {
      NotSending(CloseStream(m, id).0.streams[id]);
    }
  }

  /**
    A sweep takes place at the earliest thirty seconds after the one before. It then takes exactly the streams that are
    closed or whose last activity is longer ago than the timeout, and leaves the other records as they are.
   */
  lemma SweepIff(m: Mgr, now: nat, clock: u64 -> nat, id: u64)
    requires id in m.streams
    ensures var n, s := CleanupIdle(m, now, clock), m.streams[id];
            && (id !in n.streams <==>
                  now - m.lastCleanup >= 30_000_000_000
                  && (s.state == Streams.Closed || clock(id) - s.lastActivity > m.idleTimeout))
            && (id in n.streams ==> n.streams[id] == s)
            && n.lastCleanup == (if now - m.lastCleanup >= 30_000_000_000 then now else m.lastCleanup)
  {
  }

  /** In particular a new manager's stream, left alone, goes five minutes after it was created and not before. */
  lemma LeftAloneIsSwept(config: Streams.StreamConfig, isClient: bool, t: Streams.StreamType, now: nat, later: nat)
    requires OwnType(NewManager(config, isClient, now), t) && later >= now
    ensures var m := CreateStream(NewManager(config, isClient, now), t, now).0;
            && 0 in m.streams
            && (0 !in CleanupIdle(m, later, (id: u64) => later).streams <==> later - now > 300_000_000_000)
  {
    var start := NewManager(config, isClient, now);
    CreateIff(start, t, now);
    SweepIff(CreateStream(start, t, now).0, later, (id: u64) => later, 0);
  }
}
