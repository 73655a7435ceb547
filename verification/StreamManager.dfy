/** The stream manager object: tables updated in place, with a flow controller of its own. */
module StreamManagers {
  import opened Bytes
  import opened FlowControl
  import opened FlowControllers
  import opened Streams
  import opened StableSort
  import opened Manager
  import Frames

  class StreamManager {
    var streams: map<u64, Stream>
    var nextClientStreamId: u64
    var nextServerStreamId: u64
    var maxConcurrentStreams: u64
    const config: StreamConfig
    const isClient: bool
    var priorityQueue: seq<Entry>
    var dependencyTree: Tree
    const flowController: FlowController
    var maxRemoteStreamId: u64
    var idleTimeout: nat
    var lastCleanup: nat

    ghost function Abstract(): Mgr
      reads this, flowController
    {
      Mgr(streams, nextClientStreamId, nextServerStreamId, maxConcurrentStreams, config, isClient, priorityQueue,
          dependencyTree, flowController.Abstract(), maxRemoteStreamId, idleTimeout, lastCleanup)
    }

    constructor (config: StreamConfig, isClient: bool, now: nat)
      ensures Abstract() == NewManager(config, isClient, now)
      ensures fresh(flowController)
    {
      flowController := new FlowController(config.initialWindowSize, config.initialWindowSize);
      streams, priorityQueue, dependencyTree := map[], [], map[];
      nextClientStreamId, nextServerStreamId := if isClient then 0 else 1, if isClient then 1 else 0;
      maxConcurrentStreams := 100;
      this.config, this.isClient := config, isClient;
      maxRemoteStreamId, idleTimeout, lastCleanup := 0, 300 * SECOND, now;
    }

    method CreateStream(t: StreamType, now: nat) returns (r: Result<u64, ManagerError>)
      modifies this, flowController
      ensures (Abstract(), r) == Manager.CreateStream(old(Abstract()), t, now)
    {
      if |streams| >= maxConcurrentStreams {
        return Err(LimitExceeded);
      }
      var id;
      if ClientType(t) {
        if !isClient {
          return Err(WrongRole);
        }
        id := nextClientStreamId;
        nextClientStreamId := Advance(id);
      } else {
        if isClient {
          return Err(WrongRole);
        }
        id := nextServerStreamId;
        nextServerStreamId := Advance(id);
      }
      var s := Streams.New(id, config, now).(state := Open);
      if id != 0 {
        var initialized := flowController.InitializeStream(id);
      }
      streams := streams[id := s];
      return Ok(id);
    }

    method CreateStreamWithPriority(t: StreamType, schedule: Schedule, now: nat) returns (r: Result<u64, ManagerError>)
      modifies this, flowController
      ensures (Abstract(), r) == Manager.CreateStreamWithPriority(old(Abstract()), t, schedule, now)
    {
      r := CreateStream(t, now);
      if r.Err? {
        return;
      }
      var id := r.value;
      priorityQueue := priorityQueue + [EntryFor(id, schedule)];
      if schedule.dependentOn.Some? {
        var parent := schedule.dependentOn.value;
        dependencyTree := dependencyTree[parent := Children(dependencyTree, parent) + [id]];
      }
    }

    method UpdateStreamPriority(id: u64, schedule: Schedule)
      modifies this
      ensures Abstract() == UpdatePriority(old(Abstract()), id, schedule)
    {
      var queue := UpdateEntry(priorityQueue, id, schedule);
      priorityQueue := queue;
      var dropped := DropFromAll(dependencyTree, id);
      dependencyTree := dropped;
      if schedule.dependentOn.Some? {
        var parent := schedule.dependentOn.value;
        dependencyTree := dependencyTree[parent := Children(dependencyTree, parent) + [id]];
      }
    }

    /** Finds the first entry of the stream and changes it in place. */
    static method UpdateEntry(queue: seq<Entry>, id: u64, schedule: Schedule) returns (updated: seq<Entry>)
      ensures updated == Reprioritize(queue, id, schedule)
    {
      var i := 0;
      while i < |queue| && queue[i].id != id
        invariant 0 <= i <= |queue|
        invariant Reprioritize(queue, id, schedule) == queue[..i] + Reprioritize(queue[i..], id, schedule)
      {
        assert queue[i..][1..] == queue[i + 1..];
        i := i + 1;
      }
      if i == |queue| {
        return queue;
      }
      assert queue[i..][1..] == queue[i + 1..];
      updated := queue[i := EntryFor(id, schedule)];
    }

    /** Retains everything but `id` in every list of children, the lists visited in an arbitrary order. */
    static method DropFromAll(tree: Tree, id: u64) returns (dropped: Tree)
      ensures dropped == DropChildren(tree, {id})
    {
      dropped := tree;
      var left := tree.Keys;
      while left != {}
        invariant left <= tree.Keys && dropped.Keys == tree.Keys
        invariant forall p :: p in tree ==> dropped[p] == if p in left then tree[p] else Drop(tree[p], {id})
        decreases left
      {
        var p :| p in left;
        dropped := dropped[p := Drop(dropped[p], {id})];
        left := left - {p};
      }
    }

    method GetSendableStreams() returns (sendable: seq<u64>)
      ensures sendable == SendableStreams(Abstract())
    {
      sendable := TakeReady(streams, Sort(priorityQueue, Precedes));
    }

    /** Walks the sorted entries and keeps those whose stream can send. */
    static method TakeReady(streams: map<u64, Stream>, sorted: seq<Entry>) returns (sendable: seq<u64>)
      ensures sendable == Ids(Filter(sorted, IsReady(streams)))
    {
      sendable := [];
      var i := 0;
      assert sorted[0..] == sorted;
      while i < |sorted|
        invariant 0 <= i <= |sorted|
        invariant Ids(Filter(sorted, IsReady(streams))) == sendable + Ids(Filter(sorted[i..], IsReady(streams)))
      {
        var entry := sorted[i];
        ReadyStep(streams, sorted, i, sendable);
        if entry.id in streams {
          var s := streams[entry.id];
          if Streams.CanSend(s) && s.sendWindow > 0 {
            sendable := sendable + [entry.id];
          }
        }
        i := i + 1;
      }
    }

    method CanAcceptStream(id: u64) returns (acceptable: bool)
      ensures acceptable == CanAccept(Abstract(), id)
    {
      var remote := if ClientType(TypeOfId(id)) then !isClient else isClient;
      if !remote {
        return false;
      }
      if id <= maxRemoteStreamId {
        return false;
      }
      return |streams| < maxConcurrentStreams;
    }

    static function Max(a: u64, b: u64): u64 {
      if a > b then a else b
    }

    method AcceptStream(id: u64, now: nat) returns (r: Result<(), ManagerError>)
      modifies this, flowController
      ensures (Abstract(), r) == Manager.AcceptStream(old(Abstract()), id, now)
    {
      var acceptable := CanAcceptStream(id);
      if !acceptable {
        return Err(NotAcceptable);
      }
      if id != 0 {
        var initialized := flowController.InitializeStream(id);
      }
      streams := streams[id := Streams.New(id, config, now)];
      maxRemoteStreamId := Max(id, maxRemoteStreamId);
      return Ok(());
    }

    method CloseStream(id: u64) returns (r: Result<(), ManagerError>)
      modifies this, flowController
      ensures (Abstract(), r) == Manager.CloseStream(old(Abstract()), id)
    {
      if id !in streams {
        return Err(NotFound);
      }
      streams := streams[id := streams[id].(state := Closed)];
      flowController.RemoveStream(id);
      return Ok(());
    }

    method ProcessFrame(frame: Frames.H3Frame, now: nat) returns (r: Result<seq<StreamEvent>, StreamError>)
      modifies this
      ensures (Abstract(), r) == Manager.ProcessFrame(old(Abstract()), frame, now)
    {
      var target := frame.StreamId();
      if target.None? {
        return Ok([]);
      }
      var id := target.value;
      if id !in streams {
        streams := streams[id := Streams.New(id, config, now).(state := Open)];
      }
      var (s, result) := Streams.ProcessFrame(streams[id], frame);
      streams := streams[id := s];
      return result;
    }

    method CleanupClosedStreams()
      modifies this
      ensures Abstract() == CleanupClosed(old(Abstract()))
    {
      streams := map id | id in streams && !streams[id].state.Closed? :: streams[id];
    }

    method SetMaxConcurrentStreams(max: u64)
      modifies this
      ensures Abstract() == old(Abstract()).(maxConcurrent := max)
    {
      maxConcurrentStreams := max;
    }

    /** At most every thirty seconds: collects the expired streams, then forgets them one by one in every table. */
    method CleanupIdleStreams(now: nat, clock: u64 -> nat)
      modifies this, flowController
      ensures Abstract() == CleanupIdle(old(Abstract()), now, clock)
    {
      if now < lastCleanup + CLEANUP_INTERVAL {
        return;
      }
      ghost var before := Abstract();
      var toRemove := set id | id in streams
                               && (streams[id].state.Closed? || clock(id) > streams[id].lastActivity + idleTimeout);
      ForgetNothing(before);
      var left := toRemove;
      assert toRemove - left == {};
      while left != {}
        invariant left <= toRemove
        invariant Abstract() == Forget(before, toRemove - left)
        decreases left
      {
        var id :| id in left;
        ghost var gone := toRemove - left;
        ForgetOneMore(before, gone, id);
        streams := streams - {id};
        priorityQueue := Filter(priorityQueue, EntryStays({id}));
        dependencyTree := dependencyTree - {id};
        var dropped := DropFromAll(dependencyTree, id);
        dependencyTree := dropped;
        flowController.RemoveStream(id);
        left := left - {id};
        assert gone + {id} == toRemove - left;
      }
      lastCleanup := now;
      assert toRemove - {} == toRemove;
    }
  }

  // ---------- lemmas for the loops ----------

  lemma ReadyStep(streams: map<u64, Stream>, sorted: seq<Entry>, i: nat, taken: seq<u64>)
    requires i < |sorted|
    ensures taken + Ids(Filter(sorted[i..], IsReady(streams)))
         == (if Ready(streams, sorted[i].id) then taken + [sorted[i].id] else taken)
            + Ids(Filter(sorted[i + 1..], IsReady(streams)))
  {
    var entries := sorted[i..];
    assert entries[1..] == sorted[i + 1..];
    var rest := Filter(entries[1..], IsReady(streams));
    assert ([entries[0]] + rest)[1..] == rest;
  }

  lemma {:induction false} FilterTwice<T>(s: seq<T>, f: T -> bool, g: T -> bool, h: T -> bool)
    requires forall x :: x in s ==> h(x) == (f(x) && g(x))
    ensures Filter(Filter(s, f), g) == Filter(s, h)
  {
    if s == [] {
    } else {
      FilterTwice(s[1..], f, g, h);
      if f(s[0]) {
        assert ([s[0]] + Filter(s[1..], f))[1..] == Filter(s[1..], f);
      }
    }
  }

  lemma {:induction false} FilterAll<T>(s: seq<T>, f: T -> bool)
    requires forall x :: x in s ==> f(x)
    ensures Filter(s, f) == s
  {
    if s == [] {
    } else {
      FilterAll(s[1..], f);
    }
  }

  lemma ForgetNothing(m: Mgr)
    ensures Forget(m, {}) == m
  {
    FilterAll(m.queue, EntryStays({}));
    DropNothing(m.tree - {});
    assert m.streams - {} == m.streams && m.tree - {} == m.tree;
    assert m.flow.send - {} == m.flow.send && m.flow.recv - {} == m.flow.recv;
  }

  lemma DropNothing(tree: Tree)
    ensures DropChildren(tree, {}) == tree
  {
    forall p | p in tree
      ensures Drop(tree[p], {}) == tree[p]
    {
      FilterAll(tree[p], ChildStays({}));
    }
  }

  lemma DropMore(children: seq<u64>, gone: set<u64>, id: u64)
    ensures Drop(Drop(children, gone), {id}) == Drop(children, gone + {id})
  {
    FilterTwice(children, ChildStays(gone), ChildStays({id}), ChildStays(gone + {id}));
  }

  lemma TreeForgetsMore(tree: Tree, gone: set<u64>, id: u64)
    ensures DropChildren(DropChildren(tree - gone, gone) - {id}, {id}) == DropChildren(tree - (gone + {id}), gone + {id})
  {
    var some, all := DropChildren(tree - gone, gone), DropChildren(tree - (gone + {id}), gone + {id});
    var more := DropChildren(some - {id}, {id});
    TreeOnce(tree, gone);
    TreeOnce(some, {id});
    TreeOnce(tree, gone + {id});
    assert more.Keys == all.Keys;
    forall p | p in more
      ensures more[p] == all[p]
    {
      DropMore(tree[p], gone, id);
    }
    SameMap(more, all);
  }

  lemma SameMap(a: Tree, b: Tree)
    requires a.Keys == b.Keys && forall p :: p in a ==> a[p] == b[p]
    ensures a == b
  {
  }

  lemma TreeOnce(tree: Tree, gone: set<u64>)
    ensures DropChildren(tree - gone, gone).Keys == tree.Keys - gone
    ensures forall p :: p in tree && p !in gone ==> DropChildren(tree - gone, gone)[p] == Drop(tree[p], gone)
  {
  }

  lemma QueueForgetsMore(queue: seq<Entry>, gone: set<u64>, id: u64)
    ensures Filter(Filter(queue, EntryStays(gone)), EntryStays({id})) == Filter(queue, EntryStays(gone + {id}))
  {
    FilterTwice(queue, EntryStays(gone), EntryStays({id}), EntryStays(gone + {id}));
  }

  lemma MapForgetsMore<T>(m: map<u64, T>, gone: set<u64>, id: u64)
    ensures m - gone - {id} == m - (gone + {id})
  {
  }

  /** Forgetting one stream more is one turn of the cleanup loop. */
  lemma ForgetOneMore(m: Mgr, gone: set<u64>, id: u64)
    ensures Forget(Forget(m, gone), {id}) == Forget(m, gone + {id})
  {
    QueueForgetsMore(m.queue, gone, id);
    TreeForgetsMore(m.tree, gone, id);
    MapForgetsMore(m.streams, gone, id);
    MapForgetsMore(m.flow.send, gone, id);
    MapForgetsMore(m.flow.recv, gone, id);
  }
}
