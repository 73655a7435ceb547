/** The stream manager as functions on its state: id allocation, priorities, dependency lists and cleanup. */
module Manager {
  import opened Bytes
  import opened FlowControl
  import opened Streams
  import opened StableSort
  import Frames

  datatype Schedule = Schedule(priority: StreamPriority, weight: byte, dependentOn: Option<u64>, exclusive: bool)

  datatype Entry = Entry(id: u64, priority: StreamPriority, weight: byte, dependentOn: Option<u64>, exclusive: bool)

  type Tree = map<u64, seq<u64>>

  datatype Mgr = Mgr(
    streams: map<u64, Stream>, nextClientId: u64, nextServerId: u64, maxConcurrent: u64, config: StreamConfig,
    isClient: bool, queue: seq<Entry>, tree: Tree, flow: Flow, maxRemoteId: u64, idleTimeout: nat, lastCleanup: nat)

  datatype ManagerError = LimitExceeded | WrongRole | NotAcceptable | NotFound

  const SECOND: nat := 1_000_000_000
  const CLEANUP_INTERVAL: nat := 30 * SECOND

  function NewManager(config: StreamConfig, isClient: bool, now: nat): Mgr {
    Mgr(map[], if isClient then 0 else 1, if isClient then 1 else 0, 100, config, isClient, [], map[],
        FlowControl.New(config.initialWindowSize, config.initialWindowSize), 0, 300 * SECOND, now)
  }

  predicate ClientType(t: StreamType) {
    t.ClientBidirectional? || t.ClientUnidirectional?
  }

  /** The next identifier of a role; the 64-bit counter wraps. */
  function Advance(id: u64): u64 {
    (id + 4) % TWO_TO_64
  }

  /** Records a stream and gives it flow-control windows, except that id 0 has none. */
  function Record(m: Mgr, s: Stream): Mgr {
    m.(streams := m.streams[s.id := s], flow := InitializeStream(m.flow, s.id).0)
  }

  function CreateStream(m: Mgr, t: StreamType, now: nat): (Mgr, Result<u64, ManagerError>) {
    if |m.streams| >= m.maxConcurrent then (m, Err(LimitExceeded))
    else if ClientType(t) != m.isClient then (m, Err(WrongRole))
    else
      var id := if ClientType(t) then m.nextClientId else m.nextServerId;
      var counted := if ClientType(t) then m.(nextClientId := Advance(id)) else m.(nextServerId := Advance(id));
      (Record(counted, Streams.New(id, m.config, now).(state := Open)), Ok(id))
  }

  function EntryFor(id: u64, s: Schedule): Entry {
    Entry(id, s.priority, s.weight, s.dependentOn, s.exclusive)
  }

  function Children(tree: Tree, parent: u64): seq<u64> {
    if parent in tree then tree[parent] else []
  }

  function AddChild(tree: Tree, parent: Option<u64>, id: u64): Tree {
    if parent.Some? then tree[parent.value := Children(tree, parent.value) + [id]] else tree
  }

  function CreateStreamWithPriority(m: Mgr, t: StreamType, s: Schedule, now: nat): (Mgr, Result<u64, ManagerError>) {
    var (n, r) := CreateStream(m, t, now);
    if r.Err? then (n, r)
    else (n.(queue := n.queue + [EntryFor(r.value, s)], tree := AddChild(n.tree, s.dependentOn, r.value)), r)
  }

  /** Changes the first entry of a stream in the queue, if it has one. */
  function Reprioritize(queue: seq<Entry>, id: u64, s: Schedule): seq<Entry> {
    if queue == [] then []
    else if queue[0].id == id then [EntryFor(id, s)] + queue[1..]
    else [queue[0]] + Reprioritize(queue[1..], id, s)
  }

  function ChildStays(gone: set<u64>): u64 -> bool {
    (c: u64) => c !in gone
  }

  function EntryStays(gone: set<u64>): Entry -> bool {
    (e: Entry) => e.id !in gone
  }

  function Drop(children: seq<u64>, gone: set<u64>): seq<u64> {
    Filter(children, ChildStays(gone))
  }

  function DropChildren(tree: Tree, gone: set<u64>): Tree {
    map p | p in tree :: Drop(tree[p], gone)
  }

  function UpdatePriority(m: Mgr, id: u64, s: Schedule): Mgr {
    m.(queue := Reprioritize(m.queue, id, s), tree := AddChild(DropChildren(m.tree, {id}), s.dependentOn, id))
  }

  predicate CanAccept(m: Mgr, id: u64) {
    ClientType(TypeOfId(id)) != m.isClient && id > m.maxRemoteId && |m.streams| < m.maxConcurrent
  }

  /** An accepted stream stays idle. */
  function AcceptStream(m: Mgr, id: u64, now: nat): (Mgr, Result<(), ManagerError>) {
    if !CanAccept(m, id) then (m, Err(NotAcceptable))
    else (Record(m, Streams.New(id, m.config, now)).(maxRemoteId := id), Ok(()))
  }

  /** The state is set directly and the windows are dropped; the record stays. */
  function CloseStream(m: Mgr, id: u64): (Mgr, Result<(), ManagerError>) {
    if id !in m.streams then (m, Err(NotFound))
    else (m.(streams := m.streams[id := m.streams[id].(state := Closed)], flow := RemoveStream(m.flow, id)), Ok(()))
  }

  /** Only the records of closed streams go; queue, tree and windows keep what they have. */
  function CleanupClosed(m: Mgr): Mgr {
    m.(streams := map id | id in m.streams && !m.streams[id].state.Closed? :: m.streams[id])
  }

  /** A frame opens a stream that has no record: without windows, and whatever the role and the limit. */
  function OpenImplicitly(m: Mgr, id: u64, now: nat): Mgr {
    if id in m.streams then m
    else m.(streams := m.streams[id := Streams.New(id, m.config, now).(state := Open)])
  }

  function ProcessFrame(m: Mgr, frame: Frames.H3Frame, now: nat): (Mgr, Result<seq<StreamEvent>, StreamError>) {
    match frame.StreamId()
    case None => (m, Ok([]))
    case Some(id) =>
      var n := OpenImplicitly(m, id, now);
      var (s, r) := Streams.ProcessFrame(n.streams[id], frame);
      (n.(streams := n.streams[id := s]), r)
  }

  // ---------- scheduling ----------

  function Rank(p: StreamPriority): nat {
    match p
    case Urgent => 0
    case High => 1
    case Normal => 2
    case Low => 3
    case Background => 4
  }

  /** Lower rank first, and among equal ranks the heavier entry first. */
  predicate Precedes(a: Entry, b: Entry) {
    Rank(a.priority) < Rank(b.priority) || (Rank(a.priority) == Rank(b.priority) && a.weight >= b.weight)
  }

  predicate Ready(streams: map<u64, Stream>, id: u64) {
    id in streams && Streams.CanSend(streams[id]) && streams[id].sendWindow > 0
  }

  function IsReady(streams: map<u64, Stream>): Entry -> bool {
    (e: Entry) => Ready(streams, e.id)
  }

  function ReadyEntries(m: Mgr): seq<Entry> {
    Filter(Sort(m.queue, Precedes), IsReady(m.streams))
  }

  function Ids(entries: seq<Entry>): (ids: seq<u64>)
    ensures |ids| == |entries|
    ensures forall i :: 0 <= i < |ids| ==> ids[i] == entries[i].id
  {
    if entries == [] then [] else [entries[0].id] + Ids(entries[1..])
  }

  /** The streams to serve, in order. */
  function SendableStreams(m: Mgr): seq<u64> {
    Ids(ReadyEntries(m))
  }

  // ---------- cleanup ----------

  /** `clock` gives the time at which each stream's idleness is looked at. */
  function Expired(m: Mgr, clock: u64 -> nat): set<u64> {
    set id | id in m.streams
             && (m.streams[id].state.Closed? || clock(id) > m.streams[id].lastActivity + m.idleTimeout)
  }

  /** Forgets a set of streams in every table. */
  function Forget(m: Mgr, gone: set<u64>): Mgr {
    m.(streams := m.streams - gone,
       queue := Filter(m.queue, EntryStays(gone)),
       tree := DropChildren(m.tree - gone, gone),
       flow := m.flow.(send := m.flow.send - gone, recv := m.flow.recv - gone))
  }

  predicate SweepDue(m: Mgr, now: nat) {
    now >= m.lastCleanup + CLEANUP_INTERVAL
  }

  function CleanupIdle(m: Mgr, now: nat, clock: u64 -> nat): Mgr {
    if !SweepDue(m, now) then m else Forget(m, Expired(m, clock)).(lastCleanup := now)
  }
}
