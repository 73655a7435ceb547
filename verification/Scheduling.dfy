/** What the scheduler promises: a stable sort by priority, restricted to the streams that can send. */
module Scheduling {
  import opened Bytes
  import opened Streams
  import opened StableSort
  import opened Manager

  lemma PrecedesIsTotal()
    ensures TotalPreorder(Precedes)
  {
  }

  lemma {:induction false} FilterMembers<T>(s: seq<T>, keep: T -> bool)
    ensures forall x :: x in Filter(s, keep) <==> x in s && keep(x)
  {
    if s == [] {
    } else {
      FilterMembers(s[1..], keep);
      assert forall x :: x in s <==> x == s[0] || x in s[1..];
    }
  }

  lemma {:induction false} InsertFirst<T>(x: T, s: seq<T>, le: (T, T) -> bool)
    requires forall y :: y in s ==> le(x, y)
    ensures Insert(x, s, le) == [x] + s
  {
    if s == [] {
    } else {
      assert s[0] in s;
    }
  }

  /** Inserting and then leaving elements out is leaving them out and then inserting. */
  lemma {:induction false} FilterInsert<T(!new)>(x: T, s: seq<T>, le: (T, T) -> bool, keep: T -> bool)
    requires TotalPreorder(le) && Sorted(s, le)
    ensures Filter(Insert(x, s, le), keep)
         == if keep(x) then Insert(x, Filter(s, keep), le) else Filter(s, keep)
  {
    if s == [] || le(x, s[0]) {
      assert ([x] + s)[1..] == s;
      FilterMembers(s, keep);
      forall y | y in Filter(s, keep)
        ensures le(x, y)
      {
        var i :| 0 <= i < |s| && s[i] == y;
        assert i > 0 ==> le(s[0], s[i]);
      }
      InsertFirst(x, Filter(s, keep), le);
    } else {
      var rest := Insert(x, s[1..], le);
      assert ([s[0]] + rest)[1..] == rest;
      FilterInsert(x, s[1..], le, keep);
      if keep(s[0]) {
        assert ([s[0]] + Filter(s[1..], keep))[1..] == Filter(s[1..], keep);
      }
    }
  }

  /** Sorting commutes with leaving elements out. */
  lemma {:induction false} FilterSort<T(!new)>(s: seq<T>, le: (T, T) -> bool, keep: T -> bool)
    requires TotalPreorder(le)
    ensures Filter(Sort(s, le), keep) == Sort(Filter(s, keep), le)
  {
    if s == [] {
    } else {
      FilterSort(s[1..], le, keep);
      SortSorts(s[1..], le);
      FilterInsert(s[0], Sort(s[1..], le), le, keep);
      if keep(s[0]) {
        assert ([s[0]] + Filter(s[1..], keep))[1..] == Filter(s[1..], keep);
      }
    }
  }

  /** The queued entries whose stream can send, in the order they were queued. */
  function Eligible(m: Mgr): seq<Entry> {
    Filter(m.queue, IsReady(m.streams))
  }

  /** What the scheduler may put first: nothing less urgent, and among equally urgent nothing lighter. */
  predicate MayPrecede(a: Entry, b: Entry) {
    match b.priority
    case Urgent => a.priority.Urgent? && a.weight >= b.weight
    case High => a.priority.Urgent? || (a.priority.High? && a.weight >= b.weight)
    case Normal => a.priority.Urgent? || a.priority.High? || (a.priority.Normal? && a.weight >= b.weight)
    case Low => (!a.priority.Low? && !a.priority.Background?) || (a.priority.Low? && a.weight >= b.weight)
    case Background => !a.priority.Background? || a.weight >= b.weight
  }

  /** The entries of one priority and one weight. */
  function Having(priority: StreamPriority, weight: byte): Entry -> bool {
    (e: Entry) => e.priority == priority && e.weight == weight
  }

  /**
    The streams served are the eligible ones, each as often as it is queued: the more urgent first, among equally
    urgent ones the heavier first, and with equal weight in the order they were queued.
   */
  lemma ScheduleIsStableSort(m: Mgr)
    ensures SendableStreams(m) == Ids(ReadyEntries(m))
    ensures multiset(ReadyEntries(m)) == multiset(Eligible(m))
    ensures forall i, j :: 0 <= i < j < |ReadyEntries(m)| ==> MayPrecede(ReadyEntries(m)[i], ReadyEntries(m)[j])
    ensures forall p: StreamPriority, w: byte ::
              Filter(ReadyEntries(m), Having(p, w)) == Filter(Eligible(m), Having(p, w))
  {
    PrecedesIsTotal();
    FilterSort(m.queue, Precedes, IsReady(m.streams));
    SortPermutes(Eligible(m), Precedes);
    SortSorts(Eligible(m), Precedes);
    forall i, j | 0 <= i < j < |ReadyEntries(m)|
      ensures MayPrecede(ReadyEntries(m)[i], ReadyEntries(m)[j])
    {
      PrecedesIff(ReadyEntries(m)[i], ReadyEntries(m)[j]);
    }
    forall p: StreamPriority, w: byte
      ensures Filter(ReadyEntries(m), Having(p, w)) == Filter(Eligible(m), Having(p, w))
    {
      TiesStay(Eligible(m), p, w);
    }
  }

  lemma PrecedesIff(a: Entry, b: Entry)
    ensures Precedes(a, b) <==> MayPrecede(a, b)
  {
  }

  lemma TiesStay(queue: seq<Entry>, p: StreamPriority, w: byte)
    ensures Filter(Sort(queue, Precedes), Having(p, w)) == Filter(queue, Having(p, w))
  {
    SortStable(queue, Precedes, Having(p, w));
  }

  /** Eligible means queued for a recorded stream that is in a sending state and has window left. */
  lemma EligibleIff(m: Mgr, e: Entry)
    ensures e in Eligible(m) <==>
            && e in m.queue && e.id in m.streams && m.streams[e.id].sendWindow > 0
            && (m.streams[e.id].state.Open? || m.streams[e.id].state.HalfClosedRemote?)
  {
    FilterMembers(m.queue, IsReady(m.streams));
  }

  /** A stream is served exactly when it is queued, in a sending state, and has window left. */
  lemma ServedIff(m: Mgr, id: u64)
    ensures id in SendableStreams(m) <==>
            (exists e :: e in m.queue && e.id == id)
            && id in m.streams && m.streams[id].sendWindow > 0
            && (m.streams[id].state.Open? || m.streams[id].state.HalfClosedRemote?)
  {
    var ready := ReadyEntries(m);
    SortKeepsElements(m.queue, Precedes);
    FilterMembers(Sort(m.queue, Precedes), IsReady(m.streams));
    if id in SendableStreams(m) {
      var i :| 0 <= i < |Ids(ready)| && Ids(ready)[i] == id;
      assert ready[i] in ready;
    }
    if e :| e in m.queue && e.id == id && Ready(m.streams, id) {
      assert e in ready;
      var i :| 0 <= i < |ready| && ready[i] == e;
      assert Ids(ready)[i] == id;
    }
  }
}
