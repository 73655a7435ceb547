/** The acknowledgement tracker object: packets awaiting acknowledgement and numbers received. */
module AckTrackers {
  import opened Bytes
  import opened Packets
  import opened Acks
  import opened StableSort

  /** How many received numbers are kept. */
  const WINDOW: nat := 1000

  /** The delay below which no second frame is generated: 25 milliseconds, in nanoseconds. */
  const ACK_DELAY_THRESHOLD: nat := 25_000_000

  function AfterSent(unacked: map<u64, Packet>, p: Packet): map<u64, Packet> {
    if p.ackEliciting then unacked[p.header.packetNumber := p] else unacked
  }

  function Latest(numbers: seq<u64>): seq<u64> {
    if |numbers| > WINDOW then numbers[|numbers| - WINDOW..] else numbers
  }

  function AfterReceived(received: seq<u64>, p: u64): seq<u64> {
    Latest(received + [p])
  }

  function StillUnacked(unacked: map<u64, Packet>, f: AckFrame): map<u64, Packet> {
    map p | p in unacked && !IsAcked(f, p) :: unacked[p]
  }

  /** `acked` lists the packets that `f` acknowledges, each once, in some order. */
  ghost predicate AckedPackets(acked: seq<Packet>, order: seq<u64>, unacked: map<u64, Packet>, f: AckFrame) {
    && |acked| == |order|
    && (forall i, j :: 0 <= i < j < |order| ==> order[i] != order[j])
    && (forall p :: p in order <==> p in unacked && IsAcked(f, p))
    && (forall i :: 0 <= i < |order| ==> order[i] in unacked && acked[i] == unacked[order[i]])
  }

  /** Time since `since`, as a monotonic clock gives it. */
  function Elapsed(now: nat, since: nat): nat {
    if now < since then 0 else now - since
  }

  class AckTracker {
    var unackedPackets: map<u64, Packet>
    var receivedPackets: seq<u64>
    var lastAckSent: Option<nat>

    constructor ()
      ensures unackedPackets == map[] && receivedPackets == [] && lastAckSent == None
    {
      unackedPackets, receivedPackets, lastAckSent := map[], [], None;
    }

    method TrackSent(p: Packet)
      modifies this`unackedPackets
      ensures unackedPackets == AfterSent(old(unackedPackets), p)
    {
      if p.ackEliciting {
        unackedPackets := unackedPackets[p.header.packetNumber := p];
      }
    }

    method TrackReceived(p: u64)
      modifies this`receivedPackets
      ensures receivedPackets == AfterReceived(old(receivedPackets), p)
    {
      receivedPackets := receivedPackets + [p];
      ghost var all := receivedPackets;
      while |receivedPackets| > WINDOW
        invariant |receivedPackets| <= |all| && receivedPackets == all[|all| - |receivedPackets|..]
        invariant |all| > WINDOW ==> |receivedPackets| >= WINDOW
        invariant |all| <= WINDOW ==> receivedPackets == all
        decreases |receivedPackets|
      {
        receivedPackets := receivedPackets[1..];
      }
    }

    /** Removes and returns what the frame acknowledges; the map is walked in an arbitrary order. */
    method ProcessAck(f: AckFrame) returns (acked: seq<Packet>, ghost order: seq<u64>)
      modifies this`unackedPackets
      ensures unackedPackets == StillUnacked(old(unackedPackets), f)
      ensures AckedPackets(acked, order, old(unackedPackets), f)
    {
      acked, order := [], [];
      var kept := unackedPackets;
      var left := unackedPackets.Keys;
      while left != {}
        invariant left <= unackedPackets.Keys
        invariant unackedPackets == old(unackedPackets)
        invariant forall p :: p in kept <==> p in unackedPackets && (p in left || !IsAcked(f, p))
        invariant forall p :: p in kept ==> kept[p] == unackedPackets[p]
        invariant |acked| == |order|
        invariant forall i :: 0 <= i < |order| ==> order[i] in unackedPackets && acked[i] == unackedPackets[order[i]]
        invariant forall p :: p in order <==> p in unackedPackets && p !in left && IsAcked(f, p)
        invariant forall i, j :: 0 <= i < j < |order| ==> order[i] != order[j]
        decreases left
      {
        var p :| p in left;
        assert forall i :: 0 <= i < |order| ==> order[i] in order && order[i] != p;
        if IsAcked(f, p) {
          acked := acked + [unackedPackets[p]];
          order := order + [p];
          kept := kept - {p};
        }
        left := left - {p};
      }
      unackedPackets := kept;
      assert unackedPackets == StillUnacked(old(unackedPackets), f);
    }

    /**
      Generates a frame for the numbers received, unless there are none or the last frame is too recent.
      The clock is read three times.
     */
    method GenerateAck(now: nat, later: nat, atLast: nat) returns (frame: Option<AckFrame>)
      modifies this`lastAckSent
      ensures frame.None? <==>
              receivedPackets == []
              || (old(lastAckSent).Some? && now <= old(lastAckSent).value + 25_000_000)
      ensures frame.None? ==> lastAckSent == old(lastAckSent)
      ensures frame.Some? ==>
                && Acknowledges(frame.value, receivedPackets)
                && frame.value.ackDelay
                   == (if old(lastAckSent).Some? && later > old(lastAckSent).value
                       then later - old(lastAckSent).value else 0)
                && lastAckSent == Some(atLast)
    {
      if receivedPackets == [] {
        return None;
      }
      var shouldAck := if lastAckSent.Some? then Elapsed(now, lastAckSent.value) > ACK_DELAY_THRESHOLD else true;
      if !shouldAck {
        return None;
      }
      var largestAcked := Largest(receivedPackets);
      var ackDelay := if lastAckSent.Some? then Elapsed(later, lastAckSent.value) else 0;
      var f := NewFrame(largestAcked, ackDelay);
      f := AddRanges(f, receivedPackets);
      lastAckSent := Some(atLast);
      return Some(f);
    }

    static method Largest(numbers: seq<u64>) returns (m: u64)
      requires numbers != []
      ensures IsMax(m, numbers)
    {
      m := numbers[0];
      var i := 1;
      while i < |numbers|
        invariant 1 <= i <= |numbers| && m in numbers
        invariant forall j :: 0 <= j < i ==> numbers[j] <= m
      {
        if numbers[i] > m {
          m := numbers[i];
        }
        i := i + 1;
      }
    }

    /** Walks the sorted numbers, closing a range whenever the next number does not continue it. */
    static method AddRanges(start: AckFrame, received: seq<u64>) returns (f: AckFrame)
      requires received != [] && IsMax(start.largestAcked, received)
      requires start == NewFrame(start.largestAcked, start.ackDelay)
      ensures f.ackDelay == start.ackDelay && f.largestAcked == start.largestAcked
      ensures Acknowledges(f, received)
    {
      f := start;
      var sorted := SortNumbers(received);
      var rangeStart, rangeEnd := sorted[0], sorted[0];
      StartAcks(start, received);
      NothingBefore(sorted, received);
      var i := 1;
      while i < |sorted|
        invariant 1 <= i <= |sorted|
        invariant f.largestAcked == start.largestAcked && f.ackDelay == start.ackDelay
        invariant Open(sorted, received, i, rangeStart, rangeEnd)
        invariant Progress(f, received, rangeStart)
      {
        var number := sorted[i];
        if number - rangeEnd == 1 {
          LongerRange(sorted, received, i, rangeStart, rangeEnd);
          rangeEnd := number;
        } else {
          NextRange(f, sorted, received, i, rangeStart, rangeEnd);
          if rangeStart != rangeEnd {
            f := AddRange(f, rangeStart, rangeEnd);
          }
          rangeStart, rangeEnd := number, number;
        }
        i := i + 1;
      }
      LastRange(f, sorted, received, rangeStart, rangeEnd);
      if rangeStart != rangeEnd {
        f := AddRange(f, rangeStart, rangeEnd);
      }
    }
  }

  predicate AtMost(a: u64, b: u64) {
    a <= b
  }

  function SortNumbers(numbers: seq<u64>): (s: seq<u64>)
    ensures Sorted(s, AtMost) && |s| == |numbers|
    ensures forall x :: x in s <==> x in numbers
  {
    SortSorts(numbers, AtMost);
    SortKeepsElements(numbers, AtMost);
    Sort(numbers, AtMost)
  }

  // ---------- the range loop ----------

  ghost predicate HasNeighbour(received: seq<u64>, p: int) {
    p - 1 in received || p + 1 in received
  }

  /** The open range ends at the last number looked at and holds received numbers only. */
  ghost predicate Open(sorted: seq<u64>, received: seq<u64>, i: nat, rangeStart: u64, rangeEnd: u64) {
    && Sorted(sorted, AtMost) && (forall x :: x in sorted <==> x in received)
    && 1 <= i <= |sorted| && rangeEnd == sorted[i - 1] && rangeStart <= rangeEnd
    && forall p: int :: rangeStart <= p <= rangeEnd ==> p in received
  }

  /** What the closed ranges acknowledge: received numbers with neighbours, and all of those before the open range. */
  ghost predicate Progress(f: AckFrame, received: seq<u64>, rangeStart: u64) {
    && (forall p: int :: IsAcked(f, p) ==> p in received && (p == f.largestAcked || HasNeighbour(received, p)))
    && (forall p: int :: p in received && p < rangeStart && HasNeighbour(received, p) ==> IsAcked(f, p))
    && (rangeStart - 1 in received ==> IsAcked(f, rangeStart))
    && IsAcked(f, f.largestAcked) && IsMax(f.largestAcked, received)
    && RangesSorted(f) && RangesBounded(f)
  }

  lemma StartAcks(f: AckFrame, received: seq<u64>)
    requires f == NewFrame(f.largestAcked, f.ackDelay) && IsMax(f.largestAcked, received)
    ensures forall p: int :: IsAcked(f, p) <==> p == f.largestAcked
    ensures RangesSorted(f) && RangesBounded(f)
  {
    assert f.ranges[0].Contains(f.largestAcked);
  }

  /** The first of the sorted numbers has nothing before it. */
  lemma NothingBefore(sorted: seq<u64>, received: seq<u64>)
    requires sorted != [] && Sorted(sorted, AtMost) && forall x :: x in sorted <==> x in received
    ensures forall p: int :: p in received ==> p >= sorted[0]
  {
    forall p: int | p in received
      ensures p >= sorted[0]
    {
      var k :| 0 <= k < |sorted| && sorted[k] == p;
      assert k > 0 ==> AtMost(sorted[0], sorted[k]);
    }
  }

  /** Between two consecutive sorted numbers there is no received number. */
  lemma NothingBetween(sorted: seq<u64>, received: seq<u64>, i: nat, p: int)
    requires Sorted(sorted, AtMost) && (forall x :: x in sorted <==> x in received) && 1 <= i < |sorted|
    requires sorted[i - 1] < p < sorted[i]
    ensures p !in received
  {
    forall k | 0 <= k < |sorted|
      ensures sorted[k] != p
    {
      if k < i - 1 {
        assert AtMost(sorted[k], sorted[i - 1]);
      } else if i < k {
        assert AtMost(sorted[i], sorted[k]);
      }
    }
  }

  lemma NothingAfter(sorted: seq<u64>, received: seq<u64>, p: int)
    requires sorted != [] && Sorted(sorted, AtMost) && forall x :: x in sorted <==> x in received
    requires p in received
    ensures p <= sorted[|sorted| - 1]
  {
    var k :| 0 <= k < |sorted| && sorted[k] == p;
    assert k < |sorted| - 1 ==> AtMost(sorted[k], sorted[|sorted| - 1]);
  }

  /** The frame once the open range is closed: a single number adds nothing. */
  ghost function Closed(f: AckFrame, rangeStart: u64, rangeEnd: u64): AckFrame {
    if rangeStart != rangeEnd then AddRange(f, rangeStart, rangeEnd) else f
  }

  lemma ClosedAcks(f: AckFrame, received: seq<u64>, rangeStart: u64, rangeEnd: u64)
    requires Progress(f, received, rangeStart) && rangeStart <= rangeEnd
    requires forall p: int :: rangeStart <= p <= rangeEnd ==> p in received
    ensures var g := Closed(f, rangeStart, rangeEnd);
            && (forall p: int :: IsAcked(g, p) <==>
                  IsAcked(f, p) || (rangeStart != rangeEnd && rangeStart <= p <= rangeEnd))
            && (forall p: int :: IsAcked(g, p) ==> p in received && (p == g.largestAcked || HasNeighbour(received, p)))
            && RangesSorted(g) && RangesBounded(g) && g.largestAcked == f.largestAcked && g.ackDelay == f.ackDelay
  {
    var g := Closed(f, rangeStart, rangeEnd);
    if rangeStart != rangeEnd {
      assert rangeEnd in received;
      AddRangeAcks(f, rangeStart, rangeEnd);
      forall p: int | rangeStart <= p <= rangeEnd
        ensures p in received && HasNeighbour(received, p)
      {
        assert p < rangeEnd ==> p + 1 in received;
        assert p == rangeEnd ==> p - 1 in received;
      }
    }
  }

  lemma OpenNext(sorted: seq<u64>, received: seq<u64>, i: nat, rangeStart: u64, rangeEnd: u64)
    requires Open(sorted, received, i, rangeStart, rangeEnd) && i < |sorted|
    ensures Open(sorted, received, i + 1, sorted[i], sorted[i])
  {
    assert sorted[i] in sorted;
  }

  /** One turn of the loop: either the open range grows, or it is closed and the next one opened. */
  lemma LongerRange(sorted: seq<u64>, received: seq<u64>, i: nat, rangeStart: u64, rangeEnd: u64)
    requires Open(sorted, received, i, rangeStart, rangeEnd) && i < |sorted| && sorted[i] - rangeEnd == 1
    ensures Open(sorted, received, i + 1, rangeStart, sorted[i])
  {
    assert sorted[i] in sorted;
  }

  lemma NextRange(f: AckFrame, sorted: seq<u64>, received: seq<u64>, i: nat, rangeStart: u64, rangeEnd: u64)
    requires Open(sorted, received, i, rangeStart, rangeEnd) && Progress(f, received, rangeStart)
    requires i < |sorted| && sorted[i] - rangeEnd != 1
    ensures var g := Closed(f, rangeStart, rangeEnd);
            && Open(sorted, received, i + 1, sorted[i], sorted[i]) && Progress(g, received, sorted[i])
            && g.largestAcked == f.largestAcked && g.ackDelay == f.ackDelay
  {
    CloseRange(f, sorted, received, i, rangeStart, rangeEnd);
    OpenNext(sorted, received, i, rangeStart, rangeEnd);
  }

  /** Closing the open range keeps the progress, now up to the next number. */
  lemma CloseRange(f: AckFrame, sorted: seq<u64>, received: seq<u64>, i: nat, rangeStart: u64, rangeEnd: u64)
    requires Open(sorted, received, i, rangeStart, rangeEnd) && Progress(f, received, rangeStart)
    requires i < |sorted| && sorted[i] - rangeEnd != 1
    ensures Progress(Closed(f, rangeStart, rangeEnd), received, sorted[i])
    ensures Closed(f, rangeStart, rangeEnd).largestAcked == f.largestAcked
    ensures Closed(f, rangeStart, rangeEnd).ackDelay == f.ackDelay
  {
    var g, next: int := Closed(f, rangeStart, rangeEnd), sorted[i];
    ClosedAcks(f, received, rangeStart, rangeEnd);
    assert AtMost(sorted[i - 1], sorted[i]);
    forall p: int | p in received && p < next && HasNeighbour(received, p)
      ensures IsAcked(g, p)
    {
      BeforeNextAcked(f, sorted, received, i, rangeStart, rangeEnd, p);
    }
    if next - 1 in received && next != rangeEnd {
      NothingBetween(sorted, received, i, next - 1);
    }
  }

  /** Every received number with a neighbour that lies before the next one is acknowledged once the range is closed. */
  lemma BeforeNextAcked(
    f: AckFrame, sorted: seq<u64>, received: seq<u64>, i: nat, rangeStart: u64, rangeEnd: u64, p: int)
    requires Open(sorted, received, i, rangeStart, rangeEnd) && Progress(f, received, rangeStart)
    requires i < |sorted| && sorted[i] - rangeEnd != 1
    requires p in received && p < sorted[i] && HasNeighbour(received, p)
    ensures IsAcked(Closed(f, rangeStart, rangeEnd), p)
  {
    ClosedAcks(f, received, rangeStart, rangeEnd);
    assert AtMost(sorted[i - 1], sorted[i]);
    if p > rangeEnd {
      NothingBetween(sorted, received, i, p);
    } else if p == rangeStart == rangeEnd && p - 1 !in received {
      NothingBetween(sorted, received, i, p + 1);
    }
  }

  /** After the last number, closing the open range completes the frame. */
  lemma LastRange(f: AckFrame, sorted: seq<u64>, received: seq<u64>, rangeStart: u64, rangeEnd: u64)
    requires Open(sorted, received, |sorted|, rangeStart, rangeEnd) && Progress(f, received, rangeStart)
    ensures Acknowledges(Closed(f, rangeStart, rangeEnd), received)
    ensures Closed(f, rangeStart, rangeEnd).largestAcked == f.largestAcked
    ensures Closed(f, rangeStart, rangeEnd).ackDelay == f.ackDelay
  {
    var g := Closed(f, rangeStart, rangeEnd);
    ClosedAcks(f, received, rangeStart, rangeEnd);
    NothingAfter(sorted, received, f.largestAcked);
    assert rangeEnd in sorted;
    assert rangeEnd == f.largestAcked;
    forall p: int
      ensures IsAcked(g, p) <==> Reported(received, p)
    {
      MaxIs(received, f.largestAcked, p);
      if p in received {
        NothingAfter(sorted, received, p);
      }
    }
  }

  lemma MaxIs(received: seq<u64>, m: int, p: int)
    requires IsMax(m, received)
    ensures IsMax(p, received) <==> p == m
  {
    if IsMax(p, received) {
      var i :| 0 <= i < |received| && received[i] == m;
      assert received[i] <= p;
      var j :| 0 <= j < |received| && received[j] == p;
      assert received[j] <= m;
    }
  }

  // ---------- packets awaited ----------

  function TrackAllSent(packets: seq<Packet>): map<u64, Packet> {
    if packets == [] then map[] else AfterSent(TrackAllSent(packets[..|packets| - 1]), packets[|packets| - 1])
  }

  /** The packet is the last of its number that elicits an acknowledgement. */
  ghost predicate LastSent(packets: seq<Packet>, p: Packet) {
    exists i :: 0 <= i < |packets| && packets[i] == p && p.ackEliciting
                && forall j :: i < j < |packets| && packets[j].header.packetNumber == p.header.packetNumber ==>
                                 !packets[j].ackEliciting
  }

  /** After any packets were sent, exactly those that elicit an acknowledgement are awaited, the last of each number. */
  lemma {:induction false} AwaitedIff(packets: seq<Packet>, number: u64, p: Packet)
    ensures number in TrackAllSent(packets) && TrackAllSent(packets)[number] == p <==>
            p.header.packetNumber == number && LastSent(packets, p)
  {
    if packets == [] {
    } else {
      var front, last := packets[..|packets| - 1], packets[|packets| - 1];
      AwaitedIff(front, number, p);
      LastSentStep(front, last, p);
      assert packets == front + [last];
    }
  }

  lemma LastSentStep(front: seq<Packet>, last: Packet, p: Packet)
    ensures LastSent(front + [last], p) <==>
            (last == p && p.ackEliciting)
            || (LastSent(front, p) && !(last.header.packetNumber == p.header.packetNumber && last.ackEliciting))
  {
    var packets := front + [last];
    if last == p && p.ackEliciting {
      assert packets[|front|] == p;
    } else if LastSent(front, p) && !(last.header.packetNumber == p.header.packetNumber && last.ackEliciting) {
      var i :| 0 <= i < |front| && front[i] == p && p.ackEliciting
               && forall j :: i < j < |front| && front[j].header.packetNumber == p.header.packetNumber ==>
                                !front[j].ackEliciting;
      assert packets[i] == p;
      assert forall j :: i < j < |front| ==> packets[j] == front[j];
    }
    if LastSent(packets, p) && !(last == p && p.ackEliciting) {
      var i :| 0 <= i < |packets| && packets[i] == p && p.ackEliciting
               && forall j :: i < j < |packets| && packets[j].header.packetNumber == p.header.packetNumber ==>
                                !packets[j].ackEliciting;
      assert i < |front| && front[i] == p && packets[|front|] == last;
      assert forall j :: i < j < |front| ==> packets[j] == front[j];
    }
  }

  // ---------- the retained window ----------

  function TrackAll(numbers: seq<u64>): seq<u64> {
    if numbers == [] then [] else AfterReceived(TrackAll(numbers[..|numbers| - 1]), numbers[|numbers| - 1])
  }

  /** Whatever arrived, duplicates included, the window holds the last thousand arrivals. */
  lemma {:induction false} WindowIsLatest(numbers: seq<u64>)
    ensures TrackAll(numbers) == if |numbers| > 1000 then numbers[|numbers| - 1000..] else numbers
  {
    if numbers == [] {
    } else {
      var front, last := numbers[..|numbers| - 1], numbers[|numbers| - 1];
      WindowIsLatest(front);
      assert numbers == front + [last];
      if |front| >= WINDOW {
        assert Latest(front) == front[|front| - WINDOW..];
        assert (Latest(front) + [last])[1..] == numbers[|numbers| - WINDOW..];
      }
    }
  }
}
