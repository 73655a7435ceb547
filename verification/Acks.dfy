/** Acknowledgement frames: ranges of packet numbers, how they are built and how they travel. */
module Acks {
  import opened Bytes
  import opened StableSort

  datatype AckRange = AckRange(first: u64, last: u64) {
    predicate Contains(p: int) {
      first <= p <= last
    }
  }

  /** `ackDelay` is in nanoseconds. */
  datatype AckFrame = AckFrame(largestAcked: u64, ackDelay: nat, ranges: seq<AckRange>)

  function NewFrame(largestAcked: u64, ackDelay: nat): AckFrame {
    AckFrame(largestAcked, ackDelay, [AckRange(largestAcked, largestAcked)])
  }

  predicate ByFirst(a: AckRange, b: AckRange) {
    a.first <= b.first
  }

  /** Appends a range and sorts by first number. */
  function AddRange(f: AckFrame, first: u64, last: u64): AckFrame {
    f.(ranges := Sort(f.ranges + [AckRange(first, last)], ByFirst))
  }

  predicate IsAcked(f: AckFrame, p: int) {
    exists i :: 0 <= i < |f.ranges| && f.ranges[i].Contains(p)
  }

  ghost predicate RangesSorted(f: AckFrame) {
    Sorted(f.ranges, ByFirst)
  }

  /** Every range runs upwards and none passes the largest number acknowledged. */
  ghost predicate RangesBounded(f: AckFrame) {
    forall r :: r in f.ranges ==> r.first <= r.last <= f.largestAcked
  }

  lemma AckedByMember(f: AckFrame, p: int)
    ensures IsAcked(f, p) <==> exists r :: r in f.ranges && r.Contains(p)
  {
    if IsAcked(f, p) {
      var i :| 0 <= i < |f.ranges| && f.ranges[i].Contains(p);
      assert f.ranges[i] in f.ranges;
    }
    if r :| r in f.ranges && r.Contains(p) {
      var i :| 0 <= i < |f.ranges| && f.ranges[i] == r;
      assert f.ranges[i].Contains(p);
    }
  }

  /** Adding a range acknowledges its numbers and no others, and leaves the ranges sorted. */
  lemma AddRangeAcks(f: AckFrame, first: u64, last: u64)
    ensures forall p :: IsAcked(AddRange(f, first, last), p) <==> IsAcked(f, p) || first <= p <= last
    ensures RangesSorted(AddRange(f, first, last))
    ensures RangesBounded(f) && first <= last <= f.largestAcked ==> RangesBounded(AddRange(f, first, last))
  {
    var g, all := AddRange(f, first, last), f.ranges + [AckRange(first, last)];
    SortSorts(all, ByFirst);
    SortKeepsElements(all, ByFirst);
    assert forall r :: r in g.ranges <==> r in f.ranges || r == AckRange(first, last);
    forall p
      ensures IsAcked(g, p) <==> IsAcked(f, p) || first <= p <= last
    {
      AckedByMember(f, p);
      AckedByMember(g, p);
      assert AckRange(first, last).Contains(p) <==> first <= p <= last;
    }
  }

  // ---------- what a generated frame acknowledges ----------

  predicate IsMax(m: int, received: seq<u64>) {
    m in received && forall i :: 0 <= i < |received| ==> received[i] <= m
  }

  /** A received number is reported when it is the largest or has a received neighbour. */
  predicate Reported(received: seq<u64>, p: int) {
    p in received && (IsMax(p, received) || p - 1 in received || p + 1 in received)
  }

  /** The exact acknowledged set of a frame generated from the numbers received. */
  ghost predicate Acknowledges(f: AckFrame, received: seq<u64>) {
    && IsMax(f.largestAcked, received)
    && (forall p :: IsAcked(f, p) <==> Reported(received, p))
    && RangesSorted(f) && RangesBounded(f)
  }

  /** Numbers that stand alone below the largest are received but not acknowledged. */
  lemma IsolatedNotAcked(f: AckFrame, received: seq<u64>, p: int)
    requires Acknowledges(f, received) && p in received
    ensures !IsAcked(f, p) <==> p != f.largestAcked && p - 1 !in received && p + 1 !in received
  {
  }
}
