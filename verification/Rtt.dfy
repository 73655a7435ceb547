/** Round-trip time estimation in whole nanoseconds, with the rounding of integer division. */
module Rtt {
  import opened Bytes

  const MILLISECOND: nat := 1_000_000

  datatype Estimate = Estimate(srtt: Option<nat>, rttvar: nat, minRtt: Option<nat>)

  const INITIAL: Estimate := Estimate(None, 250 * MILLISECOND, None)

  function Distance(a: nat, b: nat): nat {
    if a > b then a - b else b - a
  }

  function Lower(a: nat, b: nat): nat {
    if b < a then b else a
  }

  function Higher(a: nat, b: nat): nat {
    if b < a then a else b
  }

  function Smooth(srtt: nat, sample: nat): nat {
    (7 * srtt + sample) / 8
  }

  function Vary(rttvar: nat, deviation: nat): nat {
    (3 * rttvar + deviation) / 4
  }

  function Updated(e: Estimate, sample: nat): Estimate {
    var minRtt := Some(if e.minRtt.Some? then Lower(e.minRtt.value, sample) else sample);
    match e.srtt
    case None => Estimate(Some(sample), sample / 2, minRtt)
    case Some(srtt) => Estimate(Some(Smooth(srtt, sample)), Vary(e.rttvar, Distance(sample, srtt)), minRtt)
  }

  function Timeout(e: Estimate): nat {
    Higher((if e.srtt.Some? then e.srtt.value else 500 * MILLISECOND) + 4 * e.rttvar, 200 * MILLISECOND)
  }

  class RttEstimator {
    var srtt: Option<nat>
    var rttvar: nat
    var minRtt: Option<nat>

    ghost function Abstract(): Estimate
      reads this
    {
      Estimate(srtt, rttvar, minRtt)
    }

    constructor ()
      ensures Abstract() == INITIAL
    {
      srtt, rttvar, minRtt := None, 250 * MILLISECOND, None;
    }

    method Update(sample: nat)
      modifies this
      ensures Abstract() == Updated(old(Abstract()), sample)
    {
      minRtt := Some(if minRtt.Some? then Lower(minRtt.value, sample) else sample);
      match srtt {
        case None =>
          srtt := Some(sample);
          rttvar := sample / 2;
        case Some(current) =>
          var deviation := if sample > current then sample - current else current - sample;
          rttvar := (3 * rttvar + deviation) / 4;
          srtt := Some((7 * current + sample) / 8);
      }
    }

    method Rto() returns (rto: nat)
      ensures rto == Timeout(Abstract())
    {
      var base := (if srtt.Some? then srtt.value else 500 * MILLISECOND) + 4 * rttvar;
      rto := if base < 200 * MILLISECOND then 200 * MILLISECOND else base;
    }
  }

  // ---------- bounds over any samples ----------

  function Run(e: Estimate, samples: seq<nat>): Estimate {
    if samples == [] then e else Updated(Run(e, samples[..|samples| - 1]), samples[|samples| - 1])
  }

  ghost predicate Within(samples: seq<nat>, low: nat, high: nat) {
    forall i :: 0 <= i < |samples| ==> low <= samples[i] <= high
  }

  lemma {:induction false} EstimateBetween(samples: seq<nat>, low: nat, high: nat, spread: nat)
    requires samples != [] && Within(samples, low, high) && high - low <= spread && samples[0] / 2 <= spread
    ensures var e := Run(INITIAL, samples); e.srtt.Some? && low <= e.srtt.value <= high && e.rttvar <= spread
  {
    var front, last := samples[..|samples| - 1], samples[|samples| - 1];
    if front != [] {
      EstimateBetween(front, low, high, spread);
      var e := Run(INITIAL, front);
      SmoothBetween(e.srtt.value, last, low, high);
      VaryBelow(e.rttvar, Distance(last, e.srtt.value), spread);
    }
  }

  lemma {:induction false} MinimumIsLeast(samples: seq<nat>)
    requires samples != []
    ensures var least := Run(INITIAL, samples).minRtt;
            least.Some? && least.value in samples && forall i :: 0 <= i < |samples| ==> least.value <= samples[i]
  {
    var front, last := samples[..|samples| - 1], samples[|samples| - 1];
    assert samples == front + [last];
    if front != [] {
      MinimumIsLeast(front);
    }
  }

  /**
    The smoothed time stays between the smallest and the largest sample, the variation below half the first
    sample or the spread, whichever is larger, the minimum is the smallest sample, and the timeout is at
    least 200 milliseconds.
   */
  lemma EstimateBounded(samples: seq<nat>, low: nat, high: nat)
    requires samples != [] && Within(samples, low, high)
    ensures Run(INITIAL, samples).srtt.Some? && low <= Run(INITIAL, samples).srtt.value <= high
    ensures Run(INITIAL, samples).rttvar <= Higher(samples[0] / 2, high - low)
    ensures Run(INITIAL, samples).minRtt.Some? && Run(INITIAL, samples).minRtt.value in samples
    ensures forall i :: 0 <= i < |samples| ==> Run(INITIAL, samples).minRtt.value <= samples[i]
    ensures Timeout(Run(INITIAL, samples)) >= 200_000_000
  {
    EstimateBetween(samples, low, high, Higher(samples[0] / 2, high - low));
    MinimumIsLeast(samples);
  }

  lemma VaryBelow(rttvar: nat, deviation: nat, bound: nat)
    requires rttvar <= bound && deviation <= bound
    ensures Vary(rttvar, deviation) <= bound
  {
  }

  lemma SmoothBetween(srtt: nat, sample: nat, low: nat, high: nat)
    requires low <= srtt <= high && low <= sample <= high
    ensures low <= Smooth(srtt, sample) <= high
  {
  }

  /**
    So the timeout is never below the smallest sample, nor below the smoothed time and four variations, and never
    above 200 milliseconds or the largest sample and four times the bound on the variation, whichever is larger.
   */
  lemma TimeoutBounded(samples: seq<nat>, low: nat, high: nat)
    requires samples != [] && Within(samples, low, high)
    ensures var e, rto := Run(INITIAL, samples), Timeout(Run(INITIAL, samples));
            && e.srtt.Some? && low <= e.srtt.value + 4 * e.rttvar <= rto && 200_000_000 <= rto
            && rto <= Higher(200_000_000, high + 4 * Higher(samples[0] / 2, high - low))
  {
    EstimateBounded(samples, low, high);
    MoreVariation(Run(INITIAL, samples).rttvar, Higher(samples[0] / 2, high - low));
  }

  lemma MoreVariation(a: nat, b: nat)
    requires a <= b
    ensures 4 * a <= 4 * b
  {
  }

  /** Before any sample the timeout is one second and a half, and after the first three times the sample or 200 ms. */
  lemma FirstTimeouts(sample: nat)
    ensures Timeout(INITIAL) == 1_500_000_000
    ensures var e := Run(INITIAL, [sample]);
            e.srtt == Some(sample) && e.minRtt == Some(sample)
            && 3 * sample - 2 <= Timeout(e) <= Higher(200_000_000, 3 * sample)
  {
    assert [sample][..0] == [];
  }

  // ---------- how fast an estimate moves ----------

  /**
    Section 2.3 of RFC 6298, up to less than a nanosecond of rounding: a sample moves the smoothed time an eighth of
    the way to itself, and the variation a quarter of the way to its distance from the smoothed time before.
   */
  lemma SampleMoves(e: Estimate, sample: nat)
    requires e.srtt.Some?
    ensures var srtt, n := e.srtt.value, Updated(e, sample);
            && n.srtt.Some? && n.minRtt.Some? && n.minRtt.value <= sample
            && (sample - srtt) - 8 < 8 * (n.srtt.value - srtt) <= sample - srtt
            && (Distance(sample, srtt) - e.rttvar) - 4 < 4 * (n.rttvar - e.rttvar)
            && 4 * (n.rttvar - e.rttvar) <= Distance(sample, srtt) - e.rttvar
  {
  }

  /** `x` times 7^n. */
  function Seven(n: nat, x: int): int {
    if n == 0 then x else 7 * Seven(n - 1, x)
  }

  /** `x` times 8^n. */
  function Eight(n: nat, x: int): int {
    if n == 0 then x else 8 * Eight(n - 1, x)
  }

  lemma {:induction false} EightBetween(n: nat, before: int, after: int)
    requires 7 * before - 7 <= 8 * after <= 7 * before
    ensures 7 * Eight(n, before) - 7 * Eight(n, 1) <= 8 * Eight(n, after) <= 7 * Eight(n, before)
  {
    if n > 0 {
      EightBetween(n - 1, before, after);
    }
  }

  /**
    Under a constant sample the distance to it decays by an eighth with every update, no faster and no slower, up to
    a rounding error of 7 nanoseconds: after `n` updates it is (7/8)^n of what it was.
   */
  lemma {:induction false} DistanceDecays(e: Estimate, sample: nat, n: nat)
    requires e.srtt.Some?
    ensures Repeat(e, sample, n).srtt.Some?
    ensures var start, end := e.srtt.value - sample, Repeat(e, sample, n).srtt.value - sample;
            Seven(n, start) - 7 * Eight(n, 1) <= Eight(n, end) <= Seven(n, start)
  {
    if n == 0 {
    } else {
      DistanceDecays(e, sample, n - 1);
      var before := Repeat(e, sample, n - 1).srtt.value;
      EightBetween(n - 1, before - sample, Smooth(before, sample) - sample);
    }
  }

  // ---------- convergence under a constant sample ----------

  /** The smoothed time is at most the sample and within the rounding error of it. */
  predicate Arrived(srtt: nat, sample: nat) {
    srtt <= sample <= srtt + 7
  }

  /** One update with a constant sample gets closer until the rounding error is reached, and stays there. */
  lemma SmoothApproaches(srtt: nat, sample: nat)
    ensures Arrived(srtt, sample) ==> Smooth(srtt, sample) == srtt
    ensures !Arrived(srtt, sample) ==> Distance(Smooth(srtt, sample), sample) < Distance(srtt, sample)
  {
  }

  /** The variation shrinks while it exceeds the deviation, and never rises above the larger of the two. */
  lemma VaryApproaches(rttvar: nat, deviation: nat)
    ensures rttvar > deviation ==> deviation <= Vary(rttvar, deviation) < rttvar
    ensures rttvar <= deviation ==> Vary(rttvar, deviation) <= deviation
  {
  }

  /** `n` updates with the same sample. */
  function Repeat(e: Estimate, sample: nat, n: nat): Estimate {
    if n == 0 then e else Updated(Repeat(e, sample, n - 1), sample)
  }

  predicate Converged(e: Estimate, sample: nat) {
    e.srtt.Some? && Arrived(e.srtt.value, sample) && e.rttvar <= 7
  }

  /**
    Where an estimate stands after `n` updates that started `d` away with a variation of at most `v`: the
    distance goes down by one each time until it is down to the rounding error, and then the variation does.
   */
  ghost predicate Progress(srtt: nat, rttvar: nat, sample: nat, n: nat, d: nat, v: nat) {
    && Distance(srtt, sample) <= d <= v && rttvar <= v
    && if Arrived(srtt, sample) then rttvar <= 7 || rttvar + n <= v + d + 1 else Distance(srtt, sample) + n <= d
  }

  lemma ProgressStep(srtt: nat, rttvar: nat, sample: nat, n: nat, d: nat, v: nat)
    requires Progress(srtt, rttvar, sample, n, d, v)
    ensures Progress(Smooth(srtt, sample), Vary(rttvar, Distance(sample, srtt)), sample, n + 1, d, v)
  {
    SmoothApproaches(srtt, sample);
    VaryApproaches(rttvar, Distance(sample, srtt));
  }

  lemma {:induction false} RepeatProgress(e: Estimate, sample: nat, n: nat, d: nat, v: nat)
    requires e.srtt.Some? && d == Distance(e.srtt.value, sample) && v == Higher(e.rttvar, d)
    ensures Repeat(e, sample, n).srtt.Some?
    ensures Progress(Repeat(e, sample, n).srtt.value, Repeat(e, sample, n).rttvar, sample, n, d, v)
  {
    if n == 0 {
    } else {
      RepeatProgress(e, sample, n - 1, d, v);
      var before := Repeat(e, sample, n - 1);
      ProgressStep(before.srtt.value, before.rttvar, sample, n - 1, d, v);
    }
  }

  /** An explicit bound on the number of updates it takes. */
  function Steps(e: Estimate, sample: nat): nat
    requires e.srtt.Some?
  {
    Distance(e.srtt.value, sample) + 1 + Higher(e.rttvar, Distance(e.srtt.value, sample))
  }

  lemma ProgressEnds(srtt: nat, rttvar: nat, sample: nat, n: nat, d: nat, v: nat)
    requires Progress(srtt, rttvar, sample, n, d, v) && n >= v + d + 1
    ensures Arrived(srtt, sample) && rttvar <= 7
    ensures Higher(srtt + 4 * rttvar, 200 * MILLISECOND) <= Higher(200 * MILLISECOND, sample + 28)
  {
  }

  /**
    Under a constant sample every estimate settles, within `Steps` updates and for good: the smoothed time at
    most 7 nanoseconds below the sample, the variation at most 7, the timeout at most 28 above the sample.
   */
  lemma Converges(e: Estimate, sample: nat, n: nat)
    requires e.srtt.Some? && n >= Steps(e, sample)
    ensures Converged(Repeat(e, sample, n), sample)
    ensures sample - 7 <= Timeout(Repeat(e, sample, n)) && 200_000_000 <= Timeout(Repeat(e, sample, n))
    ensures Timeout(Repeat(e, sample, n)) <= Higher(200_000_000, sample + 28)
  {
    var d := Distance(e.srtt.value, sample);
    var v, last := Higher(e.rttvar, d), Repeat(e, sample, n);
    RepeatProgress(e, sample, n, d, v);
    ProgressEnds(last.srtt.value, last.rttvar, sample, n, d, v);
  }
}
