/** What a controller tells its caller: which level blocks, which window is used up, which update to send and when. */
module FlowEvents {
  import opened Bytes
  import opened FlowControl
  import opened FlowProperties

  // ---------- sending ----------

  /**
    A blocked reservation names the level that blocks, the connection before the stream, with its window and the
    bytes asked for. A granted one names exactly the windows it used up, the stream's before the connection's.
   */
  lemma ReserveReports(f: Flow, id: u64, bytes: u32)
    ensures var (g, events) := Reserve(f, id, bytes);
            && (SendWindow(f, 0) < bytes ==> events == [FlowControlBlocked(0, SendWindow(f, 0), bytes)])
            && (SendWindow(f, id) < bytes <= SendWindow(f, 0) ==>
                  events == [FlowControlBlocked(id, SendWindow(f, id), bytes)])
            && (bytes <= SendWindow(f, 0) && bytes <= SendWindow(f, id) ==>
                  && (forall x :: WindowExhausted(x) in events <==> (x == 0 || x == id) && SendWindow(g, x) == 0)
                  && (forall e :: e in events ==> e.WindowExhausted?)
                  && |events| <= 2 && (|events| == 2 ==> events == [WindowExhausted(id), WindowExhausted(0)]))
  {
  }

  // ---------- receiving ----------

  function InitialOf(f: Flow, id: u64): u32 {
    if id == 0 then f.initialConn else f.initialStream
  }

  /** Data that both levels have room for is taken from both, and from no other window. */
  lemma ReceiveCharges(f: Flow, id: u64, bytes: u32)
    ensures var (g, r) := Receive(f, id, bytes);
            && (RecvWindow(f, 0) < bytes ==> r == Err(ReceiveWindowExceeded(0)))
            && (RecvWindow(f, id) < bytes <= RecvWindow(f, 0) ==> r == Err(ReceiveWindowExceeded(id)))
            && (bytes <= RecvWindow(f, 0) && bytes <= RecvWindow(f, id) ==>
                  && r.Ok? && g.totalReceived == f.totalReceived + bytes
                  && (forall x :: RecvWindow(g, x) == RecvWindow(f, x) - if x == 0 || x == id then bytes else 0))
  {
  }

  /** What `UpdateAsked` says of one level, for the level of window `x`. */
  predicate Asks(g: Flow, x: u64, increment: u32) {
    RecvWindow(g, x) <= Threshold(InitialOf(g, x)) && increment == InitialOf(g, x) - RecvWindow(g, x)
  }

  /**
    The updates asked for when data was taken: for the stream and then for the connection, exactly if the window is
    down to the threshold, and by what is missing from the initial window.
   */
  lemma ReceiveReports(f: Flow, id: u64, bytes: u32)
    requires Receive(f, id, bytes).1.Ok?
    ensures var (g, r) := Receive(f, id, bytes);
            && (forall x, increment :: WindowUpdateNeeded(x, increment) in r.value <==>
                                         (x == 0 || x == id) && Asks(g, x, increment))
            && (forall e :: e in r.value ==> e.WindowUpdateNeeded?)
            && |r.value| <= 2 && (|r.value| == 2 ==> r.value[0].streamId == id && r.value[1].streamId == 0)
  {
    var (g, r) := Receive(f, id, bytes);
    UpdateAsked(0, g.connRecv, g.initialConn);
    if id != 0 {
      UpdateAsked(id, Get(g.recv, id), g.initialStream);
      assert r.value == UpdateEvent(id, Get(g.recv, id), g.initialStream) + UpdateEvent(0, g.connRecv, g.initialConn);
    }
  }

  lemma UpdateAsked(id: u64, window: u32, initial: u32)
    ensures var events := UpdateEvent(id, window, initial);
            && |events| <= 1
            && (forall x, increment :: WindowUpdateNeeded(x, increment) in events <==>
                  x == id && window <= Threshold(initial) && increment == initial - window)
            && (forall e :: e in events ==> e.WindowUpdateNeeded? && e.streamId == id)
  {
  }

  /** An update asked for takes its window back to the initial size and leaves every other as it is. */
  lemma AskedUpdateRestores(f: Flow, id: u64, bytes: u32, x: u64, increment: u32)
    requires Receive(f, id, bytes).1.Ok? && WindowUpdateNeeded(x, increment) in Receive(f, id, bytes).1.value
    requires InitialOf(f, x) <= 0x7FFF_FFFF
    ensures var g := Receive(f, id, bytes).0;
            var (h, r) := UpdateRecv(g, x, increment);
            && r.Ok? && RecvWindow(h, x) == InitialOf(f, x)
            && forall other :: other != x ==> RecvWindow(h, other) == RecvWindow(g, other)
  {
    ReceiveReports(f, id, bytes);
    CreditIff(Receive(f, id, bytes).0, x, increment);
  }

  // ---------- credit ----------

  /** Credit is accepted exactly up to 2^31 - 1; it then adds to one window and touches nothing else. */
  lemma CreditIff(f: Flow, id: u64, increment: u32)
    ensures var (g, r) := UpdateSend(f, id, increment);
            && (r.Ok? <==> SendWindow(f, id) + increment <= 0x7FFF_FFFF)
            && (r.Err? ==> g == f && r == Err(WindowOverflow))
            && (r.Ok? ==>
                  && (forall x :: SendWindow(g, x) == SendWindow(f, x) + if x == id then increment else 0)
                  && g.send.Keys == (if id == 0 then f.send.Keys else f.send.Keys + {id})
                  && g == f.(connSend := g.connSend, send := g.send))
    ensures var (g, r) := UpdateRecv(f, id, increment);
            && (r.Ok? <==> RecvWindow(f, id) + increment <= 0x7FFF_FFFF)
            && (r.Err? ==> g == f && r == Err(WindowOverflow))
            && (r.Ok? ==>
                  && (forall x :: RecvWindow(g, x) == RecvWindow(f, x) + if x == id then increment else 0)
                  && g.recv.Keys == (if id == 0 then f.recv.Keys else f.recv.Keys + {id})
                  && g == f.(connRecv := g.connRecv, recv := g.recv))
  {
  }

  /** A stream enters with both windows at the initial size and leaves with both, and no other stream is touched. */
  lemma EnterAndLeave(f: Flow, id: u64)
    ensures var (g, r) := InitializeStream(f, id);
            && (r.Ok? <==> id != 0) && (r.Err? ==> g == f && r == Err(StreamZero))
            && (r.Ok? ==>
                  && id in g.send && g.send[id] == f.initialStream && id in g.recv && g.recv[id] == f.initialStream
                  && RemoveStream(g, id) == RemoveStream(f, id))
    ensures var g := RemoveStream(f, id);
            && id !in g.send && id !in g.recv && g == f.(send := g.send, recv := g.recv)
            && (forall x :: x != id ==> SendWindow(g, x) == SendWindow(f, x) && RecvWindow(g, x) == RecvWindow(f, x))
            && (forall x :: x != id ==> (x in g.send <==> x in f.send) && (x in g.recv <==> x in f.recv))
  {
    var g := InitializeStream(f, id).0;
    if id != 0 {
      assert g.send - {id} == f.send - {id} && g.recv - {id} == f.recv - {id};
    }
  }

  // ---------- the threshold is half a single-precision number ----------

  function Power2(n: nat): nat {
    if n == 0 then 1 else 2 * Power2(n - 1)
  }

  function Gap(a: nat, b: nat): nat {
    if a < b then b - a else a - b
  }

  function Scaled(m: nat, e: nat): nat {
    m * Power2(e)
  }

  /** A number of 24 significant bits. */
  ghost predicate Single(x: nat) {
    exists m: nat, e: nat :: m < 0x100_0000 && x == Scaled(m, e)
  }

  /** The spacing of these numbers at `n` as a power of two. */
  function Exponent(n: u32): nat {
    if n < 0x100_0000 then 0 else if n < 0x200_0000 then 1 else if n < 0x400_0000 then 2
    else if n < 0x800_0000 then 3 else if n < 0x1000_0000 then 4 else if n < 0x2000_0000 then 5
    else if n < 0x4000_0000 then 6 else if n < 0x8000_0000 then 7 else 8
  }

  lemma Powers()
    ensures Power2(0) == 1 && Power2(1) == 2 && Power2(2) == 4 && Power2(3) == 8 && Power2(4) == 16
    ensures Power2(5) == 32 && Power2(6) == 64 && Power2(7) == 128 && Power2(8) == 256
  {
    assert Power2(3) == 8 && Power2(6) == 64;
  }

  /** 24 bits reach up to `n`, and no fewer would. */
  lemma SpacingAt(n: u32)
    ensures Ulp(n) == Power2(Exponent(n))
    ensures n < 0x100_0000 * Ulp(n) && (Exponent(n) > 0 ==> 0x80_0000 * Ulp(n) <= n)
  {
    Powers();
  }

  /** Rounding gives a multiple of the spacing; of two equally near ones the even one. */
  lemma RoundsToMultiple(n: nat, ulp: nat) returns (low: nat, rest: nat, q: nat)
    requires ulp > 0
    ensures RoundTo(n, ulp) == q * ulp && low == n / ulp && n == low * ulp + rest && rest < ulp
    ensures (q == low && 2 * rest <= ulp) || (q == low + 1 && 2 * rest >= ulp)
    ensures 2 * rest == ulp ==> q % 2 == 0
  {
    low, rest := n / ulp, n % ulp;
    q := if 2 * rest < ulp || (2 * rest == ulp && low % 2 == 0) then low else low + 1;
  }

  lemma NearerOf(n: nat, low: nat, rest: nat, ulp: nat, rounded: nat, other: nat)
    requires n == low + rest && rest < ulp && (other <= low || other >= low + ulp)
    requires (rounded == low && 2 * rest <= ulp) || (rounded == low + ulp && 2 * rest >= ulp)
    ensures Gap(n, rounded) <= Gap(n, other)
    ensures 2 * Gap(n, rounded) == ulp <==> 2 * rest == ulp
  {
  }

  lemma NextMultiple(low: nat, ulp: nat)
    ensures (low + 1) * ulp == low * ulp + ulp
  {
  }

  /** No multiple of the spacing is nearer than the one rounded to. */
  lemma RoundsToNearest(n: nat, ulp: nat, low: nat, rest: nat, q: nat, k: nat)
    requires n == low * ulp + rest && rest < ulp
    requires (q == low && 2 * rest <= ulp) || (q == low + 1 && 2 * rest >= ulp)
    ensures Gap(n, q * ulp) <= Gap(n, k * ulp)
    ensures 2 * Gap(n, q * ulp) == ulp <==> 2 * rest == ulp
  {
    NextMultiple(low, ulp);
    if k <= low {
      OrderedMultiples(k, low, ulp);
    } else {
      OrderedMultiples(low + 1, k, ulp);
    }
    NearerOf(n, low * ulp, rest, ulp, q * ulp, k * ulp);
  }

  lemma OrderedMultiples(j: nat, k: nat, ulp: nat)
    requires j <= k
    ensures j * ulp <= k * ulp
  {
    assert k * ulp == j * ulp + (k - j) * ulp;
  }

  lemma {:induction false} PowerSum(a: nat, b: nat)
    ensures Power2(a + b) == Power2(a) * Power2(b)
  {
    if a == 0 {
    } else {
      PowerSum(a - 1, b);
      assert 2 * (Power2(a - 1) * Power2(b)) == 2 * Power2(a - 1) * Power2(b);
    }
  }

  lemma {:induction false} PowersGrow(a: nat, b: nat)
    requires a <= b
    ensures Power2(a) <= Power2(b)
    decreases b
  {
    if a < b {
      PowersGrow(a, b - 1);
    }
  }

  lemma Regroup(m: nat, d: nat, x: nat)
    ensures m * Power2(d) * Power2(x) == Scaled(m, d + x)
  {
    PowerSum(d, x);
    Associates(m, Power2(d), Power2(x));
  }

  lemma Associates(a: nat, b: nat, c: nat)
    ensures a * b * c == a * (b * c)
  {
  }

  /** A number of 24 bits is a multiple of the spacing at `n`, or no more than the least number with that spacing. */
  lemma SingleNear(n: u32, m: nat, e: nat) returns (k: nat)
    requires m < 0x100_0000
    ensures Gap(n, k * Ulp(n)) <= Gap(n, Scaled(m, e))
  {
    SpacingAt(n);
    var x := Exponent(n);
    if x <= e {
      k := m * Power2(e - x);
      Regroup(m, e - x, x);
    } else {
      k := 0x80_0000;
      PowersGrow(e, x - 1);
      MoreTimes(m, Power2(e), Power2(x - 1));
      assert Ulp(n) == 2 * Power2(x - 1);
    }
  }

  lemma MoreTimes(m: nat, p: nat, q: nat)
    requires m < 0x100_0000 && p <= q
    ensures m * p <= 0x100_0000 * q
  {
    OrderedMultiples(m, 0x100_0000, p);
  }

  lemma RoundedIsSingle(n: u32, q: nat)
    requires q <= n / Ulp(n) + 1
    ensures Single(q * Ulp(n))
  {
    SpacingAt(n);
    var x := Exponent(n);
    assert n / Ulp(n) < 0x100_0000;
    if q == 0x100_0000 {
      assert q * Ulp(n) == Scaled(0x80_0000, x + 1);
    } else {
      assert q * Ulp(n) == Scaled(q, x);
    }
  }

  /** The `q`-th multiple of the spacing is the single-precision number nearest to `n`, and the even one of two. */
  ghost predicate Nearest(n: u32, q: nat) {
    && Single(q * Ulp(n)) && (2 * Gap(n, q * Ulp(n)) == Ulp(n) ==> q % 2 == 0)
    && forall m: nat, e: nat :: m < 0x100_0000 ==> Gap(n, q * Ulp(n)) <= Gap(n, Scaled(m, e))
  }

  /** The threshold is half the initial window in single precision, rounded down: `ThresholdIsHalf` has the error. */
  lemma ThresholdIsSinglePrecision(n: u32)
    ensures exists q: nat :: Nearest(n, q) && Threshold(n) == q * Ulp(n) / 2
  {
    var low, rest, q := RoundsToMultiple(n, Ulp(n));
    RoundedIsSingle(n, q);
    RoundsToNearest(n, Ulp(n), low, rest, q, 0);
    forall m: nat, e: nat | m < 0x100_0000
      ensures Gap(n, q * Ulp(n)) <= Gap(n, Scaled(m, e))
    {
      var k := SingleNear(n, m, e);
      RoundsToNearest(n, Ulp(n), low, rest, q, k);
    }
    assert Nearest(n, q);
  }
}
