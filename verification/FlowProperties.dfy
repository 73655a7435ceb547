/** What one controller keeps: window bounds across resizes, all-or-nothing reservations, and conservation of credit. */
module FlowProperties {
  import opened Bytes
  import opened FlowControl

  // ---------- reservations ----------

  predicate Blocked(events: seq<Event>) {
    events != [] && events[0].FlowControlBlocked?
  }

  /** A refused reservation changes nothing; a granted one takes the bytes from both levels. */
  lemma ReserveAllOrNothing(f: Flow, id: u64, bytes: u32)
    ensures Blocked(Reserve(f, id, bytes).1) ==> Reserve(f, id, bytes).0 == f && |Reserve(f, id, bytes).1| == 1
    ensures !Blocked(Reserve(f, id, bytes).1) ==>
              && SendWindow(Reserve(f, id, bytes).0, 0) == SendWindow(f, 0) - bytes
              && SendWindow(Reserve(f, id, bytes).0, id) == SendWindow(f, id) - bytes
              && Reserve(f, id, bytes).0.totalSent == f.totalSent + bytes
              && forall other :: other != id && other != 0 ==>
                   SendWindow(Reserve(f, id, bytes).0, other) == SendWindow(f, other)
  {
  }

  /** A reservation is granted exactly when `CanSend` says so, except that no bytes may be "sent" on an unknown stream. */
  lemma GrantedIffCanSend(f: Flow, id: u64, bytes: u32)
    ensures (!Blocked(Reserve(f, id, bytes).1) <==> CanSend(f, id, bytes))
       <==> !(id != 0 && id !in f.send && bytes == 0)
  {
  }

  /**
    The effective window is the largest reservation that is granted, and the most that `CanSend` allows on a
    known stream; on an unknown one the two agree except about sending nothing.
   */
  lemma EffectiveWindowIsLargest(f: Flow, id: u64, bytes: u32)
    ensures bytes <= EffectiveSendWindow(f, id) <==> !Blocked(Reserve(f, id, bytes).1)
    ensures (bytes <= EffectiveSendWindow(f, id) <==> CanSend(f, id, bytes))
       <==> !(id != 0 && id !in f.send && bytes == 0)
  {
  }

  /** The exception: reserving nothing on an unknown stream makes the stream known, with an empty window. */
  lemma EmptyReservationCreatesStream(f: Flow, id: u64)
    requires id != 0 && id !in f.send
    ensures !CanSend(f, id, 0) && CanSend(Reserve(f, id, 0).0, id, 0)
  {
  }

  /** Credit that arrives after a stream was removed makes the stream known again, with that credit as its window. */
  lemma LateCreditRecreates(f: Flow, id: u64, increment: u32)
    requires id != 0 && increment <= MAX_WINDOW_SIZE
    ensures UpdateSend(RemoveStream(f, id), id, increment)
         == (f.(send := f.send[id := increment], recv := f.recv - {id}), Ok(()))
  {
    assert (f.send - {id})[id := increment] == f.send[id := increment];
  }

  // ---------- errors that leave a change behind ----------

  /**
    Received data is refused exactly when a level has no room for it; the refusal changes nothing exactly when
    the connection refuses. A refusal by the stream leaves the connection charged.
   */
  lemma RefusedReceptionUnchangedIff(f: Flow, id: u64, bytes: u32)
    ensures Receive(f, id, bytes).1.Err? <==> f.connRecv < bytes || (id != 0 && Get(f.recv, id) < bytes)
    ensures Receive(f, id, bytes).1.Err? ==> (Receive(f, id, bytes).0 == f <==> f.connRecv < bytes)
    ensures Receive(f, id, bytes).1.Err? && f.connRecv >= bytes ==>
              Receive(f, id, bytes).0 == f.(connRecv := f.connRecv - bytes, totalReceived := f.totalReceived + bytes)
  {
  }

  /** One byte for a stream that was never initialised. */
  lemma RefusedReceptionCharges(f: Flow, id: u64)
    requires f == New(1024, 1024) && id != 0
    ensures Receive(f, id, 1) == (f.(connRecv := 1023, totalReceived := 1), Err(ReceiveWindowExceeded(id)))
  {
  }

  /**
    A resize fails exactly on a size out of range; the failure changes nothing exactly when the connection size
    is absent, out of range, or the one in force with no window above the limit.
   */
  lemma FailedResizeUnchangedIff(f: Flow, conn: Option<u32>, stream: Option<u32>)
    ensures Resize(f, conn, stream).1.Err? <==>
            (conn.Some? && !SizeAllowed(conn.value)) || (stream.Some? && !SizeAllowed(stream.value))
    ensures Resize(f, conn, stream).1.Err? ==>
              (Resize(f, conn, stream).0 == f <==>
                conn.None? || !SizeAllowed(conn.value)
                || (conn.value == f.initialConn && f.connSend <= MAX_WINDOW_SIZE && f.connRecv <= MAX_WINDOW_SIZE))
  {
  }

  /** A good connection size with a bad stream size. */
  lemma FailedResizeResizes(f: Flow)
    requires f == New(1024, 1024)
    ensures Resize(f, Some(2048), Some(1)).1 == Err(WindowSizeOutOfRange)
    ensures Resize(f, Some(2048), Some(1)).0 == f.(initialConn := 2048, connSend := 2048, connRecv := 2048)
  {
  }

  // ---------- windows stay within the limit ----------

  ghost predicate WithinLimit(windows: map<u64, u32>) {
    forall id :: id in windows ==> windows[id] <= MAX_WINDOW_SIZE
  }

  ghost predicate Bounded(f: Flow) {
    && f.connSend <= MAX_WINDOW_SIZE && f.connRecv <= MAX_WINDOW_SIZE
    && f.initialConn <= MAX_WINDOW_SIZE && f.initialStream <= MAX_WINDOW_SIZE
    && WithinLimit(f.send) && WithinLimit(f.recv)
    && 0 !in f.send && 0 !in f.recv
  }

  datatype Op =
    | Initialize(id: u64) | Remove(id: u64)
    | Send(id: u64, bytes: u32) | Got(id: u64, bytes: u32)
    | GrantSend(id: u64, increment: u32) | GrantRecv(id: u64, increment: u32)
    | ChangeSizes(conn: Option<u32>, stream: Option<u32>)
    | Restart

  function Step(f: Flow, op: Op): Flow {
    match op
    case Initialize(id) => InitializeStream(f, id).0
    case Remove(id) => RemoveStream(f, id)
    case Send(id, bytes) => Reserve(f, id, bytes).0
    case Got(id, bytes) => Receive(f, id, bytes).0
    case GrantSend(id, increment) => UpdateSend(f, id, increment).0
    case GrantRecv(id, increment) => UpdateRecv(f, id, increment).0
    case ChangeSizes(conn, stream) => Resize(f, conn, stream).0
    case Restart => New(f.initialConn, f.initialStream)
  }

  function Run(f: Flow, ops: seq<Op>): Flow {
    if ops == [] then f else Step(Run(f, ops[..|ops| - 1]), ops[|ops| - 1])
  }

  /** The difference of two windows within the limit. */
  predicate Difference(diff: int) {
    -diff <= MAX_WINDOW_SIZE && diff <= MAX_WINDOW_SIZE
  }

  /** Within the limit the 32-bit cast of a resize drops nothing: the window is moved and clamped. */
  lemma ShiftNeverTruncates(window: u32, diff: int)
    requires window <= MAX_WINDOW_SIZE && Difference(diff)
    ensures Shift(window, diff)
         == if window + diff < 0 then 0 else if window + diff > MAX_WINDOW_SIZE then MAX_WINDOW_SIZE else window + diff
  {
  }

  /** Moving a window forth and back restores it exactly when the first move was not clamped. */
  lemma ShiftUndoneIff(window: u32, there: int, back: int)
    requires window <= MAX_WINDOW_SIZE && Difference(there) && back == -there
    ensures Shift(Shift(window, there), back) == window <==> 0 <= window + there <= MAX_WINDOW_SIZE
  {
    ShiftNeverTruncates(window, there);
    ShiftNeverTruncates(Shift(window, there), back);
  }

  lemma StepBounded(f: Flow, op: Op)
    requires Bounded(f)
    ensures Bounded(Step(f, op))
  {
  }

  /** Started within the limit, every window stays within it in every run, resizes included. */
  lemma {:induction false} RunBounded(f: Flow, ops: seq<Op>)
    requires Bounded(f)
    ensures Bounded(Run(f, ops))
  {
    if ops == [] {
    } else {
      RunBounded(f, ops[..|ops| - 1]);
      StepBounded(Run(f, ops[..|ops| - 1]), ops[|ops| - 1]);
    }
  }

  // ---------- conservation at the connection level ----------

  /** The credit an operation adds to a window of the connection. */
  function ConnSendCredit(f: Flow, op: Op): nat {
    if op.GrantSend? && op.id == 0 && UpdateSend(f, 0, op.increment).1.Ok? then op.increment else 0
  }

  function ConnRecvCredit(f: Flow, op: Op): nat {
    if op.GrantRecv? && op.id == 0 && UpdateRecv(f, 0, op.increment).1.Ok? then op.increment else 0
  }

  /** All the credit the connection's send window was given: what it started with, or was reset to, and the increments. */
  function ConnSendGiven(f: Flow, ops: seq<Op>): nat {
    if ops == [] then f.connSend + f.totalSent
    else if ops[|ops| - 1].Restart? then Run(f, ops[..|ops| - 1]).initialConn
    else ConnSendGiven(f, ops[..|ops| - 1]) + ConnSendCredit(Run(f, ops[..|ops| - 1]), ops[|ops| - 1])
  }

  function ConnRecvGiven(f: Flow, ops: seq<Op>): nat {
    if ops == [] then f.connRecv + f.totalReceived
    else if ops[|ops| - 1].Restart? then Run(f, ops[..|ops| - 1]).initialConn
    else ConnRecvGiven(f, ops[..|ops| - 1]) + ConnRecvCredit(Run(f, ops[..|ops| - 1]), ops[|ops| - 1])
  }

  predicate NoResize(ops: seq<Op>) {
    forall op :: op in ops ==> !op.ChangeSizes?
  }

  /**
    In every run without a resize, what is left of the connection's windows and what was sent or received
    add up to the credit given since the start or the last reset: also when data was refused at the stream level.
   */
  lemma {:induction false} ConnectionConserved(f: Flow, ops: seq<Op>)
    requires NoResize(ops)
    ensures Run(f, ops).connSend + Run(f, ops).totalSent == ConnSendGiven(f, ops)
    ensures Run(f, ops).connRecv + Run(f, ops).totalReceived == ConnRecvGiven(f, ops)
  {
    if ops == [] {
    } else {
      var front, last := ops[..|ops| - 1], ops[|ops| - 1];
      ConnectionConserved(f, front);
      if !last.Restart? {
        ConnectionStep(Run(f, front), last);
      }
    }
  }

  lemma ConnectionStep(f: Flow, op: Op)
    requires !op.ChangeSizes? && !op.Restart?
    ensures Step(f, op).connSend + Step(f, op).totalSent == f.connSend + f.totalSent + ConnSendCredit(f, op)
    ensures Step(f, op).connRecv + Step(f, op).totalReceived == f.connRecv + f.totalReceived + ConnRecvCredit(f, op)
  {
  }

  // ---------- conservation over the streams ----------

  /**
    The credit each known stream was given, in the order the streams became known: the initial window plus the
    increments accepted. Also the bytes sent on the connection itself, and the bytes sent on streams whose
    windows were removed or started over since.
   */
  datatype Ledger = Ledger(order: seq<u64>, granted: map<u64, int>, direct: nat, retired: int)

  /** What the listed streams have spent: credit given minus window left. */
  function Spent(order: seq<u64>, granted: map<u64, int>, send: map<u64, u32>): int
    requires forall i :: 0 <= i < |order| ==> order[i] in granted && order[i] in send
  {
    if order == [] then 0
    else granted[order[0]] - send[order[0]] + Spent(order[1..], granted, send)
  }

  function Without(order: seq<u64>, id: u64): seq<u64> {
    if order == [] then []
    else if order[0] == id then order[1..]
    else [order[0]] + Without(order[1..], id)
  }

  /** A stream is given credit; one that was unknown becomes known by it. */
  function Credit(l: Ledger, id: u64, credit: nat): Ledger {
    if id in l.granted then l.(granted := l.granted[id := l.granted[id] + credit])
    else l.(order := l.order + [id], granted := l.granted[id := credit])
  }

  /** A known stream's windows start over: what it had spent is settled. */
  function StartOver(l: Ledger, id: u64, window: u32, initial: u32): Ledger
    requires id in l.granted
  {
    l.(granted := l.granted[id := initial], retired := l.retired + l.granted[id] - window)
  }

  function Account(l: Ledger, f: Flow, op: Op): Ledger
    requires !op.ChangeSizes?
  {
    match op
    case Initialize(id) =>
      if id == 0 then l
      else if id in l.granted then StartOver(l, id, Get(f.send, id), f.initialStream)
      else Credit(l, id, f.initialStream)
    case Remove(id) =>
      if id in l.granted then
        Ledger(Without(l.order, id), l.granted - {id}, l.direct, l.retired + l.granted[id] - Get(f.send, id))
      else l
    case Send(id, bytes) =>
      if Blocked(Reserve(f, id, bytes).1) then l
      else if id == 0 then l.(direct := l.direct + bytes)
      else Credit(l, id, 0)
    case GrantSend(id, increment) =>
      if id == 0 || UpdateSend(f, id, increment).1.Err? then l else Credit(l, id, increment)
    case Got(_, _) => l
    case GrantRecv(_, _) => l
    case Restart => Ledger([], map[], 0, 0)
  }

  ghost predicate Distinct(order: seq<u64>) {
    forall i, j :: 0 <= i < j < |order| ==> order[i] != order[j]
  }

  ghost predicate Lists(l: Ledger, f: Flow) {
    && Distinct(l.order)
    && (forall id :: id in l.order <==> id in f.send)
    && (forall id :: id in l.order <==> id in l.granted)
  }

  /** The bytes sent are those sent on the connection, by removed streams and by the streams known. */
  ghost predicate Balanced(l: Ledger, f: Flow) {
    Lists(l, f) && f.totalSent == l.direct + l.retired + Spent(l.order, l.granted, f.send)
  }

  lemma {:induction false} SpentSame(
    order: seq<u64>, granted: map<u64, int>, send: map<u64, u32>, granted': map<u64, int>, send': map<u64, u32>)
    requires forall i :: 0 <= i < |order| ==> order[i] in granted && order[i] in send
    requires forall i :: 0 <= i < |order| ==> order[i] in granted' && order[i] in send'
    requires forall i :: 0 <= i < |order| ==>
               granted'[order[i]] - send'[order[i]] == granted[order[i]] - send[order[i]]
    ensures Spent(order, granted', send') == Spent(order, granted, send)
  {
    if order == [] {
    } else {
      SpentSame(order[1..], granted, send, granted', send');
    }
  }

  /** Taking bytes from one stream's window adds them to what was spent. */
  lemma {:induction false} SpentCharge(order: seq<u64>, granted: map<u64, int>, send: map<u64, u32>, id: u64, window: u32)
    requires Distinct(order) && id in order
    requires forall i :: 0 <= i < |order| ==> order[i] in granted && order[i] in send
    ensures Spent(order, granted, send[id := window]) == Spent(order, granted, send) + send[id] - window
  {
    if order[0] == id {
      SpentSame(order[1..], granted, send, granted, send[id := window]);
    } else {
      SpentCharge(order[1..], granted, send, id, window);
    }
  }

  lemma {:induction false} SpentAppend(order: seq<u64>, granted: map<u64, int>, send: map<u64, u32>, id: u64)
    requires forall i :: 0 <= i < |order| ==> order[i] in granted && order[i] in send
    requires id in granted && id in send
    ensures Spent(order + [id], granted, send) == Spent(order, granted, send) + granted[id] - send[id]
  {
    if order == [] {
      assert [] + [id] == [id];
    } else {
      SpentAppend(order[1..], granted, send, id);
      assert (order + [id])[1..] == order[1..] + [id];
    }
  }

  lemma DistinctCons(id: u64, rest: seq<u64>)
    requires Distinct(rest) && id !in rest
    ensures Distinct([id] + rest)
    ensures forall x :: x in [id] + rest <==> x == id || x in rest
  {
    assert forall i :: 0 <= i < |rest| ==> rest[i] in rest;
  }

  lemma {:induction false} WithoutLists(order: seq<u64>, id: u64)
    requires Distinct(order)
    ensures Distinct(Without(order, id))
    ensures forall x :: x in Without(order, id) <==> x in order && x != id
  {
    if order == [] {
    } else {
      assert forall x :: x in order <==> x == order[0] || x in order[1..];
      if order[0] != id {
        WithoutLists(order[1..], id);
        DistinctCons(order[0], Without(order[1..], id));
      }
    }
  }

  lemma {:induction false} SpentWithout(order: seq<u64>, granted: map<u64, int>, send: map<u64, u32>, id: u64)
    requires Distinct(order) && id in order
    requires forall i :: 0 <= i < |order| ==> order[i] in granted && order[i] in send
    ensures forall x :: x in Without(order, id) ==> x in granted && x in send
    ensures Spent(Without(order, id), granted, send) == Spent(order, granted, send) - granted[id] + send[id]
  {
    WithoutLists(order, id);
    if order[0] != id {
      SpentWithout(order[1..], granted, send, id);
      assert Without(order, id)[1..] == Without(order[1..], id);
    }
  }

  lemma ListsIndexed(l: Ledger, f: Flow)
    requires Lists(l, f)
    ensures forall i :: 0 <= i < |l.order| ==> l.order[i] in l.granted && l.order[i] in f.send
  {
    forall i | 0 <= i < |l.order|
      ensures l.order[i] in l.granted && l.order[i] in f.send
    {
      assert l.order[i] in l.order;
    }
  }

  /** Credit that widens the window by as much, the window of an unknown stream counting as 0, changes nothing spent. */
  lemma CreditBalanced(l: Ledger, f: Flow, g: Flow, id: u64, credit: u32)
    requires Balanced(l, f) && g.totalSent == f.totalSent
    requires Get(f.send, id) + credit < TWO_TO_32 && g.send == f.send[id := Get(f.send, id) + credit]
    ensures Balanced(Credit(l, id, credit), g)
  {
    ListsIndexed(l, f);
    var l' := Credit(l, id, credit);
    assert id in l.granted <==> id in f.send by {
      assert id in l.granted <==> id in l.order;
    }
    if id in f.send {
      assert forall x :: x in l'.order <==> x in g.send;
      SpentSame(l.order, l.granted, f.send, l'.granted, g.send);
    } else {
      assert id !in l.order;
      assert forall i :: 0 <= i < |l.order| ==> l.order[i] != id;
      assert forall x :: x in l'.order <==> x in l.order || x == id;
      SpentSame(l.order, l.granted, f.send, l'.granted, g.send);
      SpentAppend(l.order, l'.granted, g.send, id);
    }
  }

  lemma StartOverBalanced(l: Ledger, f: Flow, id: u64)
    requires Balanced(l, f) && id in f.send && id != 0
    ensures Balanced(Account(l, f, Initialize(id)), Step(f, Initialize(id)))
  {
    ListsIndexed(l, f);
    assert id in l.order;
    var l', g := Account(l, f, Initialize(id)), Step(f, Initialize(id));
    SpentReplace(l.order, l.granted, f.send, id, l'.granted, g.send);
  }

  /** Replacing one stream's credit and window replaces what it had spent. */
  lemma {:induction false} SpentReplace(
    order: seq<u64>, granted: map<u64, int>, send: map<u64, u32>, id: u64,
    granted': map<u64, int>, send': map<u64, u32>)
    requires Distinct(order) && id in order
    requires forall i :: 0 <= i < |order| ==> order[i] in granted && order[i] in send
    requires forall i :: 0 <= i < |order| ==> order[i] in granted' && order[i] in send'
    requires forall x :: x != id && x in granted && x in send ==>
               x in granted' && x in send' && granted'[x] == granted[x] && send'[x] == send[x]
    ensures Spent(order, granted', send')
         == Spent(order, granted, send) - granted[id] + send[id] + granted'[id] - send'[id]
  {
    if order[0] == id {
      SpentSame(order[1..], granted, send, granted', send');
    } else {
      SpentReplace(order[1..], granted, send, id, granted', send');
    }
  }

  lemma RemoveBalanced(l: Ledger, f: Flow, id: u64)
    requires Balanced(l, f) && id in f.send
    ensures Balanced(Account(l, f, Remove(id)), Step(f, Remove(id)))
  {
    ListsIndexed(l, f);
    assert id in l.order;
    WithoutLists(l.order, id);
    SpentWithout(l.order, l.granted, f.send, id);
    var l', g := Account(l, f, Remove(id)), Step(f, Remove(id));
    ListsIndexed(l', g);
    SpentSame(l'.order, l.granted, f.send, l'.granted, g.send);
  }

  lemma SendBalanced(l: Ledger, f: Flow, id: u64, bytes: u32)
    requires Balanced(l, f)
    ensures Balanced(Account(l, f, Send(id, bytes)), Step(f, Send(id, bytes)))
  {
    ListsIndexed(l, f);
    if id != 0 && !Blocked(Reserve(f, id, bytes).1) {
      if id in f.send {
        assert id in l.order;
        SpentCharge(l.order, l.granted, f.send, id, f.send[id] - bytes);
        assert Credit(l, id, 0) == l by {
          assert l.granted[id := l.granted[id] + 0] == l.granted;
        }
      } else {
        assert bytes == 0;
        CreditBalanced(l, f, Step(f, Send(id, bytes)), id, 0);
      }
    }
  }

  lemma InitializeBalanced(l: Ledger, f: Flow, id: u64)
    requires Balanced(l, f) && id != 0
    ensures Balanced(Account(l, f, Initialize(id)), Step(f, Initialize(id)))
  {
    assert id in l.granted <==> id in l.order;
    if id in f.send {
      StartOverBalanced(l, f, id);
    } else {
      CreditBalanced(l, f, Step(f, Initialize(id)), id, f.initialStream);
    }
  }

  lemma RemoveAnyBalanced(l: Ledger, f: Flow, id: u64)
    requires Balanced(l, f)
    ensures Balanced(Account(l, f, Remove(id)), Step(f, Remove(id)))
  {
    assert id in l.granted <==> id in l.order;
    if id in f.send {
      RemoveBalanced(l, f, id);
    } else {
      assert f.send - {id} == f.send;
    }
  }

  lemma StepBalanced(l: Ledger, f: Flow, op: Op)
    requires Balanced(l, f) && !op.ChangeSizes?
    ensures Balanced(Account(l, f, op), Step(f, op))
  {
    match op
    case Initialize(id) =>
      if id != 0 {
        InitializeBalanced(l, f, id);
      }
    case Remove(id) => RemoveAnyBalanced(l, f, id);
    case Send(id, bytes) => SendBalanced(l, f, id, bytes);
    case GrantSend(id, increment) =>
      if id != 0 && UpdateSend(f, id, increment).1.Ok? {
        CreditBalanced(l, f, Step(f, op), id, increment);
      }
    case Got(_, _) =>
    case GrantRecv(_, _) =>
    case Restart =>
  }

  function Accounts(f: Flow, ops: seq<Op>): Ledger
    requires NoResize(ops)
  {
    if ops == [] then Ledger([], map[], 0, 0)
    else
      Account(Accounts(f, ops[..|ops| - 1]), Run(f, ops[..|ops| - 1]), ops[|ops| - 1])
  }

  /**
    In every run of a new controller without a resize, the bytes counted as sent are those sent on the
    connection itself, plus, stream by stream, the initial window and the increments accepted minus the window
    left, plus what the streams removed or started over had spent by then.
   */
  lemma {:induction false} StreamsConserved(conn: u32, stream: u32, ops: seq<Op>)
    requires NoResize(ops)
    ensures Balanced(Accounts(New(conn, stream), ops), Run(New(conn, stream), ops))
  {
    var f := New(conn, stream);
    if ops == [] {
    } else {
      var front, last := ops[..|ops| - 1], ops[|ops| - 1];
      StreamsConserved(conn, stream, front);
      StepBalanced(Accounts(f, front), Run(f, front), last);
    }
  }
}
