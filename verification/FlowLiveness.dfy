/**
  The receiver that widens a window as soon as its controller asks for it. Stream windows stay above the update
  threshold, and once everything in flight has arrived every stream can send, except for what data that arrived
  before its stream was initialised has cost the stream and the connection.
 */
module FlowLiveness {
  import opened Bytes
  import opened FlowControl
  import opened FlowProperties
  import opened FlowProtocol

  /** An event that asks for an update of the connection's window or of that of a stream the receiver initialised. */
  predicate Grantable(n: System, e: Event) {
    e.WindowUpdateNeeded? && (e.streamId == 0 || e.streamId in n.accepted)
  }

  /** Widens the windows that the events ask for, one after the other. */
  function GrantAll(n: System, events: seq<Event>): System
    decreases |events|
  {
    if events == [] then n
    else
      var e := events[0];
      if Grantable(n, e)
      then GrantAll(Perform(n, Grant(e.streamId, e.increment)), events[1..])
      else GrantAll(n, events[1..])
  }

  /** The events of the receiver's controller when message `i` arrives. */
  function Events(n: System, i: nat): seq<Event>
    requires i < |n.data|
  {
    var r := Receive(n.receiver, n.data[i].id, n.data[i].amount).1;
    if r.Ok? then r.value else []
  }

  /**
    Steps of the eager protocol: every delivery is followed by the updates it calls for and there are no others,
    either side may initialise a stream first, and streams are neither removed nor started over.
   */
  predicate EagerlyEnabled(n: System, a: Action) {
    match a
    case Open(id) => Enabled(n, a) && id !in n.sender.send
    case Accept(id) => Enabled(n, a) && id !in n.accepted
    case Transmit(id, _) => id == 0 || id in n.sender.send
    case Deliver(_) => Enabled(n, a)
    case DeliverCredit(_) => Enabled(n, a)
    case _ => false
  }

  /** Data arrives only once its stream is initialised. */
  predicate Timely(n: System, a: Action)
    requires Enabled(n, a)
  {
    a.Deliver? ==> n.data[a.i].id == 0 || n.data[a.i].id in n.accepted
  }

  function PerformEagerly(n: System, a: Action): System
    requires EagerlyEnabled(n, a)
  {
    if a.Deliver? then GrantAll(Perform(n, a), Events(n, a.i)) else Perform(n, a)
  }

  /** The receiver's stream windows are above the threshold; no window is above its initial size. */
  ghost predicate Stocked(n: System, conn: u32, stream: u32) {
    && n.receiver.initialConn == conn && n.receiver.initialStream == stream
    && 0 < conn <= MAX_WINDOW_SIZE && 0 < stream <= MAX_WINDOW_SIZE
    && n.disturbed == {} && (forall c :: c in n.credits ==> c.id == 0 || c.id in n.sender.send)
    && n.receiver.connRecv <= conn
    && forall id :: id in n.accepted ==> Threshold(stream) < Get(n.receiver.recv, id) <= stream
  }

  /** The connection's window is above the threshold too, and no data was refused. */
  ghost predicate Topped(n: System, conn: u32, stream: u32) {
    Stocked(n, conn, stream) && Threshold(conn) < n.receiver.connRecv && n.lost == []
  }

  /** One window after `bytes` were taken from it and, if need be, it was topped up. */
  function Refilled(window: u32, bytes: u32, initial: u32): u32
    requires bytes <= window
  {
    if NeedsUpdate(window - bytes, initial) then initial else window - bytes
  }

  /** At most `count` updates were sent, for the connection or for one stream. */
  predicate NewCredits(n: System, m: System, count: nat, id: u64) {
    |m.credits| <= |n.credits| + count && forall c :: c in m.credits ==> c in n.credits || c.id == 0 || c.id == id
  }

  lemma GrantRestores(n: System, id: u64, current: u32, initial: u32)
    requires current == RecvWindow(n.receiver, id) && NeedsUpdate(current, initial) && initial <= MAX_WINDOW_SIZE
    requires id == 0 || id in n.accepted
    ensures Perform(n, Grant(id, UpdateSize(current, initial)))
         == n.(receiver := if id == 0 then n.receiver.(connRecv := initial)
                           else n.receiver.(recv := n.receiver.recv[id := initial]),
               credits := n.credits + [Message(id, UpdateSize(current, initial))])
  {
    ThresholdIsHalf(initial);
  }

  lemma GrantOne(n: System, e: Event)
    ensures GrantAll(n, [e])
         == if Grantable(n, e) then Perform(n, Grant(e.streamId, e.increment)) else n
  {
    assert [e][1..] == [];
  }

  lemma GrantTwo(n: System, d: Event, e: Event)
    ensures GrantAll(n, [d] + [e]) == GrantAll(GrantAll(n, [d]), [e])
  {
    assert ([d] + [e])[1..] == [e];
    assert [d][1..] == [];
  }

  lemma GrantInTurn(n: System, a: seq<Event>, b: seq<Event>)
    requires |a| <= 1 && |b| <= 1
    ensures GrantAll(n, a + b) == GrantAll(GrantAll(n, a), b)
  {
    if a == [] {
      assert a + b == b;
    } else if b == [] {
      assert a + b == a;
    } else {
      assert a == [a[0]] && b == [b[0]];
      GrantTwo(n, a[0], b[0]);
    }
  }

  /** What the grants of one window's update event do, given that the window is known to the receiver. */
  lemma GrantUpdate(n: System, id: u64, current: u32, initial: u32)
    requires current == RecvWindow(n.receiver, id) && initial <= MAX_WINDOW_SIZE
    requires id == 0 || (id in n.receiver.recv && id in n.accepted)
    ensures var m := GrantAll(n, UpdateEvent(id, current, initial));
            && m.sender == n.sender && m.data == n.data && NewCredits(n, m, 1, id)
            && m.accepted == n.accepted && m.lost == n.lost && m.disturbed == n.disturbed
            && m.receiver == if !NeedsUpdate(current, initial) then n.receiver
                             else if id == 0 then n.receiver.(connRecv := initial)
                             else n.receiver.(recv := n.receiver.recv[id := initial])
  {
    if NeedsUpdate(current, initial) {
      GrantOne(n, WindowUpdateNeeded(id, UpdateSize(current, initial)));
      GrantRestores(n, id, current, initial);
    }
  }

  /** What an eager delivery leaves: the windows it drained are refilled, nothing else of the receiver changes. */
  function Arrived(r: Flow, m: Message, conn: u32, stream: u32): Flow
    requires m.amount <= r.connRecv && (m.id != 0 ==> m.id in r.recv && m.amount <= r.recv[m.id])
  {
    r.(connRecv := Refilled(r.connRecv, m.amount, conn),
       totalReceived := r.totalReceived + m.amount,
       recv := if m.id == 0 then r.recv else r.recv[m.id := Refilled(r.recv[m.id], m.amount, stream)])
  }

  lemma ConnectionDelivery(n: System, i: nat, conn: u32, stream: u32)
    requires Stocked(n, conn, stream) && EagerlyEnabled(n, Deliver(i))
    requires n.data[i].id == 0 && n.data[i].amount <= n.receiver.connRecv
    ensures var m := PerformEagerly(n, Deliver(i));
            && m.sender == n.sender && m.data == FlowProtocol.Remove(n.data, i) && NewCredits(n, m, 1, 0)
            && m.accepted == n.accepted && m.lost == n.lost && m.disturbed == n.disturbed
            && m.receiver == Arrived(n.receiver, n.data[i], conn, stream)
  {
    GrantUpdate(Perform(n, Deliver(i)), 0, n.receiver.connRecv - n.data[i].amount, conn);
  }

  lemma StreamDelivery(n: System, i: nat, conn: u32, stream: u32)
    requires Stocked(n, conn, stream) && EagerlyEnabled(n, Deliver(i))
    requires n.data[i].id in n.accepted && n.data[i].id != 0 && n.data[i].id in n.receiver.recv
    requires n.data[i].amount <= n.receiver.connRecv && n.data[i].amount <= n.receiver.recv[n.data[i].id]
    ensures var m := PerformEagerly(n, Deliver(i));
            && m.sender == n.sender && m.data == FlowProtocol.Remove(n.data, i) && NewCredits(n, m, 2, n.data[i].id)
            && m.accepted == n.accepted && m.lost == n.lost && m.disturbed == n.disturbed
            && m.receiver == Arrived(n.receiver, n.data[i], conn, stream)
  {
    var id, bytes := n.data[i].id, n.data[i].amount;
    var d := Perform(n, Deliver(i));
    var connLeft, left := n.receiver.connRecv - bytes, n.receiver.recv[id] - bytes;
    GrantInTurn(d, UpdateEvent(id, left, stream), UpdateEvent(0, connLeft, conn));
    GrantUpdate(d, id, left, stream);
    GrantUpdate(GrantAll(d, UpdateEvent(id, left, stream)), 0, connLeft, conn);
  }

  lemma GrantSkipped(n: System, id: u64, current: u32, initial: u32)
    requires id != 0 && id !in n.accepted
    ensures GrantAll(n, UpdateEvent(id, current, initial)) == n
  {
    if NeedsUpdate(current, initial) {
      GrantOne(n, WindowUpdateNeeded(id, UpdateSize(current, initial)));
    }
  }

  /** Data that outruns its stream: it is refused, charged to the connection, and calls for no update. */
  lemma RefusedDelivery(n: System, i: nat, conn: u32, stream: u32)
    requires Conserved(n) && Stocked(n, conn, stream) && EagerlyEnabled(n, Deliver(i)) && !InTime(n, n.data[i])
    ensures n.data[i].amount <= n.receiver.connRecv
    ensures PerformEagerly(n, Deliver(i))
         == n.(receiver := n.receiver.(connRecv := n.receiver.connRecv - n.data[i].amount,
                                       totalReceived := n.receiver.totalReceived + n.data[i].amount),
               data := FlowProtocol.Remove(n.data, i), lost := n.lost + [n.data[i]])
  {
    InFlightCovered(n, i);
    AdmittedDataAcceptedIff(n, i);
  }

  /** An empty message for a stream not yet initialised leaves an empty window there; the connection may be topped up. */
  lemma EmptyEarlyDelivery(n: System, i: nat, conn: u32, stream: u32)
    requires Conserved(n) && Stocked(n, conn, stream) && EagerlyEnabled(n, Deliver(i))
    requires n.data[i].id != 0 && n.data[i].id !in n.accepted && n.data[i].amount == 0
    ensures var m := PerformEagerly(n, Deliver(i));
            && m.sender == n.sender && m.data == FlowProtocol.Remove(n.data, i) && NewCredits(n, m, 1, 0)
            && m.accepted == n.accepted && m.lost == n.lost && m.disturbed == n.disturbed
            && m.receiver == n.receiver.(connRecv := Refilled(n.receiver.connRecv, 0, conn),
                                         recv := n.receiver.recv[n.data[i].id := 0])
  {
    var id := n.data[i].id;
    var d := Perform(n, Deliver(i));
    assert Get(n.receiver.recv, id) == 0;
    GrantInTurn(d, UpdateEvent(id, 0, stream), UpdateEvent(0, n.receiver.connRecv, conn));
    GrantSkipped(d, id, 0, stream);
    GrantUpdate(d, 0, n.receiver.connRecv, conn);
  }

  /** The connection's window after a message arrived: topped up if need be, unless the message was refused. */
  function ConnectionAfter(n: System, m: Message, conn: u32): u32
    requires m.amount <= n.receiver.connRecv
  {
    if InTime(n, m) then Refilled(n.receiver.connRecv, m.amount, conn) else n.receiver.connRecv - m.amount
  }

  /** What any arrival leaves. */
  ghost predicate AfterArrival(n: System, m: System, msg: Message, conn: u32, stream: u32)
    requires msg.amount <= n.receiver.connRecv
  {
    && m.sender == n.sender && m.accepted == n.accepted && m.disturbed == n.disturbed
    && NewCredits(n, m, 2, msg.id)
    && m.lost == (if InTime(n, msg) then n.lost else n.lost + [msg])
    && m.receiver.initialConn == n.receiver.initialConn && m.receiver.initialStream == n.receiver.initialStream
    && m.receiver.connRecv == ConnectionAfter(n, msg, conn)
    && forall id :: id in n.accepted ==>
         if id == msg.id then
           msg.amount <= Get(n.receiver.recv, id)
           && Get(m.receiver.recv, id) == Refilled(Get(n.receiver.recv, id), msg.amount, stream)
         else Get(m.receiver.recv, id) == Get(n.receiver.recv, id)
  }

  /**
    An arrival refills the windows it drained and touches no other stream, sends at most two updates, and takes
    from the connection without refilling it exactly when the data outruns its stream.
   */
  lemma EagerDelivery(n: System, i: nat, conn: u32, stream: u32)
    requires Conserved(n) && Stocked(n, conn, stream) && EagerlyEnabled(n, Deliver(i))
    ensures n.data[i].amount <= n.receiver.connRecv
    ensures AfterArrival(n, PerformEagerly(n, Deliver(i)), n.data[i], conn, stream)
    ensures PerformEagerly(n, Deliver(i)).data == FlowProtocol.Remove(n.data, i)
  {
    InFlightCovered(n, i);
    if n.data[i].id == 0 {
      ConnectionDelivery(n, i, conn, stream);
    } else if n.data[i].id in n.accepted {
      StreamDelivery(n, i, conn, stream);
    } else if n.data[i].amount == 0 {
      EmptyEarlyDelivery(n, i, conn, stream);
    } else {
      RefusedDelivery(n, i, conn, stream);
    }
  }

  lemma EagerDeliveryStocked(n: System, i: nat, conn: u32, stream: u32)
    requires Conserved(n) && Stocked(n, conn, stream) && EagerlyEnabled(n, Deliver(i))
    ensures Stocked(PerformEagerly(n, Deliver(i)), conn, stream)
    ensures InTime(n, n.data[i]) ==> PerformEagerly(n, Deliver(i)).receiver.connRecv > Threshold(conn)
  {
    EagerDelivery(n, i, conn, stream);
    ThresholdIsHalf(conn);
    ThresholdIsHalf(stream);
  }

  lemma {:induction false} GrantAllConserved(n: System, events: seq<Event>)
    requires Conserved(n)
    ensures Conserved(GrantAll(n, events))
    decreases |events|
  {
    if events == [] {
    } else {
      var e := events[0];
      if Grantable(n, e) {
        GrantConserved(n, e.streamId, e.increment);
        GrantAllConserved(Perform(n, Grant(e.streamId, e.increment)), events[1..]);
      } else {
        GrantAllConserved(n, events[1..]);
      }
    }
  }

  /** Any step keeps the stream windows above the threshold. */
  lemma EagerStep(n: System, a: Action, conn: u32, stream: u32)
    requires Conserved(n) && Stocked(n, conn, stream) && EagerlyEnabled(n, a)
    ensures Conserved(PerformEagerly(n, a)) && Stocked(PerformEagerly(n, a), conn, stream)
  {
    PerformConserved(n, a);
    if a.Deliver? {
      GrantAllConserved(Perform(n, a), Events(n, a.i));
      EagerDeliveryStocked(n, a.i, conn, stream);
    } else {
      ThresholdIsHalf(stream);
    }
  }

  /** A timely step keeps the connection's window there too. */
  lemma TimelyStep(n: System, a: Action, conn: u32, stream: u32)
    requires Conserved(n) && Topped(n, conn, stream) && EagerlyEnabled(n, a) && Timely(n, a)
    ensures Topped(PerformEagerly(n, a), conn, stream)
  {
    EagerStep(n, a, conn, stream);
    if a.Deliver? {
      EagerDelivery(n, a.i, conn, stream);
      EagerDeliveryStocked(n, a.i, conn, stream);
    }
  }

  ghost predicate ReachableEagerly(trace: seq<System>, actions: seq<Action>, conn: u32, stream: u32) {
    && |trace| == |actions| + 1
    && trace[0] == Start(conn, stream)
    && forall i :: 0 <= i < |actions| ==>
         EagerlyEnabled(trace[i], actions[i]) && trace[i + 1] == PerformEagerly(trace[i], actions[i])
  }

  ghost predicate AllTimely(trace: seq<System>, actions: seq<Action>) {
    && |trace| == |actions| + 1
    && forall i :: 0 <= i < |actions| ==> Enabled(trace[i], actions[i]) && Timely(trace[i], actions[i])
  }

  /** In every state of the eager protocol credit is conserved and the stream windows are above the threshold. */
  lemma {:induction false} EagerInvariant(trace: seq<System>, actions: seq<Action>, conn: u32, stream: u32, k: nat)
    requires 0 < conn <= MAX_WINDOW_SIZE && 0 < stream <= MAX_WINDOW_SIZE
    requires ReachableEagerly(trace, actions, conn, stream) && k < |trace|
    ensures Conserved(trace[k]) && Stocked(trace[k], conn, stream)
  {
    if k == 0 {
      StartConserved(conn, stream);
    } else {
      EagerInvariant(trace, actions, conn, stream, k - 1);
      EagerStep(trace[k - 1], actions[k - 1], conn, stream);
    }
  }

  // ---------- the connection's window ----------

  /** The bytes refused since the last arrival that was not refused. */
  function RefusedSince(trace: seq<System>, actions: seq<Action>, k: nat): nat
    requires k <= |actions| <= |trace|
    requires forall i :: 0 <= i < k ==> Enabled(trace[i], actions[i])
  {
    if k == 0 then 0
    else
      var n, a := trace[k - 1], actions[k - 1];
      assert Enabled(n, a);
      if !a.Deliver? then RefusedSince(trace, actions, k - 1)
      else if InTime(n, n.data[a.i]) then 0
      else RefusedSince(trace, actions, k - 1) + n.data[a.i].amount
  }

  /** The state after that arrival, or the start. */
  function LastTaken(trace: seq<System>, actions: seq<Action>, k: nat): (j: nat)
    requires k <= |actions| <= |trace|
    requires forall i :: 0 <= i < k ==> Enabled(trace[i], actions[i])
    ensures j <= k
  {
    if k == 0 then 0
    else
      var n, a := trace[k - 1], actions[k - 1];
      assert Enabled(n, a);
      if a.Deliver? && InTime(n, n.data[a.i]) then k else LastTaken(trace, actions, k - 1)
  }

  lemma ConnectionStep(n: System, a: Action, conn: u32, stream: u32)
    requires Conserved(n) && Stocked(n, conn, stream) && EagerlyEnabled(n, a)
    ensures var m := PerformEagerly(n, a);
            if a.Deliver? && InTime(n, n.data[a.i]) then m.receiver.connRecv > Threshold(conn)
            else if a.Deliver? then m.receiver.connRecv + n.data[a.i].amount == n.receiver.connRecv
            else m.receiver.connRecv == n.receiver.connRecv
  {
    if a.Deliver? {
      EagerDelivery(n, a.i, conn, stream);
      EagerDeliveryStocked(n, a.i, conn, stream);
    }
  }

  /**
    Whatever arrives early: after an arrival that is taken the connection's window is above the threshold, and
    until the next one it falls short by exactly the bytes refused.
   */
  lemma {:induction false} ConnectionShortfall(
    trace: seq<System>, actions: seq<Action>, conn: u32, stream: u32, k: nat)
    requires 0 < conn <= MAX_WINDOW_SIZE && 0 < stream <= MAX_WINDOW_SIZE
    requires ReachableEagerly(trace, actions, conn, stream) && k < |trace|
    ensures var taken := trace[LastTaken(trace, actions, k)].receiver.connRecv;
            && Threshold(conn) < taken <= conn
            && trace[k].receiver.connRecv + RefusedSince(trace, actions, k) == taken
            && (trace[k].receiver.connRecv > Threshold(conn) <==> RefusedSince(trace, actions, k) < taken - Threshold(conn))
  {
    EagerInvariant(trace, actions, conn, stream, k);
    if k == 0 {
      ThresholdIsHalf(conn);
    } else {
      ConnectionShortfall(trace, actions, conn, stream, k - 1);
      EagerInvariant(trace, actions, conn, stream, k - 1);
      var n, a := trace[k - 1], actions[k - 1];
      assert EagerlyEnabled(n, a) && trace[k] == PerformEagerly(n, a);
      ConnectionStep(n, a, conn, stream);
    }
  }

  // ---------- nobody waits forever ----------

  predicate Quiet(n: System) {
    n.data == [] && n.credits == []
  }

  /**
    With nothing in flight, what a stream can send is what the receiver's two windows allow, less what the stream
    has lost to early arrivals; at either level nothing else is missing.
   */
  lemma QuietCanSendIff(n: System, id: u64, bytes: u32)
    requires Conserved(n) && Quiet(n) && id in n.sender.send && id !in n.disturbed
    ensures CanSend(n.sender, id, bytes)
       <==> bytes <= n.receiver.connRecv && bytes + TotalFor(n.lost, id) <= RecvOf(n, id)
    ensures !CanSend(n.sender, id, 1) <==> n.receiver.connRecv == 0 || TotalFor(n.lost, id) == RecvOf(n, id)
  {
    assert StreamConserved(n, id);
  }

  /** Up to one byte more than either threshold. */
  predicate Modest(bytes: u32, conn: u32, stream: u32) {
    bytes <= Threshold(conn) + 1 && bytes <= Threshold(stream) + 1
  }

  /** So without early arrivals every stream can then send more than a threshold. */
  lemma QuietMeansSendable(n: System, conn: u32, stream: u32)
    requires Conserved(n) && Topped(n, conn, stream) && Quiet(n)
    ensures n.sender.connSend > Threshold(conn)
    ensures forall id :: id in n.sender.send ==> n.sender.send[id] > Threshold(stream)
    ensures forall id, bytes: u32 :: id in n.sender.send && Modest(bytes, conn, stream) ==> CanSend(n.sender, id, bytes)
  {
    ThresholdIsHalf(stream);
    forall id | id in n.sender.send
      ensures n.sender.send[id] > Threshold(stream)
    {
      assert StreamConserved(n, id);
    }
  }

  /** A message arrives, or the receiver learns of a stream that the sender has opened. */
  predicate Arrival(n: System, a: Action) {
    a.Deliver? || a.DeliverCredit? || (a.Accept? && a.id in n.sender.send)
  }

  /** How many arrivals can still happen if the sender does nothing new. */
  function Outstanding(n: System): nat {
    |n.sender.send.Keys - n.accepted| + 3 * |n.data| + |n.credits|
  }

  lemma AcceptRunsOut(n: System, id: u64)
    requires EagerlyEnabled(n, Accept(id)) && id in n.sender.send
    ensures Outstanding(Perform(n, Accept(id))) < Outstanding(n)
    ensures Perform(n, Accept(id)).sender == n.sender
  {
    var m := Perform(n, Accept(id));
    var left := n.sender.send.Keys - n.accepted;
    assert m.sender.send.Keys - m.accepted == left - {id};
  }

  lemma CreditRunsOut(n: System, i: nat)
    requires Conserved(n) && n.disturbed == {} && EagerlyEnabled(n, DeliverCredit(i))
    requires n.credits[i].id == 0 || n.credits[i].id in n.sender.send
    ensures Outstanding(Perform(n, DeliverCredit(i))) < Outstanding(n)
    ensures Perform(n, DeliverCredit(i)).sender.send.Keys == n.sender.send.Keys
  {
    var m := Perform(n, DeliverCredit(i));
    CreditNeverOverflows(n, i);
    assert m.sender.send.Keys == n.sender.send.Keys;
  }

  lemma DeliveryRunsOut(n: System, i: nat, conn: u32, stream: u32)
    requires Conserved(n) && Stocked(n, conn, stream) && EagerlyEnabled(n, Deliver(i))
    ensures Outstanding(PerformEagerly(n, Deliver(i))) < Outstanding(n)
    ensures PerformEagerly(n, Deliver(i)).sender == n.sender
  {
    EagerDelivery(n, i, conn, stream);
  }

  lemma ArrivalsRunOut(n: System, a: Action, conn: u32, stream: u32)
    requires Conserved(n) && Stocked(n, conn, stream) && EagerlyEnabled(n, a) && Arrival(n, a)
    ensures Outstanding(PerformEagerly(n, a)) < Outstanding(n)
    ensures PerformEagerly(n, a).sender.send.Keys == n.sender.send.Keys
  {
    match a
    case Accept(id) => AcceptRunsOut(n, id);
    case Deliver(i) => DeliveryRunsOut(n, i, conn, stream);
    case DeliverCredit(i) => CreditRunsOut(n, i);
  }

  /** As long as something is in flight, some timely arrival is possible. */
  lemma SomethingArrives(n: System) returns (a: Action)
    requires Conserved(n) && n.disturbed == {} && !Quiet(n)
    ensures EagerlyEnabled(n, a) && Arrival(n, a) && Timely(n, a)
  {
    if n.credits != [] {
      a := DeliverCredit(0);
    } else if n.data[0].id == 0 || n.data[0].id in n.accepted {
      a := Deliver(0);
    } else {
      a := Accept(n.data[0].id);
    }
  }

  /** `trace` follows arrivals only, starting from `n`. */
  ghost predicate Arrivals(n: System, trace: seq<System>, actions: seq<Action>) {
    && |trace| == |actions| + 1
    && trace[0] == n
    && forall i :: 0 <= i < |actions| ==>
         EagerlyEnabled(trace[i], actions[i]) && Arrival(trace[i], actions[i])
         && trace[i + 1] == PerformEagerly(trace[i], actions[i])
  }

  /** Nothing is left that could arrive in time. */
  ghost predicate Exhausted(n: System) {
    forall a :: EagerlyEnabled(n, a) && Timely(n, a) ==> !Arrival(n, a)
  }

  lemma {:induction false} ArrivalsKeep(n: System, trace: seq<System>, actions: seq<Action>, conn: u32, stream: u32)
    requires Conserved(n) && Stocked(n, conn, stream) && Arrivals(n, trace, actions)
    ensures Conserved(trace[|actions|]) && Stocked(trace[|actions|], conn, stream)
    ensures |actions| + Outstanding(trace[|actions|]) <= Outstanding(n)
    ensures trace[|actions|].sender.send.Keys == n.sender.send.Keys
    decreases |actions|
  {
    var k := |actions|;
    if k == 0 {
    } else {
      var front := actions[..k - 1];
      assert forall i :: 0 <= i < k - 1 ==> front[i] == actions[i];
      ArrivalsKeep(n, trace[..k], front, conn, stream);
      var before, a := trace[k - 1], actions[k - 1];
      EagerStep(before, a, conn, stream);
      ArrivalsRunOut(before, a, conn, stream);
    }
  }

  lemma {:induction false} TimelyArrivalsKeep(
    n: System, trace: seq<System>, actions: seq<Action>, conn: u32, stream: u32)
    requires Conserved(n) && Topped(n, conn, stream) && Arrivals(n, trace, actions) && AllTimely(trace, actions)
    ensures Conserved(trace[|actions|]) && Topped(trace[|actions|], conn, stream)
    decreases |actions|
  {
    var k := |actions|;
    if k == 0 {
    } else {
      var front := actions[..k - 1];
      assert forall i :: 0 <= i < k - 1 ==> front[i] == actions[i];
      TimelyArrivalsKeep(n, trace[..k], front, conn, stream);
      EagerStep(trace[k - 1], actions[k - 1], conn, stream);
      TimelyStep(trace[k - 1], actions[k - 1], conn, stream);
    }
  }

  lemma ExhaustedIsQuiet(n: System)
    requires Conserved(n) && n.disturbed == {} && Exhausted(n)
    ensures Quiet(n)
  {
    if !Quiet(n) {
      var a := SomethingArrives(n);
    }
  }

  /**
    Whatever order messages arrive in, early or not: after boundedly many arrivals nothing is left in flight, and
    then each stream can send exactly what the connection's window and its own, less its losses, allow.
   */
  lemma NoDeadlock(n: System, trace: seq<System>, actions: seq<Action>, conn: u32, stream: u32)
    requires Conserved(n) && Stocked(n, conn, stream) && Arrivals(n, trace, actions)
    ensures |actions| + Outstanding(trace[|actions|]) <= Outstanding(n)
    ensures var last := trace[|actions|];
            Exhausted(last) ==>
              && Quiet(last)
              && forall id, bytes: u32 :: id in n.sender.send ==>
                   (CanSend(last.sender, id, bytes)
                    <==> bytes <= last.receiver.connRecv && bytes + TotalFor(last.lost, id) <= RecvOf(last, id))
  {
    var last := trace[|actions|];
    ArrivalsKeep(n, trace, actions, conn, stream);
    if Exhausted(last) {
      ExhaustedIsQuiet(last);
      forall id, bytes: u32 | id in n.sender.send
        ensures CanSend(last.sender, id, bytes)
                <==> bytes <= last.receiver.connRecv && bytes + TotalFor(last.lost, id) <= RecvOf(last, id)
      {
        QuietCanSendIff(last, id, bytes);
      }
    }
  }

  /** No deadlock without early arrivals: then every stream can send more than a threshold. */
  lemma TimelyNeverDeadlocks(n: System, trace: seq<System>, actions: seq<Action>, conn: u32, stream: u32)
    requires Conserved(n) && Topped(n, conn, stream) && Arrivals(n, trace, actions) && AllTimely(trace, actions)
    ensures |actions| + Outstanding(trace[|actions|]) <= Outstanding(n)
    ensures Exhausted(trace[|actions|]) ==>
              && Quiet(trace[|actions|])
              && forall id, bytes: u32 :: id in n.sender.send && Modest(bytes, conn, stream) ==>
                   CanSend(trace[|actions|].sender, id, bytes)
  {
    var last := trace[|actions|];
    ArrivalsKeep(n, trace, actions, conn, stream);
    TimelyArrivalsKeep(n, trace, actions, conn, stream);
    if Exhausted(last) {
      ExhaustedIsQuiet(last);
      QuietMeansSendable(last, conn, stream);
    }
  }

  lemma StartTopped(conn: u32, stream: u32)
    requires 0 < conn <= MAX_WINDOW_SIZE && 0 < stream <= MAX_WINDOW_SIZE
    ensures Topped(Start(conn, stream), conn, stream)
  {
    ThresholdIsHalf(conn);
  }

  lemma {:induction false} TimelyInvariant(trace: seq<System>, actions: seq<Action>, conn: u32, stream: u32, k: nat)
    requires 0 < conn <= MAX_WINDOW_SIZE && 0 < stream <= MAX_WINDOW_SIZE
    requires ReachableEagerly(trace, actions, conn, stream) && AllTimely(trace, actions) && k < |trace|
    ensures Conserved(trace[k]) && Topped(trace[k], conn, stream)
  {
    EagerInvariant(trace, actions, conn, stream, k);
    if k == 0 {
      StartTopped(conn, stream);
    } else {
      TimelyInvariant(trace, actions, conn, stream, k - 1);
      var n, a := trace[k - 1], actions[k - 1];
      assert EagerlyEnabled(n, a) && Timely(n, a) && trace[k] == PerformEagerly(n, a);
      TimelyStep(n, a, conn, stream);
    }
  }

  /**
    From every state that the eager protocol reaches without early arrivals: however the messages in flight
    arrive in time, they run out, and the streams open at that point can then all send.
   */
  lemma ReachableNeverDeadlocks(
    trace: seq<System>, actions: seq<Action>, conn: u32, stream: u32, k: nat,
    later: seq<System>, arrivals: seq<Action>)
    requires 0 < conn <= MAX_WINDOW_SIZE && 0 < stream <= MAX_WINDOW_SIZE
    requires ReachableEagerly(trace, actions, conn, stream) && AllTimely(trace, actions) && k < |trace|
    requires Arrivals(trace[k], later, arrivals) && AllTimely(later, arrivals)
    ensures |arrivals| <= Outstanding(trace[k])
    ensures Exhausted(later[|arrivals|]) ==>
              && Quiet(later[|arrivals|])
              && forall id, bytes: u32 :: id in trace[k].sender.send && Modest(bytes, conn, stream) ==>
                   CanSend(later[|arrivals|].sender, id, bytes)
  {
    TimelyInvariant(trace, actions, conn, stream, k);
    TimelyNeverDeadlocks(trace[k], later, arrivals, conn, stream);
  }

  // ---------- streams that the receiver initialises first ----------

  /** Every stream the sender opens was initialised by the receiver before. */
  ghost predicate ReceiverFirst(trace: seq<System>, actions: seq<Action>) {
    |actions| < |trace| && forall i :: 0 <= i < |actions| && actions[i].Open? ==> actions[i].id in trace[i].accepted
  }

  lemma FirstStep(n: System, a: Action, conn: u32, stream: u32)
    requires Conserved(n) && Stocked(n, conn, stream) && EagerlyEnabled(n, a) && n.sender.send.Keys <= n.accepted
    requires a.Open? ==> a.id in n.accepted
    ensures Timely(n, a) && PerformEagerly(n, a).sender.send.Keys <= PerformEagerly(n, a).accepted
  {
    if a.Deliver? {
      EagerDelivery(n, a.i, conn, stream);
    }
  }

  lemma {:induction false} FirstKeeps(trace: seq<System>, actions: seq<Action>, conn: u32, stream: u32, k: nat)
    requires 0 < conn <= MAX_WINDOW_SIZE && 0 < stream <= MAX_WINDOW_SIZE
    requires ReachableEagerly(trace, actions, conn, stream) && ReceiverFirst(trace, actions) && k < |trace|
    ensures trace[k].sender.send.Keys <= trace[k].accepted
    ensures k > 0 ==> Timely(trace[k - 1], actions[k - 1])
  {
    if k == 0 {
    } else {
      FirstKeeps(trace, actions, conn, stream, k - 1);
      EagerInvariant(trace, actions, conn, stream, k - 1);
      FirstStep(trace[k - 1], actions[k - 1], conn, stream);
    }
  }

  /** Then nothing arrives early, so the results for timely arrivals hold without further ado. */
  lemma ReceiverFirstIsTimely(trace: seq<System>, actions: seq<Action>, conn: u32, stream: u32)
    requires 0 < conn <= MAX_WINDOW_SIZE && 0 < stream <= MAX_WINDOW_SIZE
    requires ReachableEagerly(trace, actions, conn, stream) && ReceiverFirst(trace, actions)
    ensures AllTimely(trace, actions)
  {
    forall i | 0 <= i < |actions|
      ensures Enabled(trace[i], actions[i]) && Timely(trace[i], actions[i])
    {
      assert EagerlyEnabled(trace[i], actions[i]);
      FirstKeeps(trace, actions, conn, stream, i + 1);
    }
  }

  // ---------- what early data can do ----------

  /** The run: a stream is opened, `bytes` are sent on it, and they arrive before it is initialised. */
  function EarlyRun(conn: u32, stream: u32, id: u64, bytes: u32): seq<Action> {
    [Open(id), Transmit(id, bytes), Deliver(0)]
  }

  lemma EarlyRunGoes(conn: u32, stream: u32, id: u64, bytes: u32) returns (trace: seq<System>)
    requires id != 0 && 0 < bytes <= conn <= MAX_WINDOW_SIZE && bytes <= stream <= MAX_WINDOW_SIZE
    ensures ReachableEagerly(trace, EarlyRun(conn, stream, id, bytes), conn, stream)
    ensures var last := trace[3];
            && Quiet(last) && last.sender.connSend == last.receiver.connRecv == conn - bytes
            && last.sender.send == map[id := (stream - bytes) as u32] && last.lost == [Message(id, bytes)]
            && last.accepted == {} && last.receiver.initialStream == stream
  {
    var started := Perform(Start(conn, stream), Open(id));
    var sent := Perform(started, Transmit(id, bytes));
    assert sent.data == [Message(id, bytes)];
    var last := PerformEagerly(sent, Deliver(0));
    assert last.data == [] && last.lost == [Message(id, bytes)];
    trace := [Start(conn, stream), started, sent, last];
  }

  /**
    One message that arrives too early can silence a stream: nothing is in flight, the receiver's window for the
    stream is still full and asks for no update, and the sender can send nothing on it.
   */
  lemma EarlyDeliveryStarves(conn: u32, stream: u32, id: u64) returns (trace: seq<System>)
    requires 0 < stream <= conn <= MAX_WINDOW_SIZE && id != 0
    ensures ReachableEagerly(trace, EarlyRun(conn, stream, id, stream), conn, stream)
    ensures Quiet(trace[3]) && RecvOf(trace[3], id) == stream && !NeedsUpdate(stream, stream)
    ensures !CanSend(trace[3].sender, id, 1)
  {
    trace := EarlyRunGoes(conn, stream, id, stream);
    ThresholdIsHalf(stream);
  }

  /** Or the whole connection: no stream, nor the connection itself, can send a byte. */
  lemma EarlyDeliveryStarvesConnection(conn: u32, stream: u32, id: u64) returns (trace: seq<System>)
    requires 0 < conn <= stream <= MAX_WINDOW_SIZE && id != 0
    ensures ReachableEagerly(trace, EarlyRun(conn, stream, id, conn), conn, stream)
    ensures Quiet(trace[3]) && trace[3].sender.connSend == trace[3].receiver.connRecv == 0
    ensures forall x, bytes: u32 :: CanSend(trace[3].sender, x, bytes) ==> bytes == 0
  {
    trace := EarlyRunGoes(conn, stream, id, conn);
  }
}
