/**
  Two flow controllers, a sender and a receiver, joined by channels that lose nothing but may reorder:
  credit is conserved, admitted data is refused only when it outruns its stream, and credit never overflows.
  Every operation of either controller, except resizing and resetting, may happen at any time and on any stream.
 */
module FlowProtocol {
  import opened Bytes
  import opened FlowControl
  import opened FlowProperties

  /** Bytes of data, or of credit, for a stream (0 stands for the connection). */
  datatype Message = Message(id: u64, amount: u32)

  /**
    The two controllers, the streams the receiver has initialised, what is in flight, and the data refused; and
    the streams whose windows one side removed, started over, or used without having initialised them.
   */
  datatype System = System(
    sender: Flow, receiver: Flow, accepted: set<u64>, data: seq<Message>, credits: seq<Message>, lost: seq<Message>,
    disturbed: set<u64>)

  function Start(conn: u32, stream: u32): System {
    System(New(conn, stream), New(conn, stream), {}, [], [], [], {})
  }

  datatype Action =
    | Open(id: u64)                      // the sender initialises a stream
    | Accept(id: u64)                    // the receiver does, before or after the sender
    | Transmit(id: u64, bytes: u32)      // the sender reserves window and sends
    | Deliver(i: nat)                    // any message in flight arrives, whether or not its stream is initialised
    | Grant(id: u64, increment: u32)     // the receiver widens a window and tells the sender
    | DeliverCredit(i: nat)
    | DropAtSender(id: u64)              // a side forgets a stream
    | DropAtReceiver(id: u64)

  function Remove(ms: seq<Message>, i: nat): seq<Message>
    requires i < |ms|
  {
    ms[..i] + ms[i + 1..]
  }

  /** Streams are not numbered 0, and only what is in flight can arrive. */
  predicate Enabled(n: System, a: Action) {
    match a
    case Open(id) => id != 0
    case Accept(id) => id != 0
    case Transmit(_, _) => true
    case Deliver(i) => i < |n.data|
    case Grant(_, _) => true
    case DeliverCredit(i) => i < |n.credits|
    case DropAtSender(id) => id != 0
    case DropAtReceiver(id) => id != 0
  }

  /** The stream whose windows the action removes, starts over, or uses uninitialised; 0 if there is none. */
  function Subject(n: System, a: Action): u64
    requires Enabled(n, a)
  {
    match a
    case Open(id) => if id in n.sender.send then id else 0
    case Accept(id) => if id in n.accepted then id else 0
    case Transmit(id, bytes) => if id !in n.sender.send && !Blocked(Reserve(n.sender, id, bytes).1) then id else 0
    case Deliver(_) => 0
    case Grant(id, _) => if id !in n.accepted then id else 0
    case DeliverCredit(i) => if n.credits[i].id !in n.sender.send then n.credits[i].id else 0
    case DropAtSender(id) => id
    case DropAtReceiver(id) => id
  }

  function Perform(n: System, a: Action): System
    requires Enabled(n, a)
  {
    Act(n, a).(disturbed := if Subject(n, a) == 0 then n.disturbed else n.disturbed + {Subject(n, a)})
  }

  function Act(n: System, a: Action): System
    requires Enabled(n, a)
  {
    match a
    case Open(id) => n.(sender := InitializeStream(n.sender, id).0)
    case Accept(id) => n.(receiver := InitializeStream(n.receiver, id).0, accepted := n.accepted + {id})
    case Transmit(id, bytes) =>
      var (sender, events) := Reserve(n.sender, id, bytes);
      if Blocked(events) then n.(sender := sender)
      else n.(sender := sender, data := n.data + [Message(id, bytes)])
    case Deliver(i) =>
      var (receiver, r) := Receive(n.receiver, n.data[i].id, n.data[i].amount);
      n.(receiver := receiver, data := Remove(n.data, i), lost := if r.Ok? then n.lost else n.lost + [n.data[i]])
    case Grant(id, increment) =>
      var (receiver, r) := UpdateRecv(n.receiver, id, increment);
      if r.Err? then n else n.(receiver := receiver, credits := n.credits + [Message(id, increment)])
    case DeliverCredit(i) =>
      n.(sender := UpdateSend(n.sender, n.credits[i].id, n.credits[i].amount).0, credits := Remove(n.credits, i))
    case DropAtSender(id) => n.(sender := RemoveStream(n.sender, id))
    case DropAtReceiver(id) => n.(receiver := RemoveStream(n.receiver, id), accepted := n.accepted - {id})
  }

  // ---------- amounts in flight ----------

  function Total(ms: seq<Message>): nat {
    if ms == [] then 0 else ms[0].amount + Total(ms[1..])
  }

  function Amount(m: Message, id: u64): nat {
    if m.id == id then m.amount else 0
  }

  function TotalFor(ms: seq<Message>, id: u64): nat {
    if ms == [] then 0 else Amount(ms[0], id) + TotalFor(ms[1..], id)
  }

  lemma {:induction false} TotalAppend(ms: seq<Message>, m: Message)
    ensures Total(ms + [m]) == Total(ms) + m.amount
    ensures forall id :: TotalFor(ms + [m], id) == TotalFor(ms, id) + Amount(m, id)
  {
    if ms == [] {
      assert [] + [m] == [m];
    } else {
      TotalAppend(ms[1..], m);
      assert (ms + [m])[1..] == ms[1..] + [m];
    }
  }

  lemma {:induction false} TotalRemove(ms: seq<Message>, i: nat)
    requires i < |ms|
    ensures Total(Remove(ms, i)) == Total(ms) - ms[i].amount
    ensures forall id :: TotalFor(Remove(ms, i), id) == TotalFor(ms, id) - Amount(ms[i], id)
  {
    if i == 0 {
      assert Remove(ms, 0) == ms[1..];
    } else {
      TotalRemove(ms[1..], i - 1);
      assert Remove(ms, i)[1..] == Remove(ms[1..], i - 1);
    }
  }

  // ---------- credit conservation ----------

  /** The receiver's window of a stream; a stream it has not initialised yet will start with the initial window. */
  function RecvOf(n: System, id: u64): u32 {
    if id in n.accepted then Get(n.receiver.recv, id) else n.receiver.initialStream
  }

  /** The same for the sender's window. */
  function SendOf(n: System, id: u64): u32 {
    if id in n.sender.send then n.sender.send[id] else n.sender.initialStream
  }

  ghost predicate ConnectionConserved(n: System) {
    n.receiver.connRecv == n.sender.connSend + Total(n.data) + TotalFor(n.credits, 0)
  }

  /** Data refused at the stream level is charged to the sender's stream window for good. */
  ghost predicate StreamConserved(n: System, id: u64) {
    RecvOf(n, id) == SendOf(n, id) + TotalFor(n.data, id) + TotalFor(n.credits, id) + TotalFor(n.lost, id)
  }

  /** Data only names the connection, streams that the sender has opened, and disturbed streams. */
  ghost predicate Known(n: System, ms: seq<Message>) {
    forall i :: 0 <= i < |ms| ==> ms[i].id == 0 || ms[i].id in n.sender.send || ms[i].id in n.disturbed
  }

  ghost predicate Shape(n: System) {
    && 0 !in n.sender.send && 0 !in n.receiver.recv && 0 !in n.accepted && 0 !in n.disturbed
    && n.accepted <= n.receiver.recv.Keys
    && (forall id :: id in n.receiver.recv && id !in n.accepted && id !in n.disturbed ==> n.receiver.recv[id] == 0)
    && n.sender.initialStream == n.receiver.initialStream <= MAX_WINDOW_SIZE
    && n.receiver.connRecv <= MAX_WINDOW_SIZE && WithinLimit(n.receiver.recv)
    && Known(n, n.data) && Known(n, n.lost)
  }

  ghost predicate Conserved(n: System) {
    && Shape(n)
    && ConnectionConserved(n)
    && forall id :: id != 0 && id !in n.disturbed ==> StreamConserved(n, id)
  }

  lemma {:induction false} NothingFor(ms: seq<Message>, id: u64)
    requires forall i :: 0 <= i < |ms| ==> ms[i].id != id
    ensures TotalFor(ms, id) == 0
  {
    if ms == [] {
    } else {
      NothingFor(ms[1..], id);
    }
  }

  lemma StartConserved(conn: u32, stream: u32)
    requires conn <= MAX_WINDOW_SIZE && stream <= MAX_WINDOW_SIZE
    ensures Conserved(Start(conn, stream))
  {
    forall id | id != 0
      ensures StreamConserved(Start(conn, stream), id)
    {
    }
  }

  /** Data in flight for a stream is covered by the receiver's windows. */
  lemma InFlightCovered(n: System, i: nat)
    requires Conserved(n) && i < |n.data|
    ensures n.data[i].amount <= n.receiver.connRecv
    ensures n.data[i].id != 0 && n.data[i].id !in n.disturbed ==> n.data[i].amount <= RecvOf(n, n.data[i].id)
  {
    TotalRemove(n.data, i);
    var id := n.data[i].id;
    assert TotalFor(Remove(n.data, i), id) == TotalFor(n.data, id) - Amount(n.data[i], id);
    if id != 0 && id !in n.disturbed {
      assert StreamConserved(n, id);
    }
  }

  /** Data of the connection or of a stream that the receiver has initialised; or no bytes at all. */
  predicate InTime(n: System, m: Message) {
    m.id == 0 || m.id in n.accepted || m.amount == 0
  }

  /**
    The receiver accepts data that the sender's controller admitted exactly when it does not outrun its stream;
    it charges the connection for it in any case.
   */
  lemma AdmittedDataAcceptedIff(n: System, i: nat)
    requires Conserved(n) && i < |n.data| && n.data[i].id !in n.disturbed
    ensures Receive(n.receiver, n.data[i].id, n.data[i].amount).1.Ok? <==> InTime(n, n.data[i])
    ensures Receive(n.receiver, n.data[i].id, n.data[i].amount).0.connRecv == n.receiver.connRecv - n.data[i].amount
  {
    InFlightCovered(n, i);
  }

  /** Credit that arrives never takes a send window over the limit. */
  lemma CreditNeverOverflows(n: System, i: nat)
    requires Conserved(n) && i < |n.credits| && n.credits[i].id !in n.disturbed
    ensures UpdateSend(n.sender, n.credits[i].id, n.credits[i].amount).1.Ok?
  {
    TotalRemove(n.credits, i);
    var id := n.credits[i].id;
    assert TotalFor(Remove(n.credits, i), id) == TotalFor(n.credits, id) - Amount(n.credits[i], id);
    if id != 0 {
      assert StreamConserved(n, id);
    }
  }

  // ---------- every action keeps it ----------

  lemma RemoveKnown(n: System, ms: seq<Message>, i: nat)
    requires Known(n, ms) && i < |ms|
    ensures Known(n, Remove(ms, i))
  {
    forall j | 0 <= j < |Remove(ms, i)|
      ensures var m := Remove(ms, i)[j]; m.id == 0 || m.id in n.sender.send || m.id in n.disturbed
    {
      assert Remove(ms, i)[j] == if j < i then ms[j] else ms[j + 1];
    }
  }

  /** Initialising or forgetting a stream moves no message and leaves the connection alone. */
  lemma SetupConserved(n: System, a: Action)
    requires Conserved(n) && Enabled(n, a) && (a.Open? || a.Accept? || a.DropAtSender? || a.DropAtReceiver?)
    ensures Conserved(Perform(n, a))
  {
    var m := Perform(n, a);
    forall x | x != 0 && x !in m.disturbed
      ensures StreamConserved(m, x)
    {
      assert StreamConserved(n, x);
    }
  }

  lemma TransmitConserved(n: System, id: u64, bytes: u32)
    requires Conserved(n) && Enabled(n, Transmit(id, bytes))
    ensures Conserved(Perform(n, Transmit(id, bytes)))
  {
    var m := Perform(n, Transmit(id, bytes));
    if Blocked(Reserve(n.sender, id, bytes).1) {
      assert m == n;
    } else {
      TotalAppend(n.data, Message(id, bytes));
      ReserveAllOrNothing(n.sender, id, bytes);
      forall x | x != 0 && x !in m.disturbed
        ensures StreamConserved(m, x)
      {
        TransmitKeepsStream(n, id, bytes, m, x);
      }
    }
  }

  lemma TransmitKeepsStream(n: System, id: u64, bytes: u32, m: System, x: u64)
    requires Conserved(n) && m == Perform(n, Transmit(id, bytes))
    requires x != 0 && x !in m.disturbed && !Blocked(Reserve(n.sender, id, bytes).1)
    ensures StreamConserved(m, x)
  {
    assert StreamConserved(n, x);
    TotalAppend(n.data, Message(id, bytes));
    ReserveAllOrNothing(n.sender, id, bytes);
  }

  lemma DeliverConserved(n: System, i: nat)
    requires Conserved(n) && Enabled(n, Deliver(i))
    ensures Conserved(Perform(n, Deliver(i)))
  {
    var m := Perform(n, Deliver(i));
    InFlightCovered(n, i);
    if n.data[i].id !in n.disturbed {
      AdmittedDataAcceptedIff(n, i);
    }
    TotalRemove(n.data, i);
    TotalAppend(n.lost, n.data[i]);
    DeliverKeepsShape(n, i);
    forall x | x != 0 && x !in m.disturbed
      ensures StreamConserved(m, x)
    {
      assert StreamConserved(n, x);
    }
  }

  lemma DeliverKeepsShape(n: System, i: nat)
    requires Conserved(n) && Enabled(n, Deliver(i))
    ensures Shape(Perform(n, Deliver(i)))
  {
    InFlightCovered(n, i);
    RemoveKnown(n, n.data, i);
  }

  lemma GrantConserved(n: System, id: u64, increment: u32)
    requires Conserved(n) && Enabled(n, Grant(id, increment))
    ensures Conserved(Perform(n, Grant(id, increment)))
  {
    var m := Perform(n, Grant(id, increment));
    TotalAppend(n.credits, Message(id, increment));
    forall x | x != 0 && x !in m.disturbed
      ensures StreamConserved(m, x)
    {
      GrantKeepsStream(n, id, increment, m, x);
    }
  }

  lemma GrantKeepsStream(n: System, id: u64, increment: u32, m: System, x: u64)
    requires Conserved(n) && m == Perform(n, Grant(id, increment)) && x != 0 && x !in m.disturbed
    ensures StreamConserved(m, x)
  {
    assert StreamConserved(n, x);
    var granted := UpdateRecv(n.receiver, id, increment).1.Ok?;
    assert RecvOf(m, x) == RecvOf(n, x) + if granted && x == id then increment else 0;
    if granted {
      TotalAppend(n.credits, Message(id, increment));
    }
  }

  lemma DeliverCreditConserved(n: System, i: nat)
    requires Conserved(n) && Enabled(n, DeliverCredit(i))
    ensures Conserved(Perform(n, DeliverCredit(i)))
  {
    var m := Perform(n, DeliverCredit(i));
    if n.credits[i].id !in n.disturbed {
      CreditNeverOverflows(n, i);
    }
    TotalRemove(n.credits, i);
    forall x | x != 0 && x !in m.disturbed
      ensures StreamConserved(m, x)
    {
      assert StreamConserved(n, x);
    }
  }

  lemma PerformConserved(n: System, a: Action)
    requires Conserved(n) && Enabled(n, a)
    ensures Conserved(Perform(n, a))
  {
    match a
    case Transmit(id, bytes) => TransmitConserved(n, id, bytes);
    case Deliver(i) => DeliverConserved(n, i);
    case Grant(id, increment) => GrantConserved(n, id, increment);
    case DeliverCredit(i) => DeliverCreditConserved(n, i);
    case _ => SetupConserved(n, a);
  }

  /** `trace` runs from the start of a connection, one enabled action after the other. */
  ghost predicate Reachable(trace: seq<System>, actions: seq<Action>, conn: u32, stream: u32) {
    && |trace| == |actions| + 1
    && trace[0] == Start(conn, stream)
    && forall i :: 0 <= i < |actions| ==> Enabled(trace[i], actions[i]) && trace[i + 1] == Perform(trace[i], actions[i])
  }

  /**
    Credit safety in every reachable state: what the receiver allows is what the sender may still send plus
    what is in flight, for the connection whatever happens to the streams, and, with the data refused, for every
    undisturbed stream, whichever side initialised it first; so admitted data of those is refused exactly when it
    outruns its stream, and their credit never overflows.
   */
  lemma {:induction false} CreditSafety(trace: seq<System>, actions: seq<Action>, conn: u32, stream: u32, k: nat)
    requires conn <= MAX_WINDOW_SIZE && stream <= MAX_WINDOW_SIZE
    requires Reachable(trace, actions, conn, stream) && k < |trace|
    ensures Conserved(trace[k])
    ensures forall i :: 0 <= i < |trace[k].data| && trace[k].data[i].id !in trace[k].disturbed ==>
              (Receive(trace[k].receiver, trace[k].data[i].id, trace[k].data[i].amount).1.Ok?
               <==> InTime(trace[k], trace[k].data[i]))
    ensures forall i :: 0 <= i < |trace[k].credits| && trace[k].credits[i].id !in trace[k].disturbed ==>
              UpdateSend(trace[k].sender, trace[k].credits[i].id, trace[k].credits[i].amount).1.Ok?
  {
    if k == 0 {
      StartConserved(conn, stream);
    } else {
      CreditSafety(trace, actions, conn, stream, k - 1);
      PerformConserved(trace[k - 1], actions[k - 1]);
    }
    forall i | 0 <= i < |trace[k].data| && trace[k].data[i].id !in trace[k].disturbed
      ensures Receive(trace[k].receiver, trace[k].data[i].id, trace[k].data[i].amount).1.Ok?
              <==> InTime(trace[k], trace[k].data[i])
    {
      AdmittedDataAcceptedIff(trace[k], i);
    }
    forall i | 0 <= i < |trace[k].credits| && trace[k].credits[i].id !in trace[k].disturbed
      ensures UpdateSend(trace[k].sender, trace[k].credits[i].id, trace[k].credits[i].amount).1.Ok?
    {
      CreditNeverOverflows(trace[k], i);
    }
  }

  // ---------- streams that the receiver initialised first ----------

  /** The stream is initialised at the receiver and has lost nothing, unless it was disturbed. */
  predicate NeverEarly(n: System, id: u64) {
    id in n.disturbed || (id in n.accepted && TotalFor(n.lost, id) == 0)
  }

  lemma StepNeverEarly(n: System, a: Action, id: u64)
    requires Conserved(n) && Enabled(n, a) && id != 0 && NeverEarly(n, id)
    ensures NeverEarly(Perform(n, a), id)
  {
    if a.Deliver? && id !in n.disturbed {
      TotalAppend(n.lost, n.data[a.i]);
      if n.data[a.i].id == id {
        AdmittedDataAcceptedIff(n, a.i);
      }
    }
  }

  /** Nothing of a stream that the sender has not opened was ever refused. */
  lemma UnopenedLostNothing(n: System, id: u64)
    requires Shape(n) && id != 0 && id !in n.sender.send && id !in n.disturbed
    ensures TotalFor(n.lost, id) == 0
  {
    NothingFor(n.lost, id);
  }

  lemma {:induction false} StaysNeverEarly(
    trace: seq<System>, actions: seq<Action>, conn: u32, stream: u32, j: nat, k: nat, id: u64)
    requires conn <= MAX_WINDOW_SIZE && stream <= MAX_WINDOW_SIZE
    requires Reachable(trace, actions, conn, stream) && j <= k < |trace| && id != 0 && NeverEarly(trace[j], id)
    ensures NeverEarly(trace[k], id)
    decreases k
  {
    if j == k {
    } else {
      StaysNeverEarly(trace, actions, conn, stream, j, k - 1, id);
      CreditSafety(trace, actions, conn, stream, k - 1);
      StepNeverEarly(trace[k - 1], actions[k - 1], id);
    }
  }

  /** All data in flight for the stream would be taken. */
  ghost predicate AllTaken(n: System, id: u64) {
    forall i :: 0 <= i < |n.data| && n.data[i].id == id ==> Receive(n.receiver, id, n.data[i].amount).1.Ok?
  }

  lemma AcceptedTaken(n: System, id: u64)
    requires Conserved(n) && id in n.accepted && id !in n.disturbed
    ensures AllTaken(n, id)
  {
    forall i | 0 <= i < |n.data| && n.data[i].id == id
      ensures Receive(n.receiver, id, n.data[i].amount).1.Ok?
    {
      AdmittedDataAcceptedIff(n, i);
    }
  }

  /**
    Data of a stream that the receiver initialised before the sender did is never early: as long as the stream is
    undisturbed none of it is refused, whenever it arrives.
   */
  lemma ReceiverFirstNeverLoses(
    trace: seq<System>, actions: seq<Action>, conn: u32, stream: u32, j: nat, k: nat, id: u64)
    requires conn <= MAX_WINDOW_SIZE && stream <= MAX_WINDOW_SIZE
    requires Reachable(trace, actions, conn, stream) && j <= k < |trace|
    requires id != 0 && id in trace[j].accepted && id !in trace[j].sender.send && id !in trace[k].disturbed
    ensures AllTaken(trace[k], id) && TotalFor(trace[k].lost, id) == 0
  {
    CreditSafety(trace, actions, conn, stream, j);
    CreditSafety(trace, actions, conn, stream, k);
    if id !in trace[j].disturbed {
      UnopenedLostNothing(trace[j], id);
    }
    StaysNeverEarly(trace, actions, conn, stream, j, k, id);
    AcceptedTaken(trace[k], id);
  }
}
