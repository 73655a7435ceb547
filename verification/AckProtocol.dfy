/**
  A sender and a receiver over a network that loses, duplicates and reorders packets and acknowledgement
  frames: whatever is on the wire may arrive any number of times, or never.
 */
module AckProtocol {
  import opened Bytes
  import opened Packets
  import opened Acks
  import opened AckTrackers

  /**
    `unacked` and `received` are the two trackers' fields. The rest is history: the packets tracked, those
    returned as acknowledged with their numbers, the numbers sent and arrived, and the frames generated.
   */
  datatype Net = Net(
    unacked: map<u64, Packet>, received: seq<u64>,
    tracked: map<u64, Packet>, returned: seq<Packet>, order: seq<u64>,
    sent: set<u64>, arrived: set<u64>, frames: set<AckFrame>)

  const START: Net := Net(map[], [], map[], [], [], {}, {}, {})

  datatype Action =
    | Send(packet: Packet)
    | Arrive(number: u64)
    | Generate(frame: AckFrame)
    | Process(frame: AckFrame, acked: seq<Packet>, order: seq<u64>)

  function Number(p: Packet): u64 {
    p.header.packetNumber
  }

  /** The number that the packet header carries. */
  function OnWire(number: u64): u64 {
    number % TWO_TO_32
  }

  /** The codec makes of a packet's number what the steps below assume. */
  lemma OnWireIsDecoded(p: Packet, now: nat)
    ensures DecodePacket(EncodePacket(p), now).Ok?
    ensures Number(DecodePacket(EncodePacket(p), now).value) == OnWire(Number(p))
  {
    PacketRoundTrip(p, now);
  }

  /** One step: fresh numbers are sent, anything sent may arrive, any frame generated may be processed. */
  ghost predicate Next(n: Net, a: Action, m: Net) {
    match a
    case Send(p) =>
      && Number(p) !in n.sent
      && m == n.(unacked := AfterSent(n.unacked, p), tracked := AfterSent(n.tracked, p), sent := n.sent + {Number(p)})
    case Arrive(number) =>
      && number in n.sent
      && m == n.(received := AfterReceived(n.received, OnWire(number)), arrived := n.arrived + {number})
    case Generate(f) =>
      && Acknowledges(f, n.received)
      && m == n.(frames := n.frames + {f})
    case Process(f, acked, order) =>
      && f in n.frames && AckedPackets(acked, order, n.unacked, f)
      && m == n.(unacked := StillUnacked(n.unacked, f), returned := n.returned + acked, order := n.order + order)
  }

  ghost predicate Trace(states: seq<Net>, actions: seq<Action>) {
    && |states| == |actions| + 1
    && states[0] == START
    && forall i :: 0 <= i < |actions| ==> Next(states[i], actions[i], states[i + 1])
  }

  /** No number sent is what the header makes of another. */
  ghost predicate Separate(sent: set<u64>) {
    forall p, q :: p in sent && q in sent && OnWire(q) == p ==> q == p
  }

  /** Numbers that fit the 32 bits of the packet header are separate. */
  lemma FittingIsSeparate(sent: set<u64>)
    requires forall p :: p in sent ==> p < TWO_TO_32
    ensures Separate(sent)
  {
  }

  // ---------- safety ----------

  /** The receiver saw `p`: it is the number on the wire of a packet that arrived. */
  ghost predicate Observed(p: int, arrived: set<u64>) {
    exists q :: q in arrived && OnWire(q) == p
  }

  /** Only what the receiver saw is retained or acknowledged. */
  ghost predicate OnlyObserved(n: Net) {
    && n.arrived <= n.sent
    && (forall p :: p in n.received ==> Observed(p, n.arrived))
    && (forall f, p: int :: f in n.frames && IsAcked(f, p) ==> Observed(p, n.arrived))
  }

  /** Every packet returned as acknowledged arrived. */
  ghost predicate ReturnsArrived(n: Net) {
    forall p :: p in n.order ==> p in n.arrived
  }

  /** Every packet tracked is either awaiting acknowledgement or was returned, once. */
  ghost predicate Partitioned(n: Net) {
    && n.tracked.Keys <= n.sent
    && |n.order| == |n.returned|
    && (forall i, j :: 0 <= i < j < |n.order| ==> n.order[i] != n.order[j])
    && (forall i :: 0 <= i < |n.order| ==> n.order[i] in n.tracked && n.returned[i] == n.tracked[n.order[i]])
    && (forall p :: p in n.unacked ==> p in n.tracked && n.unacked[p] == n.tracked[p])
    && (forall p :: p in n.tracked ==> (p in n.order <==> p !in n.unacked))
    && (forall p :: p in n.tracked ==> Number(n.tracked[p]) == p)
  }

  lemma WindowHolds(received: seq<u64>, p: u64, x: u64)
    requires x in AfterReceived(received, p)
    ensures x == p || x in received
  {
    var all := received + [p];
    assert x in all;
  }

  lemma ObservedStays(p: int, arrived: set<u64>, more: set<u64>)
    requires Observed(p, arrived) && arrived <= more
    ensures Observed(p, more)
  {
    var q :| q in arrived && OnWire(q) == p;
    assert q in more;
  }

  lemma ArriveKeeps(n: Net, number: u64, m: Net)
    requires OnlyObserved(n) && Next(n, Arrive(number), m)
    ensures OnlyObserved(m)
  {
    forall p | p in m.received
      ensures Observed(p, m.arrived)
    {
      WindowHolds(n.received, OnWire(number), p);
      if p == OnWire(number) {
        assert number in m.arrived;
      } else {
        ObservedStays(p, n.arrived, m.arrived);
      }
    }
    forall f, p: int | f in m.frames && IsAcked(f, p)
      ensures Observed(p, m.arrived)
    {
      ObservedStays(p, n.arrived, m.arrived);
    }
  }

  lemma GenerateKeeps(n: Net, f: AckFrame, m: Net)
    requires OnlyObserved(n) && Next(n, Generate(f), m)
    ensures OnlyObserved(m)
  {
    forall p: int | IsAcked(f, p)
      ensures Observed(p, m.arrived)
    {
      assert Reported(n.received, p);
    }
  }

  /** With separate numbers, what is acknowledged and awaited is what arrived. */
  lemma ProcessReturnsArrived(n: Net, a: Action, m: Net)
    requires a.Process? && OnlyObserved(n) && ReturnsArrived(n) && Next(n, a, m)
    requires n.unacked.Keys <= n.sent && Separate(n.sent)
    ensures ReturnsArrived(m)
  {
    forall p | p in m.order
      ensures p in m.arrived
    {
      assert p in n.order || p in a.order;
      if p in a.order {
        assert IsAcked(a.frame, p);
        var q :| q in n.arrived && OnWire(q) == p;
      }
    }
  }

  lemma ProcessPartitions(n: Net, a: Action, m: Net)
    requires a.Process? && Partitioned(n) && Next(n, a, m)
    ensures Partitioned(m)
  {
    assert forall i :: 0 <= i < |a.order| ==> a.order[i] in a.order && a.order[i] in n.unacked;
    assert forall i :: 0 <= i < |n.order| ==> n.order[i] in n.order && n.order[i] !in n.unacked;
    assert forall p :: p in m.order <==> p in n.order || p in a.order;
  }

  lemma SendPartitions(n: Net, p: Packet, m: Net)
    requires Partitioned(n) && Next(n, Send(p), m)
    ensures Partitioned(m)
  {
    assert Number(p) !in n.tracked;
    assert forall i :: 0 <= i < |n.order| ==> n.order[i] in n.order && n.order[i] != Number(p);
    assert Number(p) !in n.order;
  }

  lemma StepPartitions(n: Net, a: Action, m: Net)
    requires Partitioned(n) && Next(n, a, m)
    ensures Partitioned(m)
  {
    match a
    case Send(p) => SendPartitions(n, p, m);
    case Arrive(_) =>
    case Generate(_) =>
    case Process(_, _, _) => ProcessPartitions(n, a, m);
  }

  lemma StepObserved(n: Net, a: Action, m: Net)
    requires OnlyObserved(n) && Next(n, a, m)
    ensures OnlyObserved(m)
  {
    match a
    case Send(_) =>
    case Arrive(number) => ArriveKeeps(n, number, m);
    case Generate(f) => GenerateKeeps(n, f, m);
    case Process(_, _, _) =>
  }

  lemma StepReturnsArrived(n: Net, a: Action, m: Net)
    requires Partitioned(n) && OnlyObserved(n) && ReturnsArrived(n) && Separate(n.sent) && Next(n, a, m)
    ensures ReturnsArrived(m)
  {
    if a.Process? {
      ProcessReturnsArrived(n, a, m);
    }
  }

  /** Whatever the numbers, the tracked packets are those returned, each once, and those still awaited. */
  lemma {:induction false} AlwaysPartitioned(states: seq<Net>, actions: seq<Action>, k: nat)
    requires Trace(states, actions) && k < |states|
    ensures Partitioned(states[k]) && OnlyObserved(states[k])
  {
    if k == 0 {
    } else {
      AlwaysPartitioned(states, actions, k - 1);
      StepPartitions(states[k - 1], actions[k - 1], states[k]);
      StepObserved(states[k - 1], actions[k - 1], states[k]);
    }
  }

  lemma {:induction false} SentGrows(states: seq<Net>, actions: seq<Action>, i: nat, k: nat)
    requires Trace(states, actions) && i <= k < |states|
    ensures states[i].sent <= states[k].sent
  {
    if i < k {
      SentGrows(states, actions, i, k - 1);
      assert Next(states[k - 1], actions[k - 1], states[k]);
    }
  }

  /**
    End-to-end safety, for any loss, duplication and reordering, when numbers are fresh and separate: every
    packet returned as acknowledged arrived at the receiver.
   */
  lemma {:induction false} AckSafety(states: seq<Net>, actions: seq<Action>, k: nat)
    requires Trace(states, actions) && k < |states| && Separate(states[k].sent)
    ensures ReturnsArrived(states[k])
    ensures forall i :: 0 <= i < |states[k].returned| ==> Number(states[k].returned[i]) in states[k].arrived
  {
    if k == 0 {
    } else {
      SentGrows(states, actions, k - 1, k);
      AckSafety(states, actions, k - 1);
      AlwaysPartitioned(states, actions, k - 1);
      StepReturnsArrived(states[k - 1], actions[k - 1], states[k]);
    }
    AlwaysPartitioned(states, actions, k);
    forall i | 0 <= i < |states[k].returned|
      ensures Number(states[k].returned[i]) in states[k].arrived
    {
      assert states[k].order[i] in states[k].order;
    }
  }

  // ---------- why the numbers must be separate ----------

  function Plain(number: u64): Packet {
    Packet(PacketHeader(OneRTT, ZERO_ID, number, None, None, None), [], 0, true)
  }

  /** The receiver acknowledges the number it saw alone. */
  function Alone(number: u64): AckFrame {
    AckFrame(number, 0, [AckRange(number, number)])
  }

  lemma AloneAcknowledges(number: u64)
    ensures Acknowledges(Alone(number), [number])
    ensures forall p: int :: IsAcked(Alone(number), p) <==> p == number
  {
    assert Alone(number).ranges[0].Contains(number);
  }

  lemma LowIsReturned(m: Net, n: Net, low: u64, big: u64)
    requires low != big && Alone(low) in m.frames && m.unacked == map[low := Plain(low), big := Plain(big)]
    requires n == m.(unacked := map[big := Plain(big)], returned := m.returned + [Plain(low)], order := m.order + [low])
    ensures Next(m, Process(Alone(low), [Plain(low)], [low]), n)
  {
    AloneAcknowledges(low);
    assert StillUnacked(m.unacked, Alone(low)) == n.unacked;
    assert AckedPackets([Plain(low)], [low], m.unacked, Alone(low));
  }

  /**
    For every number that does not fit 32 bits there is a run in which a packet is returned as
    acknowledged although it never arrived: the one whose number is the truncated one.
   */
  lemma TruncationBreaksSafety(big: u64) returns (states: seq<Net>, actions: seq<Action>)
    requires big >= TWO_TO_32
    ensures Trace(states, actions)
    ensures var last := states[|states| - 1];
            last.sent == {OnWire(big), big} && last.order == [OnWire(big)] && OnWire(big) !in last.arrived
  {
    var low := OnWire(big);
    var n1 := START.(unacked := map[low := Plain(low)], tracked := map[low := Plain(low)], sent := {low});
    var both := map[low := Plain(low), big := Plain(big)];
    var n2 := n1.(unacked := both, tracked := both, sent := {low, big});
    var n3 := n2.(received := [low], arrived := {big});
    var n4 := n3.(frames := {Alone(low)});
    var n5 := n4.(unacked := map[big := Plain(big)], returned := [Plain(low)], order := [low]);
    AloneAcknowledges(low);
    assert Next(START, Send(Plain(low)), n1);
    assert Next(n1, Send(Plain(big)), n2);
    assert Next(n2, Arrive(big), n3);
    assert Next(n3, Generate(Alone(low)), n4);
    LowIsReturned(n4, n5, low, big);
    states := [START, n1, n2, n3, n4, n5];
    actions := [Send(Plain(low)), Send(Plain(big)), Arrive(big), Generate(Alone(low)),
                Process(Alone(low), [Plain(low)], [low])];
  }

  /** A run ends with returned packets that all arrived. */
  ghost predicate EndsSafely(states: seq<Net>, actions: seq<Action>) {
    Trace(states, actions) ==> ReturnsArrived(states[|actions|])
  }

  ghost predicate SendsWithin(states: seq<Net>, actions: seq<Action>, numbers: set<u64>) {
    Trace(states, actions) && states[|actions|].sent <= numbers
  }

  /** The exact condition: all runs that send numbers of a set are safe if and only if the set is separate. */
  lemma SafeIffSeparate(numbers: set<u64>)
    ensures (forall states, actions :: SendsWithin(states, actions, numbers) ==> EndsSafely(states, actions))
       <==> Separate(numbers)
  {
    if Separate(numbers) {
      forall states, actions | SendsWithin(states, actions, numbers)
        ensures EndsSafely(states, actions)
      {
        AckSafety(states, actions, |actions|);
      }
    } else {
      var low, big :| low in numbers && big in numbers && OnWire(big) == low && big != low;
      var states, actions := TruncationBreaksSafety(big);
      assert SendsWithin(states, actions, numbers);
      assert low in states[|actions|].order;
      assert !EndsSafely(states, actions);
    }
  }
}
