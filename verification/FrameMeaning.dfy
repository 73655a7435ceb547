/** What the bytes of a frame mean, whoever wrote them, and what a receiver makes of every frame that is sent. */
module FrameMeaning {
  import opened Bytes
  import opened Frames
  import opened Parsing
  import opened WireFormat
  import ParserRuns
  import Varint

  // ---------- settings ----------

  /** At byte `i` there is this pair of integers, in `n` and `m` bytes. */
  ghost predicate PairAt(payload: seq<byte>, i: nat, pair: (u64, u64), n: nat, m: nat)
    requires i <= |payload|
  {
    Varint.IsForm(payload[i..], pair.0, n) && Varint.IsForm(payload[i + n..], pair.1, m)
  }

  /** From byte `i` on the payload is this list of pairs, one after the other, in any of their forms. */
  ghost predicate ReadsAs(payload: seq<byte>, i: nat, pairs: seq<(u64, u64)>)
    requires i <= |payload|
    decreases |pairs|
  {
    if pairs == [] then i == |payload|
    else
      exists n: nat, m: nat ::
        i + n + m <= |payload| && PairAt(payload, i, pairs[0], n, m) && ReadsAs(payload, i + n + m, pairs[1..])
  }

  /** The value in the last pair with this code. */
  function LastValue(pairs: seq<(u64, u64)>, code: u64): Option<u64> {
    if pairs == [] then None
    else if LastValue(pairs[1..], code).Some? then LastValue(pairs[1..], code)
    else if pairs[0].0 == code then Some(pairs[0].1)
    else None
  }

  function Lookup(settings: map<SettingId, u64>, id: SettingId): Option<u64> {
    if id in settings then Some(settings[id]) else None
  }

  /** Section 7.2.4.1 of RFC 9114 and section 5 of RFC 9204: codes 1, 6 and 7; all others are ignored. */
  predicate SettingsSay(settings: map<SettingId, u64>, pairs: seq<(u64, u64)>) {
    && Lookup(settings, QpackMaxTableCapacity) == LastValue(pairs, 0x01)
    && Lookup(settings, MaxFieldSectionSize) == LastValue(pairs, 0x06)
    && Lookup(settings, QpackBlockedStreams) == LastValue(pairs, 0x07)
  }

  /** The settings once all pairs are stored on top of those known. */
  function StoreAll(known: map<SettingId, u64>, pairs: seq<(u64, u64)>): map<SettingId, u64>
    decreases |pairs|
  {
    if pairs == [] then known else StoreAll(Store(known, pairs[0].0, pairs[0].1), pairs[1..])
  }

  lemma {:induction false} StoredLast(known: map<SettingId, u64>, pairs: seq<(u64, u64)>, id: SettingId)
    ensures Lookup(StoreAll(known, pairs), id)
         == if LastValue(pairs, SettingCode(id)).Some? then LastValue(pairs, SettingCode(id)) else Lookup(known, id)
    decreases |pairs|
  {
    if pairs == [] {
    } else {
      StoredLast(Store(known, pairs[0].0, pairs[0].1), pairs[1..], id);
      StoreOne(known, pairs[0].0, pairs[0].1, id);
    }
  }

  lemma StoreOne(known: map<SettingId, u64>, code: u64, value: u64, id: SettingId)
    ensures Lookup(Store(known, code, value), id) == if code == SettingCode(id) then Some(value) else Lookup(known, id)
  {
  }

  lemma PairIff(payload: seq<byte>, i: nat, pair: (u64, u64), n: nat, m: nat)
    requires i + n + m <= |payload|
    ensures PairAt(payload, i, pair, n, m) <==>
            Varint.Decode(payload[i..]) == Varint.Read(pair.0, n)
            && Varint.Decode(payload[i + n..]) == Varint.Read(pair.1, m)
  {
    Varint.ReadIff(payload[i..], pair.0, n);
    Varint.ReadIff(payload[i + n..], pair.1, m);
  }

  lemma SplitPair(payload: seq<byte>, i: nat, pairs: seq<(u64, u64)>) returns (n: nat, m: nat)
    requires i <= |payload| && ReadsAs(payload, i, pairs) && pairs != []
    ensures i < |payload| && i + n + m <= |payload| && ReadsAs(payload, i + n + m, pairs[1..])
    ensures Varint.Decode(payload[i..]) == Varint.Read(pairs[0].0, n)
    ensures Varint.Decode(payload[i + n..]) == Varint.Read(pairs[0].1, m)
  {
    n, m :| i + n + m <= |payload| && PairAt(payload, i, pairs[0], n, m) && ReadsAs(payload, i + n + m, pairs[1..]);
    PairIff(payload, i, pairs[0], n, m);
  }

  lemma JoinPair(payload: seq<byte>, i: nat, pair: (u64, u64), n: nat, m: nat, rest: seq<(u64, u64)>)
    requires i + n + m <= |payload| && ReadsAs(payload, i + n + m, rest)
    requires Varint.Decode(payload[i..]) == Varint.Read(pair.0, n)
    requires Varint.Decode(payload[i + n..]) == Varint.Read(pair.1, m)
    ensures ReadsAs(payload, i, [pair] + rest)
  {
    PairIff(payload, i, pair, n, m);
    assert ([pair] + rest)[1..] == rest;
    assert PairAt(payload, i, ([pair] + rest)[0], n, m);
  }

  lemma {:induction false} PairsAreRead(
    payload: seq<byte>, i: nat, known: map<SettingId, u64>, pairs: seq<(u64, u64)>)
    requires i <= |payload| && ReadsAs(payload, i, pairs)
    ensures DecodeSettings(payload, i, known) == Ok(StoreAll(known, pairs))
    decreases |pairs|
  {
    if pairs == [] {
    } else {
      var n, m := SplitPair(payload, i, pairs);
      SettingsStep(payload, i, known, pairs[0].0, n, pairs[0].1, m);
      PairsAreRead(payload, i + n + m, Store(known, pairs[0].0, pairs[0].1), pairs[1..]);
    }
  }

  lemma {:induction false} ReadHasPairs(payload: seq<byte>, i: nat, known: map<SettingId, u64>)
    returns (pairs: seq<(u64, u64)>)
    requires i <= |payload| && DecodeSettings(payload, i, known).Ok?
    ensures ReadsAs(payload, i, pairs)
    decreases |payload| - i
  {
    if i == |payload| {
      pairs := [];
    } else {
      var code := Varint.Decode(payload[i..]);
      var value := Varint.Decode(payload[i + code.used..]);
      var rest := ReadHasPairs(payload, i + code.used + value.used, Store(known, code.value, value.value));
      pairs := [(code.value, value.value)] + rest;
      JoinPair(payload, i, (code.value, value.value), code.used, value.used, rest);
    }
  }

  lemma SaidByStoring(settings: map<SettingId, u64>, pairs: seq<(u64, u64)>)
    ensures SettingsSay(settings, pairs) <==> settings == StoreAll(map[], pairs)
  {
    var stored := StoreAll(map[], pairs);
    StoredLast(map[], pairs, QpackMaxTableCapacity);
    StoredLast(map[], pairs, MaxFieldSectionSize);
    StoredLast(map[], pairs, QpackBlockedStreams);
    if SettingsSay(settings, pairs) {
      forall id: SettingId
        ensures Lookup(settings, id) == Lookup(stored, id)
      {
        match id
        case QpackMaxTableCapacity =>
        case MaxFieldSectionSize =>
        case QpackBlockedStreams =>
      }
      SameSettings(settings, stored);
    }
  }

  lemma SameSettings(a: map<SettingId, u64>, b: map<SettingId, u64>)
    requires forall id: SettingId :: Lookup(a, id) == Lookup(b, id)
    ensures a == b
  {
    forall id: SettingId
      ensures (id in a <==> id in b) && (id in a ==> a[id] == b[id])
    {
      assert Lookup(a, id) == Lookup(b, id);
    }
  }

  ghost predicate SettingsPayload(payload: seq<byte>, settings: map<SettingId, u64>) {
    exists pairs :: ReadsAs(payload, 0, pairs) && SettingsSay(settings, pairs)
  }

  lemma SettingsIff(payload: seq<byte>, settings: map<SettingId, u64>)
    ensures DecodeSettings(payload, 0, map[]) == Ok(settings) <==> SettingsPayload(payload, settings)
  {
    if DecodeSettings(payload, 0, map[]) == Ok(settings) {
      var pairs := ReadHasPairs(payload, 0, map[]);
      PairsAreRead(payload, 0, map[], pairs);
      SaidByStoring(settings, pairs);
    }
    if SettingsPayload(payload, settings) {
      var pairs :| ReadsAs(payload, 0, pairs) && SettingsSay(settings, pairs);
      PairsAreRead(payload, 0, map[], pairs);
      SaidByStoring(settings, pairs);
    }
  }

  // ---------- every frame ----------

  ghost predicate BeginsWith(payload: seq<byte>, id: u64) {
    exists n :: Varint.IsForm(payload, id, n)
  }

  /**
    What a frame of a given code and payload says, section 7.2 of RFC 9114. The stream is not on the wire, and the
    field section of a HEADERS or PUSH_PROMISE frame is passed over; so is anything after an identifier.
   */
  ghost predicate Denotes(code: nat, payload: seq<byte>, f: H3Frame) {
    match f
    case Data(stream, data, end) => code == 0x00 && stream == 0 && data == payload && !end
    case Headers(stream, headers, end, priority) =>
      code == 0x01 && stream == 0 && headers == [] && !end && priority == None
    case CancelPush(id) => code == 0x03 && BeginsWith(payload, id)
    case Settings(settings) => code == 0x04 && SettingsPayload(payload, settings)
    case PushPromise(stream, id, headers) => code == 0x05 && stream == 0 && headers == [] && BeginsWith(payload, id)
    case Goaway(id) => code == 0x07 && BeginsWith(payload, id)
    case MaxPushId(id) => code == 0x0D && BeginsWith(payload, id)
  }

  predicate KnownCode(code: nat) {
    code in {0x00, 0x01, 0x03, 0x04, 0x05, 0x07, 0x0D}
  }

  lemma IdIff(payload: seq<byte>, id: u64)
    ensures BeginsWith(payload, id) <==> Varint.Decode(payload).Read? && Varint.Decode(payload).value == id
  {
    forall n
      ensures Varint.IsForm(payload, id, n) <==> Varint.Decode(payload) == Varint.Read(id, n)
    {
      Varint.ReadIff(payload, id, n);
    }
    if Varint.Decode(payload).Read? && Varint.Decode(payload).value == id {
      assert Varint.IsForm(payload, id, Varint.Decode(payload).used);
    }
  }

  /** A payload is decoded to a frame exactly when that is what it says; otherwise it is incomplete. */
  lemma PayloadMeansIff(code: u64, t: FrameType, payload: seq<byte>, f: H3Frame)
    requires FrameTypeOf(code) == Some(t)
    ensures DecodePayload(t, payload) == Ok(f) <==> Denotes(code, payload, f)
    ensures DecodePayload(t, payload).Err? ==> DecodePayload(t, payload) == Err(IncompleteInput)
  {
    match f {
      case CancelPush(id) => IdIff(payload, id);
      case Settings(settings) => SettingsIff(payload, settings);
      case PushPromise(_, id, _) => IdIff(payload, id);
      case Goaway(id) => IdIff(payload, id);
      case MaxPushId(id) => IdIff(payload, id);
      case _ =>
    }
    if t.SettingsFrame? && DecodePayload(t, payload).Err? {
      ParserRuns.SettingsErrors(payload, 0, map[]);
    }
  }

  /** The bytes are a code, a length and as many bytes of payload, in any form of the two integers. */
  ghost predicate WholeFrame(s: seq<byte>, code: u64, n: nat, length: u64, m: nat) {
    Varint.IsForm(s, code, n) && Varint.IsForm(s[n..], length, m) && n + m + length <= |s|
  }

  /**
    For every whole frame within the limit, whoever wrote it: the parser returns exactly the frame it says, and
    goes on after it. If it says none, an unknown code is reported and everything stays, and otherwise the frame is
    skipped with an error.
   */
  lemma FrameMeansIff(s: seq<byte>, code: u64, n: nat, length: u64, m: nat, maxFrameSize: nat, f: H3Frame)
    requires WholeFrame(s, code, n, length, m) && length <= maxFrameSize
    ensures var payload, rest := s[n + m..n + m + length], s[n + m + length..];
            var o := ParseOne(WaitingHeader, s, maxFrameSize);
            && (o == Parsed(f, rest) <==> Denotes(code, payload, f))
            && (o.Parsed? || o == if KnownCode(code) then Failed(IncompleteInput, rest)
                                  else Failed(UnknownFrameType(code), s))
  {
    var payload, rest := s[n + m..n + m + length], s[n + m + length..];
    KnownIff(code);
    HeaderRead(s, code, n, length, m, maxFrameSize);
    if KnownCode(code) {
      PayloadMeansIff(code, FrameTypeOf(code).value, payload, f);
      assert s[n + m..][..length] == payload && s[n + m..][length..] == rest;
    }
  }

  lemma HeaderRead(s: seq<byte>, code: u64, n: nat, length: u64, m: nat, maxFrameSize: nat)
    requires WholeFrame(s, code, n, length, m) && length <= maxFrameSize
    ensures TryHeader(s, maxFrameSize)
         == match FrameTypeOf(code)
            case None => Bad(UnknownFrameType(code))
            case Some(t) => Header(t, length, n + m)
  {
    Varint.ReadIff(s, code, n);
    Varint.ReadIff(s[n..], length, m);
  }

  lemma KnownIff(code: u64)
    ensures FrameTypeOf(code).Some? <==> KnownCode(code)
  {
  }

  /** Without a whole frame: the header is judged as soon as its integers are there, the type before the length. */
  lemma HeaderIsJudged(s: seq<byte>, code: u64, n: nat, length: u64, m: nat, maxFrameSize: nat)
    requires |s| >= 2 && Varint.IsForm(s, code, n)
    ensures !KnownCode(code) ==> ParseOne(WaitingHeader, s, maxFrameSize) == Failed(UnknownFrameType(code), s)
    ensures KnownCode(code) && Varint.IsForm(s[n..], length, m) && length > maxFrameSize ==>
              ParseOne(WaitingHeader, s, maxFrameSize) == Failed(FrameTooLarge(length, maxFrameSize), s)
    ensures KnownCode(code) && Varint.IsForm(s[n..], length, m) && length <= maxFrameSize && |s| < n + m + length ==>
              ParseOne(WaitingHeader, s, maxFrameSize).More?
  {
    Varint.ReadIff(s, code, n);
    Varint.ReadIff(s[n..], length, m);
    KnownIff(code);
  }

  /** Until both integers are there, and for known types only, the parser waits. */
  lemma HeaderIsAwaited(s: seq<byte>, code: u64, n: nat, maxFrameSize: nat)
    requires |s| < 2 || Varint.Decode(s).Incomplete?
             || (Varint.IsForm(s, code, n) && KnownCode(code) && Varint.Decode(s[n..]).Incomplete?)
    ensures ParseOne(WaitingHeader, s, maxFrameSize) == More(WaitingHeader, s)
  {
    Varint.ReadIff(s, code, n);
    KnownIff(code);
  }

  // ---------- what a receiver gets ----------

  /** What of a frame can arrive: no stream, end or field section, and identifiers below 2^62. */
  predicate Travels(f: H3Frame) {
    match f
    case Data(stream, _, end) => stream == 0 && !end
    case Headers(stream, headers, end, priority) => stream == 0 && headers == [] && !end && priority == None
    case CancelPush(id) => id < 0x4000_0000_0000_0000
    case Settings(settings) => forall id :: id in settings ==> settings[id] < 0x4000_0000_0000_0000
    case PushPromise(stream, id, headers) => stream == 0 && headers == [] && id < 0x4000_0000_0000_0000
    case Goaway(id) => id < 0x4000_0000_0000_0000
    case MaxPushId(id) => id < 0x4000_0000_0000_0000
  }

  predicate SameId(a: u64, b: u64) {
    a % 0x4000_0000_0000_0000 == b % 0x4000_0000_0000_0000
  }

  /** The frames agree in what the wire carries. */
  predicate Alike(f: H3Frame, g: H3Frame) {
    match (f, g)
    case (Data(_, a, _), Data(_, b, _)) => a == b
    case (Headers(_, _, _, _), Headers(_, _, _, _)) => true
    case (CancelPush(a), CancelPush(b)) => SameId(a, b)
    case (Settings(a), Settings(b)) => a.Keys == b.Keys && forall id :: id in a ==> SameId(a[id], b[id])
    case (PushPromise(_, a, _), PushPromise(_, b, _)) => SameId(a, b)
    case (Goaway(a), Goaway(b)) => SameId(a, b)
    case (MaxPushId(a), MaxPushId(b)) => SameId(a, b)
    case _ => false
  }

  lemma WrappedIff(a: map<SettingId, u64>, b: map<SettingId, u64>)
    ensures b == (map id | id in a :: Wrap(a[id])) <==>
            && (forall id :: id in b ==> b[id] < 0x4000_0000_0000_0000)
            && a.Keys == b.Keys && forall id :: id in a ==> SameId(a[id], b[id])
  {
    var wrapped := map id | id in a :: Wrap(a[id]);
    assert wrapped.Keys == a.Keys;
    if a.Keys == b.Keys {
      forall id | id in a
        ensures b[id] == wrapped[id] <==> b[id] < 0x4000_0000_0000_0000 && SameId(a[id], b[id])
      {
      }
    }
  }

  lemma ErasedIff(f: H3Frame, g: H3Frame)
    ensures g == Erase(f) <==> Travels(g) && Alike(f, g)
  {
    match (f, g)
    case (Settings(a), Settings(b)) => WrappedIff(a, b);
    case _ =>
  }

  /** A sent frame within the limit arrives as the one frame that can arrive and agrees with it on the wire. */
  lemma ReceivedIff(s: Sent, rest: seq<byte>, maxFrameSize: nat, g: H3Frame)
    requires Encodable(s) && |Payload(s)| <= maxFrameSize
    ensures ParseOne(WaitingHeader, EncodeSent(s) + rest, maxFrameSize) == Parsed(g, rest)
       <==> Travels(g) && Alike(s.frame, g)
  {
    FrameRoundTrip(s, rest, maxFrameSize);
    ErasedIff(s.frame, g);
  }
}
