/** When the look-ahead query `HasCompleteFrame` is right, over all buffers and over all runs of a new parser. */
module ParserQuery {
  import opened Bytes
  import opened Frames
  import opened Parsing
  import opened ParserHistory
  import ParserRuns
  import WireFormat
  import Varint

  /** A call that looks for a frame consumes one, whether or not its payload decodes. */
  predicate ConsumesFrame(state: ParserState, buffer: seq<byte>, maxFrameSize: nat) {
    match ParseOne(state, buffer, maxFrameSize)
    case More(_, _) => false
    case Parsed(_, _) => true
    case Failed(_, rest) => state.ReadingPayload? || |rest| < |buffer|
  }

  // ---------- while a header is awaited ----------

  /** A type and a length, both whole, of which one is unacceptable, and as many bytes after them as the length says. */
  predicate UnacceptableWhole(buffer: seq<byte>, maxFrameSize: nat) {
    var code := Varint.Decode(buffer);
    && code.Read?
    && var length := Varint.Decode(buffer[code.used..]);
       && length.Read?
       && |buffer| >= code.used + length.used + length.value
       && (FrameTypeOf(code.value).None? || length.value > maxFrameSize)
  }

  /**
    While a header is awaited the query says whether a frame can be consumed, except exactly for the whole
    frames of an unknown type or an oversized length: it announces those, and they can never be consumed.
   */
  lemma QueryRightIff(buffer: seq<byte>, maxFrameSize: nat)
    ensures (HasCompleteFrame(buffer) <==> ConsumesFrame(WaitingHeader, buffer, maxFrameSize))
       <==> !UnacceptableWhole(buffer, maxFrameSize)
  {
  }

  /** Such a buffer is reached by one call: an empty frame of an unknown type. */
  lemma QueryWrongOnUnknown(p: Parser)
    requires New(p) && p.maxBufferSize >= 2
    ensures var q := Run(p, [Parse(One(ParserRuns.UNKNOWN))]);
            && q.state == WaitingHeader && HasCompleteFrame(q.buffer)
            && !ConsumesFrame(q.state, q.buffer, q.maxFrameSize)
  {
    UnknownLooksWhole(p.maxFrameSize);
    UnknownStays(p, Parse(One(ParserRuns.UNKNOWN)));
  }

  lemma UnknownLooksWhole(maxFrameSize: nat)
    ensures HasCompleteFrame(ParserRuns.UNKNOWN)
    ensures ParseOne(WaitingHeader, ParserRuns.UNKNOWN, maxFrameSize)
         == Failed(UnknownFrameType(2), ParserRuns.UNKNOWN)
  {
    assert ParserRuns.UNKNOWN[1..] == [0];
    assert Varint.Decode(ParserRuns.UNKNOWN) == Varint.Read(2, 1) && Varint.Decode([0]) == Varint.Read(0, 1);
  }

  lemma UnknownStays(p: Parser, u: Use)
    requires New(p) && p.maxBufferSize >= 2 && u == Parse(One(ParserRuns.UNKNOWN))
    requires ParseOne(WaitingHeader, ParserRuns.UNKNOWN, p.maxFrameSize)
          == Failed(UnknownFrameType(2), ParserRuns.UNKNOWN)
    ensures Run(p, [u]).state == WaitingHeader && Run(p, [u]).buffer == ParserRuns.UNKNOWN
    ensures Run(p, [u]).maxFrameSize == p.maxFrameSize
  {
    assert [u][..0] == [] && Run(p, [u]) == Perform(p, u);
    assert p.buffer + ParserRuns.UNKNOWN == ParserRuns.UNKNOWN;
  }

  // ---------- while a payload is awaited ----------

  /** Only the length of the payload matters, which the query does not look at. */
  lemma PayloadNeeds(t: FrameType, length: nat, buffer: seq<byte>, maxFrameSize: nat)
    ensures ConsumesFrame(ReadingPayload(t, length), buffer, maxFrameSize) <==> |buffer| >= length
  {
  }

  /** The shortest header that announces a length. */
  function HeaderSize(length: u64): nat {
    1 + Varint.Size(length)
  }

  /** A payload is awaited: it is not there yet, and it was announced by a header that fitted the buffer. */
  predicate Awaiting(length: nat, held: nat, maxFrameSize: nat, maxBufferSize: nat) {
    held < length <= maxFrameSize && length < Varint.VARINT_BOUND && HeaderSize(length) <= maxBufferSize
  }

  predicate Sane(state: ParserState, buffer: seq<byte>, maxFrameSize: nat, maxBufferSize: nat) {
    && |buffer| <= maxBufferSize
    && (state.ReadingPayload? ==> Awaiting(state.length, |buffer|, maxFrameSize, maxBufferSize))
  }

  /** A payload awaited when a call ends is not there, and its header was. */
  lemma OneSane(state: ParserState, buffer: seq<byte>, maxFrameSize: nat, maxBufferSize: nat)
    requires |buffer| <= maxBufferSize
    requires state.ReadingPayload? ==> Awaiting(state.length, 0, maxFrameSize, maxBufferSize)
    ensures var o := ParseOne(state, buffer, maxFrameSize);
            Sane(StateAfter(o), o.rest, maxFrameSize, maxBufferSize)
  {
    if state.WaitingHeader? {
      var h := TryHeader(buffer, maxFrameSize);
      if h.Header? {
        HeaderFits(buffer, maxFrameSize);
      }
    }
  }

  lemma HeaderFits(buffer: seq<byte>, maxFrameSize: nat)
    requires TryHeader(buffer, maxFrameSize).Header?
    ensures var h := TryHeader(buffer, maxFrameSize);
            h.length < Varint.VARINT_BOUND && HeaderSize(h.length) <= h.used <= |buffer|
  {
    var code := Varint.Decode(buffer);
    Varint.Minimal(buffer[code.used..]);
  }

  lemma {:induction false} DrainSane(state: ParserState, buffer: seq<byte>, maxFrameSize: nat, maxBufferSize: nat)
    requires |buffer| <= maxBufferSize
    requires state.ReadingPayload? ==> Awaiting(state.length, 0, maxFrameSize, maxBufferSize)
    ensures var d := Drain(state, buffer, maxFrameSize); Sane(d.state, d.rest, maxFrameSize, maxBufferSize)
    decreases |buffer|, if state.ReadingPayload? then 1 else 0
  {
    OneSane(state, buffer, maxFrameSize, maxBufferSize);
    var o := ParseOne(state, buffer, maxFrameSize);
    if o.Parsed? {
      DrainSane(WaitingHeader, o.rest, maxFrameSize, maxBufferSize);
    }
  }

  predicate SaneParser(p: Parser) {
    Sane(p.state, p.buffer, p.maxFrameSize, p.maxBufferSize)
  }

  lemma UseSane(p: Parser, u: Use)
    requires SaneParser(p)
    ensures SaneParser(Perform(p, u))
  {
    if u.Parse? && Accept(p, u.call.data).Some? {
      OneSane(p.state, p.buffer + u.call.data, p.maxFrameSize, p.maxBufferSize);
      DrainSane(p.state, p.buffer + u.call.data, p.maxFrameSize, p.maxBufferSize);
    }
  }

  lemma {:induction false} RunSane(p: Parser, uses: seq<Use>)
    requires New(p)
    ensures SaneParser(Run(p, uses))
    ensures Run(p, uses).maxFrameSize == p.maxFrameSize && Run(p, uses).maxBufferSize == p.maxBufferSize
  {
    if uses == [] {
    } else {
      RunSane(p, uses[..|uses| - 1]);
      UseSane(Run(p, uses[..|uses| - 1]), uses[|uses| - 1]);
    }
  }

  /**
    In every run, while a payload is awaited it is not in the buffer, so the query is right exactly when it says
    no: it announces a frame that cannot be consumed exactly when the bytes of the payload received so far
    happen to look like a whole frame.
   */
  lemma AwaitedNeverHeld(p: Parser, uses: seq<Use>)
    requires New(p) && Run(p, uses).state.ReadingPayload?
    ensures var q := Run(p, uses);
            && |q.buffer| < q.state.length && !ConsumesFrame(q.state, q.buffer, q.maxFrameSize)
            && ((HasCompleteFrame(q.buffer) <==> ConsumesFrame(q.state, q.buffer, q.maxFrameSize))
                <==> !HasCompleteFrame(q.buffer))
  {
    RunSane(p, uses);
  }

  // ---------- which payloads can be announced too early ----------

  const EMPTY: seq<byte> := [0, 0]

  lemma EmptyLooksWhole()
    ensures HasCompleteFrame(EMPTY)
  {
    assert EMPTY[1..] == [0];
    assert Varint.Decode(EMPTY) == Varint.Read(0, 1) && Varint.Decode([0]) == Varint.Read(0, 1);
  }

  /** The query announces a payload that is not there. */
  predicate FalseAlarm(q: Parser, t: FrameType, length: nat) {
    q.state == ReadingPayload(t, length) && HasCompleteFrame(q.buffer)
  }

  /** A run to a false alarm: the header in one call, two zero bytes of the payload in the next. */
  function AlarmingRun(t: FrameType, length: u64): seq<Use> {
    [Parse(One(FrameHeader(t, length))), Parse(One(EMPTY))]
  }

  lemma HeaderOnly(p: Parser, t: FrameType, length: u64)
    requires New(p) && 0 < length <= p.maxFrameSize && length < Varint.VARINT_BOUND
    requires HeaderSize(length) <= p.maxBufferSize
    ensures var q := ParseFrame(p, FrameHeader(t, length)).0;
            && q.state == ReadingPayload(t, length) && q.buffer == [] && q.maxBufferSize == p.maxBufferSize
            && q.maxFrameSize == p.maxFrameSize
  {
    var header := FrameHeader(t, length);
    WireFormat.HeaderRoundTrip(t, length, [], p.maxFrameSize);
    assert header + [] == header && p.buffer + header == header;
    assert header[|header|..] == [];
  }

  lemma AlarmReached(p: Parser, t: FrameType, length: u64)
    requires New(p) && 3 <= length <= p.maxFrameSize && length < Varint.VARINT_BOUND
    requires HeaderSize(length) <= p.maxBufferSize
    ensures FalseAlarm(Run(p, AlarmingRun(t, length)), t, length)
  {
    var uses := AlarmingRun(t, length);
    assert uses[..1] == [uses[0]] && uses[..1][..0] == [];
    HeaderOnly(p, t, length);
    var q := ParseFrame(p, FrameHeader(t, length)).0;
    assert Run(p, uses[..1]) == q;
    assert q.buffer + EMPTY == EMPTY;
    EmptyLooksWhole();
  }

  /**
    Exactly the payloads of three bytes or more that the parser takes, and whose header the buffer has room for,
    are announced too early in some run of a new parser.
   */
  lemma FalseAlarmIff(p: Parser, t: FrameType, length: nat)
    requires New(p)
    ensures (exists uses :: FalseAlarm(Run(p, uses), t, length))
       <==> 3 <= length <= p.maxFrameSize && length < Varint.VARINT_BOUND && HeaderSize(length) <= p.maxBufferSize
  {
    if uses :| FalseAlarm(Run(p, uses), t, length) {
      RunSane(p, uses);
    }
    if 3 <= length <= p.maxFrameSize && length < Varint.VARINT_BOUND && HeaderSize(length) <= p.maxBufferSize {
      AlarmReached(p, t, length);
    }
  }
}
