/** The input explained as whole frames, a pending header and the buffer: byte conservation and unambiguous framing. */
module ParserHistory {
  import opened Bytes
  import opened Frames
  import opened Parsing
  import ParserRuns
  import Varint

  /** A frame as it stood on the wire. */
  datatype RawFrame = RawFrame(frameType: FrameType, header: seq<byte>, payload: seq<byte>)

  /** The frames consumed so far and the header bytes consumed for a payload still awaited. */
  datatype History = History(taken: seq<RawFrame>, pending: seq<byte>)

  lemma Associate<T>(a: seq<T>, b: seq<T>, c: seq<T>)
    ensures a + b + c == a + (b + c)
  {
  }

  function WireBytes(frames: seq<RawFrame>): seq<byte> {
    if frames == [] then [] else frames[0].header + frames[0].payload + WireBytes(frames[1..])
  }

  predicate WellFormed(r: RawFrame, maxFrameSize: nat) {
    TryHeader(r.header, maxFrameSize) == Header(r.frameType, |r.payload|, |r.header|)
  }

  predicate PendingFor(pending: seq<byte>, state: ParserState, maxFrameSize: nat) {
    match state
    case WaitingHeader => pending == []
    case ReadingPayload(frameType, length) =>
      TryHeader(pending, maxFrameSize) == Header(frameType, length, |pending|)
  }

  /** `input` is the well-formed frames taken, then the pending header, then the buffer. */
  predicate Explains(h: History, input: seq<byte>, state: ParserState, buffer: seq<byte>, maxFrameSize: nat) {
    && input == WireBytes(h.taken) + h.pending + buffer
    && (forall i :: 0 <= i < |h.taken| ==> WellFormed(h.taken[i], maxFrameSize))
    && PendingFor(h.pending, state, maxFrameSize)
  }

  /** The frames parsed: those taken whose payload decodes, in order. Which of them a caller gets is another matter. */
  function Decoded(frames: seq<RawFrame>): seq<H3Frame> {
    if frames == [] then []
    else
      var front, last := frames[..|frames| - 1], frames[|frames| - 1];
      var r := DecodePayload(last.frameType, last.payload);
      if r.Ok? then Decoded(front) + [r.value] else Decoded(front)
  }

  lemma {:induction false} WireBytesAppend(frames: seq<RawFrame>, r: RawFrame)
    ensures WireBytes(frames + [r]) == WireBytes(frames) + r.header + r.payload
  {
    if frames == [] {
      assert [] + [r] == [r];
      assert [r][1..] == [];
    } else {
      WireBytesAppend(frames[1..], r);
      assert (frames + [r])[1..] == frames[1..] + [r];
    }
  }

  /** A header is read from the bytes it consumes and from no others. */
  lemma HeaderReadsItsOwnBytes(buffer: seq<byte>, maxFrameSize: nat)
    requires TryHeader(buffer, maxFrameSize).Header?
    ensures var h := TryHeader(buffer, maxFrameSize); TryHeader(buffer[..h.used], maxFrameSize) == h
  {
    var h := TryHeader(buffer, maxFrameSize);
    var own := buffer[..h.used];
    var code := Varint.Decode(buffer);
    var length := Varint.Decode(buffer[code.used..]);
    Varint.ReadsItsOwnBytes(buffer);
    assert own == buffer[..code.used] + own[code.used..];
    Varint.Extend(buffer[..code.used], own[code.used..]);
    assert own[code.used..] == buffer[code.used..][..length.used];
    Varint.ReadsItsOwnBytes(buffer[code.used..]);
  }

  /** The history once the parser has looked for one frame. */
  function Advance(h: History, state: ParserState, buffer: seq<byte>, maxFrameSize: nat): History {
    match state
    case ReadingPayload(frameType, length) => TakePayload(h, frameType, length, buffer)
    case WaitingHeader =>
      match TryHeader(buffer, maxFrameSize)
      case NeedMore => h
      case Bad(_) => h
      case Header(frameType, length, used) =>
        TakePayload(h.(pending := buffer[..used]), frameType, length, buffer[used..])
  }

  function TakePayload(h: History, frameType: FrameType, length: nat, buffer: seq<byte>): History {
    if |buffer| < length then h
    else History(h.taken + [RawFrame(frameType, h.pending, buffer[..length])], [])
  }

  function StateAfter(o: Outcome): ParserState {
    if o.More? then o.state else WaitingHeader
  }

  /** Which frames an outcome adds to those parsed. */
  function Yielded(o: Outcome): seq<H3Frame> {
    if o.Parsed? then [o.frame] else []
  }

  lemma PayloadExplained(
    h: History, input: seq<byte>, frameType: FrameType, length: nat, buffer: seq<byte>, maxFrameSize: nat)
    requires Explains(h, input, ReadingPayload(frameType, length), buffer, maxFrameSize)
    ensures var o := ParsePayload(frameType, length, buffer);
            Explains(TakePayload(h, frameType, length, buffer), input, StateAfter(o), o.rest, maxFrameSize)
  {
    if length <= |buffer| {
      var payload, rest := buffer[..length], buffer[length..];
      WireBytesAppend(h.taken, RawFrame(frameType, h.pending, payload));
      assert buffer == payload + rest;
      Associate(WireBytes(h.taken) + h.pending, payload, rest);
    }
  }

  lemma PayloadYields(h: History, frameType: FrameType, length: nat, buffer: seq<byte>)
    ensures Decoded(TakePayload(h, frameType, length, buffer).taken)
         == Decoded(h.taken) + Yielded(ParsePayload(frameType, length, buffer))
  {
    if length <= |buffer| {
      var r := RawFrame(frameType, h.pending, buffer[..length]);
      assert (h.taken + [r])[..|h.taken|] == h.taken;
    }
  }

  lemma HeaderExplained(h: History, input: seq<byte>, buffer: seq<byte>, maxFrameSize: nat)
    requires Explains(h, input, WaitingHeader, buffer, maxFrameSize) && TryHeader(buffer, maxFrameSize).Header?
    ensures var header := TryHeader(buffer, maxFrameSize);
            Explains(h.(pending := buffer[..header.used]), input, ReadingPayload(header.frameType, header.length),
                     buffer[header.used..], maxFrameSize)
  {
    var header := TryHeader(buffer, maxFrameSize);
    HeaderReadsItsOwnBytes(buffer, maxFrameSize);
    assert buffer == buffer[..header.used] + buffer[header.used..];
    assert input == WireBytes(h.taken) + buffer;
    Associate(WireBytes(h.taken), buffer[..header.used], buffer[header.used..]);
  }

  /** Looking for one frame keeps the explanation. */
  lemma ParseOneExplained(h: History, input: seq<byte>, state: ParserState, buffer: seq<byte>, maxFrameSize: nat)
    requires Explains(h, input, state, buffer, maxFrameSize)
    ensures var o := ParseOne(state, buffer, maxFrameSize);
            Explains(Advance(h, state, buffer, maxFrameSize), input, StateAfter(o), o.rest, maxFrameSize)
  {
    match state
    case ReadingPayload(frameType, length) =>
      PayloadExplained(h, input, frameType, length, buffer, maxFrameSize);
    case WaitingHeader =>
      var header := TryHeader(buffer, maxFrameSize);
      if header.Header? {
        HeaderExplained(h, input, buffer, maxFrameSize);
        var g := h.(pending := buffer[..header.used]);
        PayloadExplained(g, input, header.frameType, header.length, buffer[header.used..], maxFrameSize);
      }
  }

  /** A frame is taken exactly when one is consumed, and parsed exactly when its payload decodes. */
  lemma ParseOneYields(h: History, state: ParserState, buffer: seq<byte>, maxFrameSize: nat)
    ensures Decoded(Advance(h, state, buffer, maxFrameSize).taken)
         == Decoded(h.taken) + Yielded(ParseOne(state, buffer, maxFrameSize))
  {
    match state
    case ReadingPayload(frameType, length) => PayloadYields(h, frameType, length, buffer);
    case WaitingHeader =>
      var header := TryHeader(buffer, maxFrameSize);
      if header.Header? {
        var g := h.(pending := buffer[..header.used]);
        PayloadYields(g, header.frameType, header.length, buffer[header.used..]);
      }
  }

  /** The history once the buffer was drained. */
  function AdvanceAll(h: History, state: ParserState, buffer: seq<byte>, maxFrameSize: nat): History
    decreases |buffer|, if state.ReadingPayload? then 1 else 0
  {
    var next, o := Advance(h, state, buffer, maxFrameSize), ParseOne(state, buffer, maxFrameSize);
    if o.Parsed? then AdvanceAll(next, WaitingHeader, o.rest, maxFrameSize) else next
  }

  lemma {:induction false} DrainExplained(
    h: History, input: seq<byte>, state: ParserState, buffer: seq<byte>, maxFrameSize: nat)
    requires Explains(h, input, state, buffer, maxFrameSize)
    ensures var d := Drain(state, buffer, maxFrameSize);
            Explains(AdvanceAll(h, state, buffer, maxFrameSize), input, d.state, d.rest, maxFrameSize)
    decreases |buffer|, if state.ReadingPayload? then 1 else 0
  {
    ParseOneExplained(h, input, state, buffer, maxFrameSize);
    var next, o := Advance(h, state, buffer, maxFrameSize), ParseOne(state, buffer, maxFrameSize);
    if o.Parsed? {
      DrainExplained(next, input, WaitingHeader, o.rest, maxFrameSize);
    }
  }

  lemma {:induction false} DrainYields(h: History, state: ParserState, buffer: seq<byte>, maxFrameSize: nat)
    ensures Decoded(AdvanceAll(h, state, buffer, maxFrameSize).taken)
         == Decoded(h.taken) + Drain(state, buffer, maxFrameSize).frames
    decreases |buffer|, if state.ReadingPayload? then 1 else 0
  {
    ParseOneYields(h, state, buffer, maxFrameSize);
    var next, o := Advance(h, state, buffer, maxFrameSize), ParseOne(state, buffer, maxFrameSize);
    if o.Parsed? {
      DrainYields(next, WaitingHeader, o.rest, maxFrameSize);
      Associate(Decoded(h.taken), [o.frame], Drain(WaitingHeader, o.rest, maxFrameSize).frames);
    }
  }

  // ---------- one call ----------

  datatype Call = One(data: seq<byte>) | Many(data: seq<byte>)

  function Apply(p: Parser, c: Call): Parser {
    match c
    case One(data) => ParseFrame(p, data).0
    case Many(data) => ParseFrames(p, data).0
  }

  lemma ExplainsMore(
    h: History, input: seq<byte>, state: ParserState, buffer: seq<byte>, data: seq<byte>, maxFrameSize: nat)
    requires Explains(h, input, state, buffer, maxFrameSize)
    ensures Explains(h, input + data, state, buffer + data, maxFrameSize)
  {
    assert input + data == WireBytes(h.taken) + h.pending + (buffer + data);
  }

  /** The history once a call was made. */
  function AfterCall(h: History, p: Parser, c: Call): History {
    if Accept(p, c.data).None? then h
    else if c.One? then Advance(h, p.state, p.buffer + c.data, p.maxFrameSize)
    else AdvanceAll(h, p.state, p.buffer + c.data, p.maxFrameSize)
  }

  /** What a call adds to the input: its data unless the buffer has no room for it. */
  function Admitted(p: Parser, c: Call): seq<byte> {
    if Accept(p, c.data).Some? then c.data else []
  }

  /** One call, successful or not, keeps the explanation of everything accepted so far. */
  lemma CallExplained(p: Parser, c: Call, h: History, input: seq<byte>)
    requires Explains(h, input, p.state, p.buffer, p.maxFrameSize)
    ensures Explains(AfterCall(h, p, c), input + Admitted(p, c), Apply(p, c).state, Apply(p, c).buffer, p.maxFrameSize)
  {
    if Accept(p, c.data).None? {
      assert input + [] == input;
    } else {
      ExplainsMore(h, input, p.state, p.buffer, c.data, p.maxFrameSize);
      if c.One? {
        ParseOneExplained(h, input + c.data, p.state, p.buffer + c.data, p.maxFrameSize);
      } else {
        DrainExplained(h, input + c.data, p.state, p.buffer + c.data, p.maxFrameSize);
      }
    }
  }

  /** One call counts the bytes it admits and the frames it parses, and keeps the limits. */
  lemma CallCounted(p: Parser, c: Call, h: History)
    ensures Apply(p, c).stats.bytesProcessed == p.stats.bytesProcessed + |Admitted(p, c)|
    ensures |Decoded(AfterCall(h, p, c).taken)| - Apply(p, c).stats.framesParsed
         == |Decoded(h.taken)| - p.stats.framesParsed
    ensures Apply(p, c).maxFrameSize == p.maxFrameSize
  {
    ParseOneYields(h, p.state, p.buffer + c.data, p.maxFrameSize);
    DrainYields(h, p.state, p.buffer + c.data, p.maxFrameSize);
  }

  /** The frames that a call returns. */
  function Returned(p: Parser, c: Call): seq<H3Frame> {
    match c
    case One(data) =>
      var r := ParseFrame(p, data).1;
      if r.Ok? && r.value.Some? then [r.value.value] else []
    case Many(data) =>
      var r := ParseFrames(p, data).1;
      if r.Ok? then r.value else []
  }

  /** The frames that a call parsed and dropped because it failed. */
  function Lost(p: Parser, c: Call): seq<H3Frame> {
    if c.Many? then ParserRuns.Dropped(p, c.data) else []
  }

  lemma AppendNone<T>(s: seq<T>)
    ensures s + [] == s
  {
  }

  lemma OneReturns(p: Parser, data: seq<byte>)
    requires Accept(p, data).Some?
    ensures Returned(p, One(data)) == Yielded(ParseOne(p.state, p.buffer + data, p.maxFrameSize))
  {
  }

  lemma ManyReturns(p: Parser, data: seq<byte>)
    requires Accept(p, data).Some?
    ensures Returned(p, Many(data)) + Lost(p, Many(data)) == Drain(p.state, p.buffer + data, p.maxFrameSize).frames
  {
  }

  lemma NothingReturned(p: Parser, c: Call)
    requires Accept(p, c.data).None?
    ensures Returned(p, c) == [] && Lost(p, c) == []
  {
  }

  lemma CallYields(p: Parser, c: Call, h: History)
    ensures Decoded(AfterCall(h, p, c).taken) == Decoded(h.taken) + (Returned(p, c) + Lost(p, c))
  {
    if Accept(p, c.data).None? {
      NothingReturned(p, c);
      AppendNone(Decoded(h.taken));
    } else if c.One? {
      OneReturns(p, c.data);
      AppendNone(Returned(p, c));
      ParseOneYields(h, p.state, p.buffer + c.data, p.maxFrameSize);
    } else {
      ManyReturns(p, c.data);
      DrainYields(h, p.state, p.buffer + c.data, p.maxFrameSize);
    }
  }

  // ---------- whole runs ----------

  /** A use of the parser: a call that parses, or one of the two that throw something away. */
  datatype Use = Parse(call: Call) | Clear | ResetStats

  function Perform(p: Parser, u: Use): Parser {
    match u
    case Parse(c) => Apply(p, c)
    case Clear => p.(buffer := [], state := WaitingHeader)
    case ResetStats => p.(stats := Stats(0, 0, 0, 0))
  }

  function Run(p: Parser, uses: seq<Use>): Parser {
    if uses == [] then p else Perform(Run(p, uses[..|uses| - 1]), uses[|uses| - 1])
  }

  /**
    What happened: the input accepted since the last `Clear` and its explanation; the frames parsed and the
    number of bytes accepted before; and the bytes and frames that resets of the counters have forgotten.
   */
  datatype Log = Log(
    history: History, input: seq<byte>, earlier: seq<H3Frame>, clearedBytes: nat, resetBytes: nat, resetFrames: nat)

  function Record(l: Log, p: Parser, u: Use): Log {
    match u
    case Parse(c) => l.(history := AfterCall(l.history, p, c), input := l.input + Admitted(p, c))
    case Clear =>
      l.(history := History([], []), input := [], earlier := AllParsed(l), clearedBytes := l.clearedBytes + |l.input|)
    case ResetStats =>
      l.(resetBytes := l.resetBytes + p.stats.bytesProcessed, resetFrames := l.resetFrames + p.stats.framesParsed)
  }

  /** All frames ever parsed. */
  function AllParsed(l: Log): seq<H3Frame> {
    l.earlier + Decoded(l.history.taken)
  }

  function LogOf(p: Parser, uses: seq<Use>): Log {
    if uses == [] then Log(History([], []), [], [], 0, 0, 0)
    else Record(LogOf(p, uses[..|uses| - 1]), Run(p, uses[..|uses| - 1]), uses[|uses| - 1])
  }

  predicate New(p: Parser) {
    p.state == WaitingHeader && p.buffer == [] && p.stats == Stats(0, 0, 0, 0)
  }

  /** The log explains the parser: state and buffer by the input since the last `Clear`, the counters by everything. */
  predicate Accounts(l: Log, q: Parser) {
    && Explains(l.history, l.input, q.state, q.buffer, q.maxFrameSize)
    && q.stats.bytesProcessed + l.resetBytes == l.clearedBytes + |l.input|
    && q.stats.framesParsed + l.resetFrames == |AllParsed(l)|
  }

  lemma UseAccounted(l: Log, p: Parser, u: Use)
    requires Accounts(l, p)
    ensures Accounts(Record(l, p, u), Perform(p, u))
  {
    if u.Parse? {
      CallExplained(p, u.call, l.history, l.input);
      CallCounted(p, u.call, l.history);
    }
  }

  /**
    Byte conservation over any run of a new parser, errors, clearing and resetting included: the bytes counted
    are those of the whole frames taken, of the pending header and of the buffer, and the frames counted are
    the taken frames whose payload decodes, once what was cleared and what was reset is accounted for.
   */
  lemma {:induction false} BytesConserved(p: Parser, uses: seq<Use>)
    requires New(p)
    ensures var q, l := Run(p, uses), LogOf(p, uses);
            && Accounts(l, q)
            && q.stats.bytesProcessed + l.resetBytes
               == l.clearedBytes + |WireBytes(l.history.taken)| + |l.history.pending| + |q.buffer|
  {
    if uses == [] {
    } else {
      var front, last := uses[..|uses| - 1], uses[|uses| - 1];
      BytesConserved(p, front);
      UseAccounted(LogOf(p, front), Run(p, front), last);
    }
  }

  // ---------- which frames the callers get ----------

  function ReturnedBy(p: Parser, uses: seq<Use>): seq<H3Frame> {
    if uses == [] then []
    else
      var front, last := uses[..|uses| - 1], uses[|uses| - 1];
      ReturnedBy(p, front) + if last.Parse? then Returned(Run(p, front), last.call) else []
  }

  function LostBy(p: Parser, uses: seq<Use>): nat {
    if uses == [] then 0
    else
      var front, last := uses[..|uses| - 1], uses[|uses| - 1];
      LostBy(p, front) + if last.Parse? then |Lost(Run(p, front), last.call)| else 0
  }

  lemma ReturnedExtends(
    parsed: seq<H3Frame>, returned: seq<H3Frame>, lost: nat, more: seq<H3Frame>, dropped: seq<H3Frame>)
    requires |parsed| == |returned| + lost && (returned == parsed <==> lost == 0)
    ensures returned + more == parsed + (more + dropped) <==> lost + |dropped| == 0
  {
    if lost + |dropped| == 0 {
      AppendNone(more);
    } else {
      assert |parsed + (more + dropped)| > |returned + more|;
    }
  }

  lemma UseYields(l: Log, p: Parser, u: Use)
    ensures AllParsed(Record(l, p, u))
         == AllParsed(l) + if u.Parse? then Returned(p, u.call) + Lost(p, u.call) else []
  {
    AppendNone(AllParsed(l));
    if u.Parse? {
      CallYields(p, u.call, l.history);
      Associate(l.earlier, Decoded(l.history.taken), Returned(p, u.call) + Lost(p, u.call));
    }
  }

  /**
    Over any run the frames parsed are those returned and those lost in failing calls; the callers got exactly
    the frames parsed, in order, if and only if no failing call had parsed any.
   */
  lemma {:induction false} FramesAccounted(p: Parser, uses: seq<Use>)
    ensures |AllParsed(LogOf(p, uses))| == |ReturnedBy(p, uses)| + LostBy(p, uses)
    ensures ReturnedBy(p, uses) == AllParsed(LogOf(p, uses)) <==> LostBy(p, uses) == 0
  {
    if uses == [] {
    } else {
      var front, last := uses[..|uses| - 1], uses[|uses| - 1];
      var p', l := Run(p, front), LogOf(p, front);
      FramesAccounted(p, front);
      UseYields(l, p', last);
      ReturnedExtends(AllParsed(l), ReturnedBy(p, front), LostBy(p, front),
                      if last.Parse? then Returned(p', last.call) else [], if last.Parse? then Lost(p', last.call) else []);
    }
  }

  // ---------- which errors are counted ----------

  function ErrorOf(p: Parser, c: Call): Option<ParseError> {
    match c
    case One(data) =>
      var r := ParseFrame(p, data).1;
      if r.Err? then Some(r.error) else None
    case Many(data) =>
      var r := ParseFrames(p, data).1;
      if r.Err? then Some(r.error) else None
  }

  lemma {:induction false} DrainNeverOverflows(state: ParserState, buffer: seq<byte>, maxFrameSize: nat)
    ensures Drain(state, buffer, maxFrameSize).error != Some(BufferOverflow)
    decreases |buffer|, if state.ReadingPayload? then 1 else 0
  {
    OneNeverOverflows(state, buffer, maxFrameSize);
    var o := ParseOne(state, buffer, maxFrameSize);
    if o.Parsed? {
      DrainNeverOverflows(WaitingHeader, o.rest, maxFrameSize);
    }
  }

  lemma OneNeverOverflows(state: ParserState, buffer: seq<byte>, maxFrameSize: nat)
    ensures var o := ParseOne(state, buffer, maxFrameSize); o.Failed? ==> o.error != BufferOverflow
  {
    forall t, payload
      ensures DecodePayload(t, payload).Err? ==> DecodePayload(t, payload).error != BufferOverflow
    {
      if t.SettingsFrame? && DecodeSettings(payload, 0, map[]).Err? {
        ParserRuns.SettingsErrors(payload, 0, map[]);
      }
    }
  }

  /**
    A call overflows exactly when its data does not fit the buffer beside what is there, to the last byte; it then
    changes nothing but the counter of overflows. Every other failure is counted as a parse error.
   */
  lemma OverflowIff(p: Parser, c: Call)
    ensures ErrorOf(p, c) == Some(BufferOverflow) <==> |p.buffer| + |c.data| > p.maxBufferSize
    ensures ErrorOf(p, c) == Some(BufferOverflow) ==>
              Apply(p, c) == p.(stats := p.stats.(bufferOverflows := p.stats.bufferOverflows + 1))
    ensures ErrorOf(p, c) != Some(BufferOverflow) ==>
              && Apply(p, c).stats.bufferOverflows == p.stats.bufferOverflows
              && Apply(p, c).stats.parseErrors == p.stats.parseErrors + if ErrorOf(p, c).Some? then 1 else 0
  {
    DrainNeverOverflows(p.state, p.buffer + c.data, p.maxFrameSize);
    OneNeverOverflows(p.state, p.buffer + c.data, p.maxFrameSize);
  }

  /** How many calls since the last reset of the counters failed in the buffer, or in any other way. */
  function Failures(p: Parser, uses: seq<Use>, overflow: bool): nat {
    if uses == [] || uses[|uses| - 1].ResetStats? then 0
    else
      var front, last := uses[..|uses| - 1], uses[|uses| - 1];
      Failures(p, front, overflow)
      + if last.Parse? && ErrorOf(Run(p, front), last.call).Some?
           && (ErrorOf(Run(p, front), last.call).value == BufferOverflow) == overflow then 1 else 0
  }

  /** Over any run of a new parser the two error counters are the numbers of calls that failed in the two ways. */
  lemma {:induction false} ErrorsCounted(p: Parser, uses: seq<Use>)
    requires New(p)
    ensures Run(p, uses).stats.parseErrors == Failures(p, uses, false)
    ensures Run(p, uses).stats.bufferOverflows == Failures(p, uses, true)
  {
    if uses == [] {
    } else {
      var front, last := uses[..|uses| - 1], uses[|uses| - 1];
      ErrorsCounted(p, front);
      if last.Parse? {
        OverflowIff(Run(p, front), last.call);
      }
    }
  }

  // ---------- the explanation is forced by the input ----------

  /** The first frame of an explanation is what the header reader finds in the input. */
  lemma FirstFrameForced(frames: seq<RawFrame>, rest: seq<byte>, input: seq<byte>, maxFrameSize: nat)
    requires frames != [] && WellFormed(frames[0], maxFrameSize)
    requires input == WireBytes(frames) + rest
    ensures TryHeader(input, maxFrameSize) == Header(frames[0].frameType, |frames[0].payload|, |frames[0].header|)
    ensures input == frames[0].header + (frames[0].payload + (WireBytes(frames[1..]) + rest))
  {
    var r := frames[0];
    var tail := r.payload + (WireBytes(frames[1..]) + rest);
    Associate(r.header + r.payload, WireBytes(frames[1..]), rest);
    Associate(r.header, r.payload, WireBytes(frames[1..]) + rest);
    HeaderForced(r.header, tail, maxFrameSize);
  }

  lemma SameSplit(a: seq<byte>, b: seq<byte>, x: seq<byte>, y: seq<byte>)
    requires a + x == b + y && |a| == |b|
    ensures a == b && x == y
  {
    assert a == (a + x)[..|a|] && b == (b + y)[..|b|];
    assert x == (a + x)[|a|..] && y == (b + y)[|b|..];
  }

  lemma HeaderForced(header: seq<byte>, tail: seq<byte>, maxFrameSize: nat)
    requires TryHeader(header, maxFrameSize).Header?
    ensures TryHeader(header + tail, maxFrameSize) == TryHeader(header, maxFrameSize)
  {
    Varint.Extend(header, tail);
    var n := Varint.Decode(header).used;
    assert (header + tail)[n..] == header[n..] + tail;
    Varint.Extend(header[n..], tail);
  }

  /** Framing is unambiguous: of two decompositions of one input, one continues the other. */
  lemma {:induction false} Unambiguous(
    one: seq<RawFrame>, oneRest: seq<byte>, other: seq<RawFrame>, otherRest: seq<byte>, maxFrameSize: nat)
    requires WireBytes(one) + oneRest == WireBytes(other) + otherRest
    requires forall i :: 0 <= i < |one| ==> WellFormed(one[i], maxFrameSize)
    requires forall i :: 0 <= i < |other| ==> WellFormed(other[i], maxFrameSize)
    ensures one <= other || other <= one
    decreases |one|
  {
    if one != [] && other != [] {
      var input := WireBytes(one) + oneRest;
      FirstFrameForced(one, oneRest, input, maxFrameSize);
      FirstFrameForced(other, otherRest, input, maxFrameSize);
      var x, y := WireBytes(one[1..]) + oneRest, WireBytes(other[1..]) + otherRest;
      SameSplit(one[0].header, other[0].header, one[0].payload + x, other[0].payload + y);
      SameSplit(one[0].payload, other[0].payload, x, y);
      Unambiguous(one[1..], oneRest, other[1..], otherRest, maxFrameSize);
      assert one == [one[0]] + one[1..] && other == [other[0]] + other[1..];
    }
  }
}
