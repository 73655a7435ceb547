/** The incremental frame parser as functions on its state: what one call does to buffer, state and counters. */
module Parsing {
  import opened Bytes
  import opened Frames
  import Varint

  datatype ParserState = WaitingHeader | ReadingPayload(frameType: FrameType, length: nat)

  datatype Stats = Stats(framesParsed: nat, bytesProcessed: nat, parseErrors: nat, bufferOverflows: nat)

  datatype Parser = Parser(
    buffer: seq<byte>, state: ParserState, maxFrameSize: nat, maxBufferSize: nat, stats: Stats)

  datatype HeaderOutcome = NeedMore | Bad(error: ParseError) | Header(frameType: FrameType, length: nat, used: nat)

  function TryHeader(buffer: seq<byte>, maxFrameSize: nat): (h: HeaderOutcome)
    ensures h.Header? ==> 2 <= h.used <= |buffer| && h.length <= maxFrameSize
    ensures h.NeedMore? ==> |buffer| < 16
  {
    if |buffer| < 2 then NeedMore
    else
      match Varint.Decode(buffer)
      case Incomplete => NeedMore
      case Read(code, n) =>
        match FrameTypeOf(code)
        case None => Bad(UnknownFrameType(code))
        case Some(frameType) =>
          match Varint.Decode(buffer[n..])
          case Incomplete => NeedMore
          case Read(length, m) =>
            if length > maxFrameSize then Bad(FrameTooLarge(length, maxFrameSize))
            else Header(frameType, length, n + m)
  }

  /** What the parser finds at the front of its buffer: nothing complete yet, one frame, or an error. */
  datatype Outcome =
    | More(state: ParserState, rest: seq<byte>)
    | Parsed(frame: H3Frame, rest: seq<byte>)
    | Failed(error: ParseError, rest: seq<byte>)

  function ParsePayload(frameType: FrameType, length: nat, buffer: seq<byte>): (o: Outcome)
    ensures !o.More? ==> |o.rest| + length == |buffer|
  {
    if |buffer| < length then More(ReadingPayload(frameType, length), buffer)
    else
      match DecodePayload(frameType, buffer[..length])
      case Ok(frame) => Parsed(frame, buffer[length..])
      case Err(e) => Failed(e, buffer[length..])
  }

  function ParseOne(state: ParserState, buffer: seq<byte>, maxFrameSize: nat): (o: Outcome)
    ensures o.Parsed? ==> |o.rest| <= |buffer| && (state.WaitingHeader? ==> |o.rest| < |buffer|)
  {
    match state
    case ReadingPayload(frameType, length) => ParsePayload(frameType, length, buffer)
    case WaitingHeader =>
      match TryHeader(buffer, maxFrameSize)
      case NeedMore => More(WaitingHeader, buffer)
      case Bad(e) => Failed(e, buffer)
      case Header(frameType, length, used) => ParsePayload(frameType, length, buffer[used..])
  }

  /** Frames parsed one after the other until more input is needed or an error stops the loop. */
  datatype Drained = Drained(frames: seq<H3Frame>, error: Option<ParseError>, state: ParserState, rest: seq<byte>)

  function Prepend(frames: seq<H3Frame>, d: Drained): Drained {
    d.(frames := frames + d.frames)
  }

  lemma PrependNone(d: Drained)
    ensures Prepend([], d) == d
  {
    assert [] + d.frames == d.frames;
  }

  lemma PrependTwice(first: seq<H3Frame>, second: seq<H3Frame>, d: Drained)
    ensures Prepend(first, Prepend(second, d)) == Prepend(first + second, d)
  {
    assert first + (second + d.frames) == first + second + d.frames;
  }

  function Drain(state: ParserState, buffer: seq<byte>, maxFrameSize: nat): Drained
    decreases |buffer|, if state.ReadingPayload? then 1 else 0
  {
    match ParseOne(state, buffer, maxFrameSize)
    case More(next, rest) => Drained([], None, next, rest)
    case Failed(e, rest) => Drained([], Some(e), WaitingHeader, rest)
    case Parsed(frame, rest) =>
      Prepend([frame], Drain(WaitingHeader, rest, maxFrameSize))
  }

  /** Appends `data` unless that would exceed the buffer limit. */
  function Accept(p: Parser, data: seq<byte>): Option<Parser> {
    if |p.buffer| + |data| > p.maxBufferSize then None
    else
      Some(p.(buffer := p.buffer + data,
              stats := p.stats.(bytesProcessed := p.stats.bytesProcessed + |data|)))
  }

  function CountOverflow(p: Parser): Parser {
    p.(stats := p.stats.(bufferOverflows := p.stats.bufferOverflows + 1))
  }

  /** The parser after one frame was looked for in its buffer. */
  function Settle(p: Parser, o: Outcome): Parser {
    match o
    case More(state, rest) => p.(state := state, buffer := rest)
    case Parsed(_, rest) =>
      p.(state := WaitingHeader, buffer := rest,
         stats := p.stats.(framesParsed := p.stats.framesParsed + 1))
    case Failed(_, rest) =>
      p.(state := WaitingHeader, buffer := rest,
         stats := p.stats.(parseErrors := p.stats.parseErrors + 1))
  }

  function ParseFrame(p: Parser, data: seq<byte>): (Parser, Result<Option<H3Frame>, ParseError>) {
    match Accept(p, data)
    case None => (CountOverflow(p), Err(BufferOverflow))
    case Some(q) =>
      var o := ParseOne(q.state, q.buffer, q.maxFrameSize);
      (Settle(q, o),
       match o
       case More(_, _) => Ok(None)
       case Parsed(frame, _) => Ok(Some(frame))
       case Failed(e, _) => Err(e))
  }

  /** The parser after its buffer was drained; frames parsed before an error count but are not returned. */
  function SettleAll(p: Parser, d: Drained): Parser {
    p.(state := d.state, buffer := d.rest,
       stats := p.stats.(framesParsed := p.stats.framesParsed + |d.frames|,
                         parseErrors := p.stats.parseErrors + if d.error.Some? then 1 else 0))
  }

  function ParseFrames(p: Parser, data: seq<byte>): (Parser, Result<seq<H3Frame>, ParseError>) {
    match Accept(p, data)
    case None => (CountOverflow(p), Err(BufferOverflow))
    case Some(q) =>
      var d := Drain(q.state, q.buffer, q.maxFrameSize);
      (SettleAll(q, d), if d.error.Some? then Err(d.error.value) else Ok(d.frames))
  }

  /** Looks at the buffer only, as if a header always came next. */
  predicate HasCompleteFrame(buffer: seq<byte>) {
    && |buffer| >= 2
    && var first := Varint.Decode(buffer);
       first.Read?
       && var second := Varint.Decode(buffer[first.used..]);
          second.Read? && |buffer| >= first.used + second.used + second.value
  }
}
