/** What a failing call leaves behind, and for how long: errors that stick and errors that pass. */
module ParserErrors {
  import opened Bytes
  import opened Frames
  import opened Parsing
  import opened ParserHistory
  import ParserRuns

  /** The buffer starts with a header that can never be accepted. */
  predicate Stuck(p: Parser, e: ParseError) {
    p.state == WaitingHeader && TryHeader(p.buffer, p.maxFrameSize) == Bad(e)
  }

  /** A call that fails with `e`, or with an overflow before it looks at the buffer. */
  predicate FailsWith(p: Parser, c: Call, e: ParseError) {
    match c
    case One(data) => ParseFrame(p, data).1 in {Err(e), Err(BufferOverflow)}
    case Many(data) => ParseFrames(p, data).1 in {Err(e), Err(BufferOverflow)}
  }

  /** Once stuck, a call repeats the error or overflows, and consumes nothing. */
  lemma StaysStuck(p: Parser, e: ParseError, c: Call)
    requires Stuck(p, e)
    ensures Stuck(Apply(p, c), e) && p.buffer <= Apply(p, c).buffer && FailsWith(p, c, e)
  {
    ParserRuns.HeaderExtend(p.buffer, c.data, p.maxFrameSize);
  }

  lemma {:induction false} StuckRun(p: Parser, e: ParseError, uses: seq<Use>)
    requires Stuck(p, e) && Clear !in uses
    ensures Stuck(Run(p, uses), e) && p.buffer <= Run(p, uses).buffer
  {
    if uses == [] {
    } else {
      var front, last := uses[..|uses| - 1], uses[|uses| - 1];
      StuckRun(p, e, front);
      if last.Parse? {
        StaysStuck(Run(p, front), e, last.call);
      }
    }
  }

  /** So does every call of every run from there, until the parser is cleared. */
  lemma StuckForever(p: Parser, e: ParseError, uses: seq<Use>)
    requires Stuck(p, e) && Clear !in uses
    ensures Stuck(Run(p, uses), e) && p.buffer <= Run(p, uses).buffer
    ensures forall k :: 0 <= k < |uses| && uses[k].Parse? ==> FailsWith(Run(p, uses[..k]), uses[k].call, e)
  {
    StuckRun(p, e, uses);
    forall k | 0 <= k < |uses| && uses[k].Parse?
      ensures FailsWith(Run(p, uses[..k]), uses[k].call, e)
    {
      StuckRun(p, e, uses[..k]);
      StaysStuck(Run(p, uses[..k]), e, uses[k].call);
    }
  }

  /** Clearing ends it: nothing is left to fail on. */
  lemma ClearUnsticks(p: Parser, e: ParseError)
    ensures !Stuck(Perform(p, Clear), e) && ParserRuns.Settled(Perform(p, Clear))
  {
  }

  lemma BadIsNotIncomplete(buffer: seq<byte>, maxFrameSize: nat)
    requires TryHeader(buffer, maxFrameSize).Bad?
    ensures TryHeader(buffer, maxFrameSize).error != IncompleteInput
  {
  }

  /** `r` was consumed last, and its payload does not decode. */
  ghost predicate Undecodable(h: History, r: RawFrame, after: History) {
    after == History(h.taken + [r], []) && DecodePayload(r.frameType, r.payload).Err?
  }

  /**
    A failing `ParseFrame` leaves the parser stuck with its error exactly when it finds an unacceptable header
    where it expects one; nothing is consumed then. Otherwise it took one whole frame, whose payload does not
    decode.
   */
  lemma ErrorSticksIff(p: Parser, data: seq<byte>, e: ParseError, h: History, input: seq<byte>)
    requires Explains(h, input, p.state, p.buffer, p.maxFrameSize)
    requires ParseFrame(p, data).1 == Err(e) && e != BufferOverflow
    ensures Stuck(ParseFrame(p, data).0, e) <==>
            p.state.WaitingHeader? && TryHeader(p.buffer + data, p.maxFrameSize).Bad?
    ensures Stuck(ParseFrame(p, data).0, e) ==> ParseFrame(p, data).0.buffer == p.buffer + data
    ensures !Stuck(ParseFrame(p, data).0, e) ==>
              exists r: RawFrame, after ::
                && Undecodable(h, r, after)
                && Explains(after, input + data, WaitingHeader, ParseFrame(p, data).0.buffer, p.maxFrameSize)
  {
    var buffer, q := p.buffer + data, ParseFrame(p, data).0;
    ExplainsMore(h, input, p.state, p.buffer, data, p.maxFrameSize);
    ParseOneExplained(h, input + data, p.state, buffer, p.maxFrameSize);
    var after := Advance(h, p.state, buffer, p.maxFrameSize);
    if p.state.WaitingHeader? && TryHeader(buffer, p.maxFrameSize).Bad? {
    } else {
      var r := after.taken[|h.taken|];
      assert Undecodable(h, r, after);
      ParserRuns.PayloadErrors(r.frameType, r.payload);
    }
  }

  /** Frames on the wire that the parser takes and can decode. */
  ghost predicate Parseable(frames: seq<RawFrame>, maxFrameSize: nat) {
    forall i :: 0 <= i < |frames| ==>
      WellFormed(frames[i], maxFrameSize) && DecodePayload(frames[i].frameType, frames[i].payload).Ok?
  }

  /** Frames that can be parsed, then a header that can never be accepted. */
  ghost predicate EndsInBadHeader(buffer: seq<byte>, maxFrameSize: nat) {
    exists frames, rest ::
      Parseable(frames, maxFrameSize) && buffer == WireBytes(frames) + rest && TryHeader(rest, maxFrameSize).Bad?
  }

  /** The same from any state: a payload that is awaited comes first, and decodes. */
  ghost predicate LeadsToBadHeader(state: ParserState, buffer: seq<byte>, maxFrameSize: nat) {
    match state
    case WaitingHeader => EndsInBadHeader(buffer, maxFrameSize)
    case ReadingPayload(t, length) =>
      length <= |buffer| && DecodePayload(t, buffer[..length]).Ok? && EndsInBadHeader(buffer[length..], maxFrameSize)
  }

  /** Draining stops at a header that can never be accepted. */
  predicate StoppedByHeader(state: ParserState, buffer: seq<byte>, maxFrameSize: nat)
    decreases |buffer|, if state.ReadingPayload? then 1 else 0
  {
    match ParseOne(state, buffer, maxFrameSize)
    case More(_, _) => false
    case Parsed(_, rest) => StoppedByHeader(WaitingHeader, rest, maxFrameSize)
    case Failed(_, _) => state.WaitingHeader? && TryHeader(buffer, maxFrameSize).Bad?
  }

  /** The frame that is parsed first, as it stands on the wire. */
  lemma FirstOnWire(buffer: seq<byte>, maxFrameSize: nat) returns (first: RawFrame)
    requires ParseOne(WaitingHeader, buffer, maxFrameSize).Parsed?
    ensures Parseable([first], maxFrameSize)
    ensures buffer == first.header + first.payload + ParseOne(WaitingHeader, buffer, maxFrameSize).rest
  {
    var h := TryHeader(buffer, maxFrameSize);
    var tail := buffer[h.used..];
    first := RawFrame(h.frameType, buffer[..h.used], tail[..h.length]);
    HeaderReadsItsOwnBytes(buffer, maxFrameSize);
    assert tail == first.payload + tail[h.length..];
    Associate(first.header, first.payload, tail[h.length..]);
  }

  lemma PutFirst(first: RawFrame, frames: seq<RawFrame>, rest: seq<byte>, maxFrameSize: nat)
    requires Parseable([first], maxFrameSize) && Parseable(frames, maxFrameSize)
    ensures Parseable([first] + frames, maxFrameSize)
    ensures WireBytes([first] + frames) + rest == first.header + first.payload + (WireBytes(frames) + rest)
  {
    assert [first][0] == first;
    assert ([first] + frames)[1..] == frames;
    Associate(first.header + first.payload, WireBytes(frames), rest);
  }

  /** From the way draining goes to what the input looks like. */
  lemma {:induction false} StoppedLeads(buffer: seq<byte>, maxFrameSize: nat)
    returns (frames: seq<RawFrame>, rest: seq<byte>)
    requires StoppedByHeader(WaitingHeader, buffer, maxFrameSize)
    ensures Parseable(frames, maxFrameSize) && buffer == WireBytes(frames) + rest && TryHeader(rest, maxFrameSize).Bad?
    decreases |buffer|
  {
    var o := ParseOne(WaitingHeader, buffer, maxFrameSize);
    if o.Failed? {
      frames, rest := [], buffer;
    } else {
      var first := FirstOnWire(buffer, maxFrameSize);
      frames, rest := StoppedLeads(o.rest, maxFrameSize);
      PutFirst(first, frames, rest, maxFrameSize);
      frames := [first] + frames;
    }
  }

  /** And back: such an input leaves draining no choice. */
  lemma {:induction false} LeadsStopped(frames: seq<RawFrame>, rest: seq<byte>, maxFrameSize: nat)
    requires Parseable(frames, maxFrameSize) && TryHeader(rest, maxFrameSize).Bad?
    ensures StoppedByHeader(WaitingHeader, WireBytes(frames) + rest, maxFrameSize)
    decreases |frames|
  {
    if frames == [] {
      assert [] + rest == rest;
    } else {
      var input := WireBytes(frames) + rest;
      LeadsStopped(frames[1..], rest, maxFrameSize);
      FirstFrameForced(frames, rest, input, maxFrameSize);
      TakesFirst(frames[0], WireBytes(frames[1..]) + rest, input, maxFrameSize);
    }
  }

  lemma TakesFirst(r: RawFrame, after: seq<byte>, input: seq<byte>, maxFrameSize: nat)
    requires TryHeader(input, maxFrameSize) == Header(r.frameType, |r.payload|, |r.header|)
    requires input == r.header + (r.payload + after) && DecodePayload(r.frameType, r.payload).Ok?
    ensures ParseOne(WaitingHeader, input, maxFrameSize) == Parsed(DecodePayload(r.frameType, r.payload).value, after)
  {
    assert input[|r.header|..] == r.payload + after;
    assert (r.payload + after)[..|r.payload|] == r.payload && (r.payload + after)[|r.payload|..] == after;
  }

  lemma StoppedIff(state: ParserState, buffer: seq<byte>, maxFrameSize: nat)
    ensures StoppedByHeader(state, buffer, maxFrameSize) <==> LeadsToBadHeader(state, buffer, maxFrameSize)
  {
    match state
    case WaitingHeader => WaitingStoppedIff(buffer, maxFrameSize);
    case ReadingPayload(t, length) =>
      if length <= |buffer| {
        WaitingStoppedIff(buffer[length..], maxFrameSize);
      }
  }

  lemma WaitingStoppedIff(buffer: seq<byte>, maxFrameSize: nat)
    ensures StoppedByHeader(WaitingHeader, buffer, maxFrameSize) <==> EndsInBadHeader(buffer, maxFrameSize)
  {
    if StoppedByHeader(WaitingHeader, buffer, maxFrameSize) {
      var frames, rest := StoppedLeads(buffer, maxFrameSize);
    }
    if EndsInBadHeader(buffer, maxFrameSize) {
      var frames, rest :|
        Parseable(frames, maxFrameSize) && buffer == WireBytes(frames) + rest && TryHeader(rest, maxFrameSize).Bad?;
      LeadsStopped(frames, rest, maxFrameSize);
    }
  }

  /** The last frame taken has a payload that does not decode. */
  predicate LastUndecodable(h: History) {
    h.taken != []
    && DecodePayload(h.taken[|h.taken| - 1].frameType, h.taken[|h.taken| - 1].payload) == Err(IncompleteInput)
  }

  lemma OneStops(h: History, state: ParserState, buffer: seq<byte>, maxFrameSize: nat)
    requires ParseOne(state, buffer, maxFrameSize).Failed?
    ensures var o, after := ParseOne(state, buffer, maxFrameSize), Advance(h, state, buffer, maxFrameSize);
            if state.WaitingHeader? && TryHeader(buffer, maxFrameSize).Bad?
            then o.rest == buffer && TryHeader(buffer, maxFrameSize) == Bad(o.error) && after == h
            else o.error == IncompleteInput && |after.taken| == |h.taken| + 1 && LastUndecodable(after)
  {
    if state.WaitingHeader? && TryHeader(buffer, maxFrameSize).Bad? {
    } else {
      var r := Advance(h, state, buffer, maxFrameSize).taken[|h.taken|];
      ParserRuns.PayloadErrors(r.frameType, r.payload);
    }
  }

  lemma {:induction false} DrainStops(h: History, state: ParserState, buffer: seq<byte>, maxFrameSize: nat)
    requires Drain(state, buffer, maxFrameSize).error.Some?
    ensures var d, after := Drain(state, buffer, maxFrameSize), AdvanceAll(h, state, buffer, maxFrameSize);
            if StoppedByHeader(state, buffer, maxFrameSize)
            then TryHeader(d.rest, maxFrameSize) == Bad(d.error.value) && |after.taken| == |h.taken| + |d.frames|
            else d.error == Some(IncompleteInput) && |after.taken| == |h.taken| + |d.frames| + 1 && LastUndecodable(after)
    decreases |buffer|, if state.ReadingPayload? then 1 else 0
  {
    var o := ParseOne(state, buffer, maxFrameSize);
    if o.Parsed? {
      OneTaken(h, state, buffer, maxFrameSize);
      DrainStops(Advance(h, state, buffer, maxFrameSize), WaitingHeader, o.rest, maxFrameSize);
    } else {
      OneStops(h, state, buffer, maxFrameSize);
    }
  }

  lemma OneTaken(h: History, state: ParserState, buffer: seq<byte>, maxFrameSize: nat)
    requires ParseOne(state, buffer, maxFrameSize).Parsed?
    ensures |Advance(h, state, buffer, maxFrameSize).taken| == |h.taken| + 1
  {
  }

  /**
    The same for `ParseFrames`, which may take many frames before it fails: it leaves the parser stuck exactly
    when the input goes on with frames that can be parsed up to a header that can never be accepted, and then
    every frame taken was parsed; otherwise it took one frame more, whose payload does not decode.
   */
  lemma DrainErrorSticksIff(p: Parser, data: seq<byte>, e: ParseError, h: History, input: seq<byte>)
    requires Explains(h, input, p.state, p.buffer, p.maxFrameSize)
    requires ParseFrames(p, data).1 == Err(e) && e != BufferOverflow
    ensures Stuck(ParseFrames(p, data).0, e) <==> LeadsToBadHeader(p.state, p.buffer + data, p.maxFrameSize)
    ensures var after := AfterCall(h, p, Many(data));
            && Explains(after, input + data, WaitingHeader, ParseFrames(p, data).0.buffer, p.maxFrameSize)
            && if Stuck(ParseFrames(p, data).0, e) then |after.taken| == |h.taken| + |ParserRuns.Dropped(p, data)|
               else |after.taken| == |h.taken| + |ParserRuns.Dropped(p, data)| + 1 && LastUndecodable(after)
  {
    CallExplained(p, Many(data), h, input);
    DrainStops(h, p.state, p.buffer + data, p.maxFrameSize);
    StoppedIff(p.state, p.buffer + data, p.maxFrameSize);
    FailedDrain(p, data);
    var q := ParseFrames(p, data).0;
    if TryHeader(q.buffer, p.maxFrameSize).Bad? {
      BadIsNotIncomplete(q.buffer, p.maxFrameSize);
    }
  }

  /** What a failing `ParseFrames` leaves, in terms of draining. */
  lemma FailedDrain(p: Parser, data: seq<byte>)
    requires ParseFrames(p, data).1.Err? && ParseFrames(p, data).1 != Err(BufferOverflow)
    ensures Accept(p, data).Some?
    ensures var q, d := ParseFrames(p, data).0, Drain(p.state, p.buffer + data, p.maxFrameSize);
            && ParseFrames(p, data).1 == Err(d.error.value) && ParserRuns.Dropped(p, data) == d.frames
            && q.state == WaitingHeader && q.buffer == d.rest && q.maxFrameSize == p.maxFrameSize
  {
    DrainResets(p.state, p.buffer + data, p.maxFrameSize);
  }

  lemma {:induction false} DrainResets(state: ParserState, buffer: seq<byte>, maxFrameSize: nat)
    ensures Drain(state, buffer, maxFrameSize).error.Some? ==> Drain(state, buffer, maxFrameSize).state == WaitingHeader
    decreases |buffer|, if state.ReadingPayload? then 1 else 0
  {
    var o := ParseOne(state, buffer, maxFrameSize);
    if o.Parsed? {
      DrainResets(WaitingHeader, o.rest, maxFrameSize);
    }
  }
}
