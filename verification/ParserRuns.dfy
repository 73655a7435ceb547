/** Feeding the parser in chunks: what the split of the input can and cannot change, and how small the buffer stays. */
module ParserRuns {
  import opened Bytes
  import opened Frames
  import opened Parsing
  import Varint

  // ---------- more input does not change what was already decided ----------

  lemma HeaderExtend(buffer: seq<byte>, data: seq<byte>, maxFrameSize: nat)
    requires !TryHeader(buffer, maxFrameSize).NeedMore?
    ensures TryHeader(buffer + data, maxFrameSize) == TryHeader(buffer, maxFrameSize)
  {
    Varint.Extend(buffer, data);
    var n := Varint.Decode(buffer).used;
    assert (buffer + data)[n..] == buffer[n..] + data;
    if Varint.Decode(buffer[n..]).Read? {
      Varint.Extend(buffer[n..], data);
    }
  }

  function Extend(o: Outcome, data: seq<byte>): Outcome {
    o.(rest := o.rest + data)
  }

  /** Going on from an outcome when more data arrives. */
  function Resume(o: Outcome, data: seq<byte>, maxFrameSize: nat): Outcome {
    if o.More? then ParseOne(o.state, o.rest + data, maxFrameSize) else Extend(o, data)
  }

  lemma PayloadExtend(frameType: FrameType, length: nat, buffer: seq<byte>, data: seq<byte>)
    requires length <= |buffer|
    ensures ParsePayload(frameType, length, buffer + data) == Extend(ParsePayload(frameType, length, buffer), data)
  {
    assert (buffer + data)[..length] == buffer[..length];
    assert (buffer + data)[length..] == buffer[length..] + data;
  }

  /** A frame or an error found early is found again, and waiting for more loses nothing. */
  lemma ParseOneExtend(state: ParserState, buffer: seq<byte>, data: seq<byte>, maxFrameSize: nat)
    ensures ParseOne(state, buffer + data, maxFrameSize)
         == Resume(ParseOne(state, buffer, maxFrameSize), data, maxFrameSize)
  {
    match state
    case ReadingPayload(frameType, length) =>
      if length <= |buffer| {
        PayloadExtend(frameType, length, buffer, data);
      }
    case WaitingHeader =>
      var h := TryHeader(buffer, maxFrameSize);
      if !h.NeedMore? {
        HeaderExtend(buffer, data, maxFrameSize);
      }
      if h.Header? {
        assert (buffer + data)[h.used..] == buffer[h.used..] + data;
        if h.length <= |buffer| - h.used {
          PayloadExtend(h.frameType, h.length, buffer[h.used..], data);
        }
      }
  }

  function ResumeDrain(d: Drained, data: seq<byte>, maxFrameSize: nat): Drained {
    if d.error.Some? then d.(rest := d.rest + data)
    else Prepend(d.frames, Drain(d.state, d.rest + data, maxFrameSize))
  }

  /** Draining more input is draining what was there and going on from where that stopped. */
  lemma {:induction false} DrainExtend(state: ParserState, buffer: seq<byte>, data: seq<byte>, maxFrameSize: nat)
    ensures Drain(state, buffer + data, maxFrameSize)
         == ResumeDrain(Drain(state, buffer, maxFrameSize), data, maxFrameSize)
    decreases |buffer|, if state.ReadingPayload? then 1 else 0
  {
    ParseOneExtend(state, buffer, data, maxFrameSize);
    var o := ParseOne(state, buffer, maxFrameSize);
    match o
    case More(next, rest) =>
      assert Drain(state, buffer + data, maxFrameSize) == Drain(next, rest + data, maxFrameSize);
      PrependNone(Drain(next, rest + data, maxFrameSize));
    case Failed(e, rest) =>
    case Parsed(frame, rest) =>
      DrainExtend(WaitingHeader, rest, data, maxFrameSize);
      var d := Drain(WaitingHeader, rest, maxFrameSize);
      if d.error.None? {
        PrependTwice([frame], d.frames, Drain(d.state, d.rest + data, maxFrameSize));
      }
  }

  // ---------- chunking ----------

  function Flatten(chunks: seq<seq<byte>>): seq<byte> {
    if chunks == [] then [] else chunks[0] + Flatten(chunks[1..])
  }

  /** The frames that a call of `ParseFrames` parsed and dropped because it failed. */
  function Dropped(p: Parser, data: seq<byte>): seq<H3Frame> {
    match Accept(p, data)
    case None => []
    case Some(q) =>
      var d := Drain(q.state, q.buffer, q.maxFrameSize);
      if d.error.Some? then d.frames else []
  }

  /**
    `ParseFrames` called on the chunks in turn, up to the first error: the frames returned, that error, the
    frames dropped by the failing call, the parser, and the chunks after the failing one.
   */
  datatype Fed = Fed(
    frames: seq<H3Frame>, error: Option<ParseError>, dropped: seq<H3Frame>, parser: Parser, unread: seq<seq<byte>>)

  function Feed(p: Parser, chunks: seq<seq<byte>>): Fed
    decreases |chunks|
  {
    if chunks == [] then Fed([], None, [], p, [])
    else
      var (q, r) := ParseFrames(p, chunks[0]);
      match r
      case Err(e) => Fed([], Some(e), Dropped(p, chunks[0]), q, chunks[1..])
      case Ok(frames) =>
        var fed := Feed(q, chunks[1..]);
        fed.(frames := frames + fed.frames)
  }

  /** Nothing more can be parsed from the buffer: true of a new parser and after every successful call. */
  predicate Settled(p: Parser) {
    Drain(p.state, p.buffer, p.maxFrameSize) == Drained([], None, p.state, p.buffer)
  }

  /** The whole input parsed at once, with no limit on the buffer. */
  function OneShot(p: Parser, input: seq<byte>): Drained {
    Drain(p.state, p.buffer + input, p.maxFrameSize)
  }

  lemma {:induction false} DrainSettles(state: ParserState, buffer: seq<byte>, maxFrameSize: nat)
    requires Drain(state, buffer, maxFrameSize).error.None?
    ensures var d := Drain(state, buffer, maxFrameSize);
            Drain(d.state, d.rest, maxFrameSize) == Drained([], None, d.state, d.rest)
    decreases |buffer|, if state.ReadingPayload? then 1 else 0
  {
    var o := ParseOne(state, buffer, maxFrameSize);
    if o.Parsed? {
      DrainSettles(WaitingHeader, o.rest, maxFrameSize);
    } else {
      ParseOneExtend(state, buffer, [], maxFrameSize);
      assert buffer + [] == buffer && o.rest + [] == o.rest;
    }
  }

  lemma SuccessSettles(p: Parser, data: seq<byte>)
    requires ParseFrames(p, data).1.Ok?
    ensures Settled(ParseFrames(p, data).0)
    ensures OneShot(p, data) == Drained(ParseFrames(p, data).1.value, None, ParseFrames(p, data).0.state,
                                        ParseFrames(p, data).0.buffer)
  {
    DrainSettles(p.state, p.buffer + data, p.maxFrameSize);
  }

  /**
    Feeding in chunks and parsing at once agree: on everything after success; after a parse error on the
    error, on the frames once those dropped are counted, and on the bytes left once those unread are.
   */
  predicate Agree(fed: Fed, whole: Drained) {
    match fed.error
    case None => whole == Drained(fed.frames, None, fed.parser.state, fed.parser.buffer) && Settled(fed.parser)
    case Some(BufferOverflow) => true
    case Some(e) =>
      whole == Drained(fed.frames + fed.dropped, Some(e), fed.parser.state, fed.parser.buffer + Flatten(fed.unread))
  }

  lemma FirstChunk(p: Parser, first: seq<byte>, rest: seq<byte>)
    ensures OneShot(p, first + rest) == ResumeDrain(OneShot(p, first), rest, p.maxFrameSize)
  {
    assert p.buffer + (first + rest) == (p.buffer + first) + rest;
    DrainExtend(p.state, p.buffer + first, rest, p.maxFrameSize);
  }

  /** A failing call: what it drops and leaves. */
  lemma FailureAgrees(p: Parser, first: seq<byte>, chunks: seq<seq<byte>>)
    requires ParseFrames(p, first).1.Err?
    ensures var (q, r) := ParseFrames(p, first);
            Agree(Fed([], Some(r.error), Dropped(p, first), q, chunks),
                  ResumeDrain(OneShot(p, first), Flatten(chunks), p.maxFrameSize))
  {
    assert [] + Dropped(p, first) == Dropped(p, first);
  }

  /** Whatever the chunks, the result is that of parsing the whole input at once, dropped frames included. */
  lemma {:induction false} ChunksAreOneShot(p: Parser, chunks: seq<seq<byte>>)
    requires Settled(p)
    ensures Agree(Feed(p, chunks), OneShot(p, Flatten(chunks)))
    decreases |chunks|
  {
    if chunks == [] {
      assert p.buffer + [] == p.buffer;
    } else {
      var first, rest := chunks[0], Flatten(chunks[1..]);
      var (q, r) := ParseFrames(p, first);
      FirstChunk(p, first, rest);
      if r.Ok? {
        SuccessSettles(p, first);
        ChunksAreOneShot(q, chunks[1..]);
        PrependAgrees(r.value, Feed(q, chunks[1..]), OneShot(q, rest));
      } else {
        FailureAgrees(p, first, chunks[1..]);
      }
    }
  }

  lemma PrependAgrees(frames: seq<H3Frame>, fed: Fed, whole: Drained)
    requires Agree(fed, whole)
    ensures Agree(fed.(frames := frames + fed.frames), Prepend(frames, whole))
  {
    assert frames + (fed.frames + fed.dropped) == frames + fed.frames + fed.dropped;
  }

  lemma AgreeingErrors(fed: Fed, whole: Drained)
    requires Agree(fed, whole) && fed.error != Some(BufferOverflow)
    ensures fed.error == whole.error
  {
  }

  lemma AgreeingSuccess(fed: Fed, whole: Drained)
    requires Agree(fed, whole) && whole.error.None?
    ensures fed.error.None? || fed.error == Some(BufferOverflow)
    ensures fed.error.None? ==>
              fed.frames == whole.frames && fed.parser.state == whole.state && fed.parser.buffer == whole.rest
  {
  }

  /** Two splits of the same input on which every call succeeds leave the same frames, state and buffer. */
  lemma ChunkingIndependence(p: Parser, one: seq<seq<byte>>, other: seq<seq<byte>>)
    requires Settled(p) && Flatten(one) == Flatten(other)
    requires Feed(p, one).error.None? && Feed(p, other).error.None?
    ensures Feed(p, one).frames == Feed(p, other).frames
    ensures Feed(p, one).parser.state == Feed(p, other).parser.state
    ensures Feed(p, one).parser.buffer == Feed(p, other).parser.buffer
  {
    ChunksAreOneShot(p, one);
    ChunksAreOneShot(p, other);
  }

  // ---------- the frames returned before an error ----------

  /** The number of chunks on which the calls succeed before the first error. */
  function Succeeded(p: Parser, chunks: seq<seq<byte>>): (n: nat)
    ensures n <= |chunks|
    decreases |chunks|
  {
    if chunks == [] || ParseFrames(p, chunks[0]).1.Err? then 0
    else 1 + Succeeded(ParseFrames(p, chunks[0]).0, chunks[1..])
  }

  /**
    Feeding stops at the first failing call and returns what feeding the chunks before it returns; what is
    dropped is what that call had parsed.
   */
  lemma {:induction false} FeedStops(p: Parser, chunks: seq<seq<byte>>)
    ensures var k := Succeeded(p, chunks);
            var front, all := Feed(p, chunks[..k]), Feed(p, chunks);
            && front.error == None && front.frames == all.frames && (all.error == None <==> k == |chunks|)
            && (k < |chunks| ==>
                  ParseFrames(front.parser, chunks[k]).1.Err? && all.dropped == Dropped(front.parser, chunks[k]))
    decreases |chunks|
  {
    if chunks == [] {
    } else if ParseFrames(p, chunks[0]).1.Err? {
      assert chunks[..0] == [];
    } else {
      var q, k := ParseFrames(p, chunks[0]).0, Succeeded(p, chunks);
      FeedStops(q, chunks[1..]);
      assert chunks[..k][0] == chunks[0] && chunks[..k][1..] == chunks[1..][..k - 1];
      assert k < |chunks| ==> chunks[k] == chunks[1..][k - 1];
    }
  }

  /**
    In every run the frames returned are those of parsing the chunks before the failing one at once. After a
    parse error they are all the frames of the whole input exactly when the failing call had parsed none.
   */
  lemma FramesBeforeError(p: Parser, chunks: seq<seq<byte>>)
    requires Settled(p)
    ensures Feed(p, chunks).frames == OneShot(p, Flatten(chunks[..Succeeded(p, chunks)])).frames
    ensures Feed(p, chunks).error.Some? && Feed(p, chunks).error != Some(BufferOverflow) ==>
              (Feed(p, chunks).frames == OneShot(p, Flatten(chunks)).frames <==> Feed(p, chunks).dropped == [])
  {
    var front := chunks[..Succeeded(p, chunks)];
    FeedStops(p, chunks);
    ChunksAreOneShot(p, front);
    ChunksAreOneShot(p, chunks);
    AgreeingFrames(Feed(p, front), OneShot(p, Flatten(front)));
    AgreeingFrames(Feed(p, chunks), OneShot(p, Flatten(chunks)));
  }

  lemma AgreeingFrames(fed: Fed, whole: Drained)
    requires Agree(fed, whole)
    ensures fed.error.None? ==> fed.frames == whole.frames
    ensures fed.error.Some? && fed.error != Some(BufferOverflow) ==> (fed.frames == whole.frames <==> fed.dropped == [])
  {
    if fed.error.Some? && fed.error != Some(BufferOverflow) && fed.dropped != [] {
      assert |whole.frames| > |fed.frames|;
    }
  }

  const EMPTY_DATA: seq<byte> := [0, 0]
  const UNKNOWN: seq<byte> := [2, 0]

  /** So after an error the split does matter: one input, two splits, the same error, different frames returned. */
  lemma SplitMattersOnError(p: Parser)
    requires p.state == WaitingHeader && p.buffer == [] && p.maxBufferSize >= 4
    ensures Feed(p, [EMPTY_DATA + UNKNOWN]).error == Some(UnknownFrameType(2))
    ensures Feed(p, [EMPTY_DATA, UNKNOWN]).error == Some(UnknownFrameType(2))
    ensures Feed(p, [EMPTY_DATA + UNKNOWN]).frames == []
    ensures Feed(p, [EMPTY_DATA, UNKNOWN]).frames == [Data(0, [], false)]
  {
    EmptyData(p.maxFrameSize);
    UnknownType(p.maxFrameSize);
    assert p.buffer + EMPTY_DATA == EMPTY_DATA && p.buffer + UNKNOWN == UNKNOWN;
    assert p.buffer + (EMPTY_DATA + UNKNOWN) == EMPTY_DATA + UNKNOWN;
    DrainExtend(WaitingHeader, EMPTY_DATA, UNKNOWN, p.maxFrameSize);
    assert ParseFrames(p, EMPTY_DATA + UNKNOWN).1 == Err(UnknownFrameType(2));
    var q := ParseFrames(p, EMPTY_DATA).0;
    assert ParseFrames(q, UNKNOWN).1 == Err(UnknownFrameType(2));
    FeedInTurn(p, EMPTY_DATA, [UNKNOWN]);
    FeedInTurn(q, UNKNOWN, []);
    FeedInTurn(p, EMPTY_DATA + UNKNOWN, []);
  }

  lemma FeedInTurn(p: Parser, first: seq<byte>, chunks: seq<seq<byte>>)
    ensures var (q, r) := ParseFrames(p, first);
            Feed(p, [first] + chunks)
            == if r.Err? then Fed([], Some(r.error), Dropped(p, first), q, chunks)
               else Feed(q, chunks).(frames := r.value + Feed(q, chunks).frames)
  {
    assert ([first] + chunks)[1..] == chunks;
  }

  /** The two bytes of an empty data frame. */
  lemma EmptyData(maxFrameSize: nat)
    ensures Drain(WaitingHeader, EMPTY_DATA, maxFrameSize) == Drained([Data(0, [], false)], None, WaitingHeader, [])
  {
    assert EMPTY_DATA[1..] == [0] && EMPTY_DATA[2..] == [];
    assert Varint.Decode(EMPTY_DATA) == Varint.Read(0, 1) && Varint.Decode([0]) == Varint.Read(0, 1);
    assert Drain(WaitingHeader, [], maxFrameSize) == Drained([], None, WaitingHeader, []);
  }

  lemma UnknownType(maxFrameSize: nat)
    ensures Drain(WaitingHeader, UNKNOWN, maxFrameSize) == Drained([], Some(UnknownFrameType(2)), WaitingHeader, UNKNOWN)
  {
    assert Varint.Decode(UNKNOWN) == Varint.Read(2, 1);
  }

  // ---------- the buffer ----------

  predicate LegalState(p: Parser) {
    p.state.ReadingPayload? ==> p.state.length <= p.maxFrameSize
  }

  function Residue(p: Parser): nat {
    if p.maxFrameSize < 16 then 15 else p.maxFrameSize - 1
  }

  lemma {:induction false} DrainKeepsLegal(state: ParserState, buffer: seq<byte>, maxFrameSize: nat)
    requires state.ReadingPayload? ==> state.length <= maxFrameSize
    ensures var d := Drain(state, buffer, maxFrameSize); d.state.ReadingPayload? ==> d.state.length <= maxFrameSize
    decreases |buffer|, if state.ReadingPayload? then 1 else 0
  {
    var o := ParseOne(state, buffer, maxFrameSize);
    if o.Parsed? {
      DrainKeepsLegal(WaitingHeader, o.rest, maxFrameSize);
    }
  }

  /** A settled parser holds less than an incomplete header or an incomplete payload. */
  lemma SettledIsSmall(p: Parser)
    requires Settled(p) && LegalState(p)
    ensures |p.buffer| <= Residue(p)
  {
    var o := ParseOne(p.state, p.buffer, p.maxFrameSize);
    assert o == More(p.state, p.buffer);
  }

  /** Chunks no larger than what the residue leaves of the buffer never overflow it. */
  lemma {:induction false} SmallChunksNeverOverflow(p: Parser, chunks: seq<seq<byte>>)
    requires Settled(p) && LegalState(p)
    requires forall c :: c in chunks ==> |c| + Residue(p) <= p.maxBufferSize
    ensures Feed(p, chunks).error != Some(BufferOverflow)
    ensures Feed(p, chunks).error.None? ==> |Feed(p, chunks).parser.buffer| <= Residue(p)
    decreases |chunks|
  {
    SettledIsSmall(p);
    if chunks == [] {
    } else {
      var (q, r) := ParseFrames(p, chunks[0]);
      if r.Ok? {
        SuccessSettles(p, chunks[0]);
        DrainKeepsLegal(p.state, p.buffer + chunks[0], p.maxFrameSize);
        SmallChunksNeverOverflow(q, chunks[1..]);
      } else {
        NoOverflowInside(p.state, p.buffer + chunks[0], p.maxFrameSize);
      }
    }
  }

  /** Parsing itself never reports an overflow; only appending does. */
  lemma {:induction false} NoOverflowInside(state: ParserState, buffer: seq<byte>, maxFrameSize: nat)
    ensures Drain(state, buffer, maxFrameSize).error != Some(BufferOverflow)
    decreases |buffer|, if state.ReadingPayload? then 1 else 0
  {
    var o := ParseOne(state, buffer, maxFrameSize);
    if o.Parsed? {
      NoOverflowInside(WaitingHeader, o.rest, maxFrameSize);
    } else if o.Failed? && state.ReadingPayload? {
      PayloadErrors(state.frameType, buffer[..state.length]);
    } else if o.Failed? {
      var h := TryHeader(buffer, maxFrameSize);
      if h.Header? {
        PayloadErrors(h.frameType, buffer[h.used..][..h.length]);
      }
    }
  }

  lemma PayloadErrors(t: FrameType, payload: seq<byte>)
    requires DecodePayload(t, payload).Err?
    ensures DecodePayload(t, payload).error == IncompleteInput
  {
    if t.SettingsFrame? {
      SettingsErrors(payload, 0, map[]);
    }
  }

  lemma {:induction false} SettingsErrors(payload: seq<byte>, i: nat, settings: map<SettingId, u64>)
    requires i <= |payload| && DecodeSettings(payload, i, settings).Err?
    ensures DecodeSettings(payload, i, settings).error == IncompleteInput
    decreases |payload| - i
  {
    var code := Varint.Decode(payload[i..]);
    if code.Read? {
      var value := Varint.Decode(payload[i + code.used..]);
      if value.Read? {
        SettingsErrors(payload, i + code.used + value.used, Store(settings, code.value, value.value));
      }
    }
  }

  /** With chunks of that size, feeding succeeds exactly when the whole input parses without error. */
  lemma SmallChunksSucceedIff(p: Parser, chunks: seq<seq<byte>>)
    requires Settled(p) && LegalState(p)
    requires forall c :: c in chunks ==> |c| + Residue(p) <= p.maxBufferSize
    ensures Feed(p, chunks).error == OneShot(p, Flatten(chunks)).error
  {
    ChunksAreOneShot(p, chunks);
    SmallChunksNeverOverflow(p, chunks);
    AgreeingErrors(Feed(p, chunks), OneShot(p, Flatten(chunks)));
  }
}
