/** The frame parser object: a buffer, a two-valued state and counters, updated in place. */
module FrameParsers {
  import opened Bytes
  import opened Frames
  import opened Parsing
  import Varint

  class FrameParser {
    var buffer: seq<byte>
    var state: ParserState
    const maxFrameSize: nat
    const maxBufferSize: nat
    var stats: Stats

    ghost function Abstract(): Parser
      reads this
    {
      Parser(buffer, state, maxFrameSize, maxBufferSize, stats)
    }

    constructor WithConfig(maxFrameSize: nat, maxBufferSize: nat)
      ensures Abstract() == Parser([], WaitingHeader, maxFrameSize, maxBufferSize, Stats(0, 0, 0, 0))
    {
      this.buffer, this.state := [], WaitingHeader;
      this.maxFrameSize, this.maxBufferSize := maxFrameSize, maxBufferSize;
      this.stats := Stats(0, 0, 0, 0);
    }

    constructor ()
      ensures Abstract() == Parser([], WaitingHeader, 16384, 65536, Stats(0, 0, 0, 0))
    {
      buffer, state := [], WaitingHeader;
      maxFrameSize, maxBufferSize := 16384, 65536;
      stats := Stats(0, 0, 0, 0);
    }

    constructor WithMaxFrameSize(maxSize: nat)
      ensures Abstract() == Parser([], WaitingHeader, maxSize, maxSize * 4, Stats(0, 0, 0, 0))
    {
      buffer, state := [], WaitingHeader;
      maxFrameSize, maxBufferSize := maxSize, maxSize * 4;
      stats := Stats(0, 0, 0, 0);
    }

    method Clear()
      modifies this
      ensures Abstract() == old(Abstract()).(buffer := [], state := WaitingHeader)
    {
      buffer := [];
      state := WaitingHeader;
    }

    method ResetStats()
      modifies this
      ensures Abstract() == old(Abstract()).(stats := Stats(0, 0, 0, 0))
    {
      stats := Stats(0, 0, 0, 0);
    }

    /** Looks for a header with two varint reads at an advancing cursor; consumes it only when it is whole and valid. */
    method TryParseHeader() returns (h: HeaderOutcome)
      modifies this
      ensures h == TryHeader(old(buffer), maxFrameSize)
      ensures buffer == if h.Header? then old(buffer)[h.used..] else old(buffer)
      ensures state == old(state) && stats == old(stats)
    {
      if |buffer| < 2 {
        return NeedMore;
      }
      var code := Varint.ReadVarint(buffer, 0);
      assert buffer[0..] == buffer;
      if code.Incomplete? {
        return NeedMore;
      }
      var frameType := FrameTypeOf(code.value);
      if frameType.None? {
        return Bad(UnknownFrameType(code.value));
      }
      var length := Varint.ReadVarint(buffer, code.used);
      if length.Incomplete? {
        return NeedMore;
      }
      if length.value > maxFrameSize {
        return Bad(FrameTooLarge(length.value, maxFrameSize));
      }
      h := Header(frameType.value, length.value, code.used + length.used);
      buffer := buffer[h.used..];
    }

    method ParseFrame(data: seq<byte>) returns (r: Result<Option<H3Frame>, ParseError>)
      modifies this
      ensures (Abstract(), r) == Parsing.ParseFrame(old(Abstract()), data)
    {
      if |buffer| + |data| > maxBufferSize {
        stats := stats.(bufferOverflows := stats.bufferOverflows + 1);
        return Err(BufferOverflow);
      }
      buffer := buffer + data;
      stats := stats.(bytesProcessed := stats.bytesProcessed + |data|);
      ghost var q := Abstract();
      ghost var o := ParseOne(q.state, q.buffer, q.maxFrameSize);
      assert Accept(old(Abstract()), data) == Some(q);
      while true
        invariant stats == q.stats
        invariant ParseOne(state, buffer, maxFrameSize) == o
        decreases if state.WaitingHeader? then 1 else 0
      {
        match state {
          case WaitingHeader =>
            ghost var before := buffer;
            var h := TryParseHeader();
            HeaderStep(before, maxFrameSize, h);
            match h {
              case NeedMore =>
                assert o == More(WaitingHeader, buffer);
                return Ok(None);
              case Bad(e) =>
                assert o == Failed(e, buffer);
                stats := stats.(parseErrors := stats.parseErrors + 1);
                return Err(e);
              case Header(frameType, length, _) =>
                state := ReadingPayload(frameType, length);
            }
          case ReadingPayload(frameType, length) =>
            assert o == ParsePayload(frameType, length, buffer);
            if |buffer| < length {
              return Ok(None);
            }
            var payload := buffer[..length];
            buffer := buffer[length..];
            state := WaitingHeader;
            var frame := ParseFramePayload(frameType, payload);
            match frame {
              case Ok(f) =>
                assert o == Parsed(f, buffer);
                stats := stats.(framesParsed := stats.framesParsed + 1);
                return Ok(Some(f));
              case Err(e) =>
                assert o == Failed(e, buffer);
                stats := stats.(parseErrors := stats.parseErrors + 1);
                return Err(e);
            }
        }
      }
    }

    method ParseFrames(data: seq<byte>) returns (r: Result<seq<H3Frame>, ParseError>)
      modifies this
      ensures (Abstract(), r) == Parsing.ParseFrames(old(Abstract()), data)
    {
      var frames := [];
      if |buffer| + |data| > maxBufferSize {
        stats := stats.(bufferOverflows := stats.bufferOverflows + 1);
        return Err(BufferOverflow);
      }
      buffer := buffer + data;
      stats := stats.(bytesProcessed := stats.bytesProcessed + |data|);
      ghost var q := Abstract();
      ghost var all := Drain(q.state, q.buffer, q.maxFrameSize);
      PrependNone(all);
      assert Accept(old(Abstract()), data) == Some(q);
      while true
        invariant |buffer| <= maxBufferSize
        invariant stats == q.stats.(framesParsed := q.stats.framesParsed + |frames|)
        invariant all == Prepend(frames, Drain(state, buffer, maxFrameSize))
        decreases |buffer|, if state.ReadingPayload? then 1 else 0
      {
        ghost var before := Abstract();
        DrainUnfolds(before);
        var next := ParseFrame([]);
        match next {
          case Ok(Some(frame)) =>
            PrependTwice(frames, [frame], Drain(state, buffer, maxFrameSize));
            frames := frames + [frame];
          case Ok(None) =>
            assert all == Drained(frames, None, state, buffer);
            assert Abstract() == SettleAll(q, all);
            return Ok(frames);
          case Err(e) =>
            assert all == Drained(frames, Some(e), state, buffer);
            assert Abstract() == SettleAll(q, all);
            return Err(e);
        }
      }
    }

    /** Reads two varints whatever the state is, and compares the announced size with the buffer. */
    method HasCompleteFrame() returns (complete: bool)
      ensures complete == Parsing.HasCompleteFrame(buffer)
    {
      if |buffer| < 2 {
        return false;
      }
      var code := Varint.ReadVarint(buffer, 0);
      assert buffer[0..] == buffer;
      if code.Read? {
        var length := Varint.ReadVarint(buffer, code.used);
        if length.Read? {
          return |buffer| >= code.used + length.used + length.value;
        }
      }
      return false;
    }

    method ParseFramePayload(frameType: FrameType, payload: seq<byte>) returns (r: Result<H3Frame, ParseError>)
      ensures r == DecodePayload(frameType, payload)
    {
      assert payload[0..] == payload;
      match frameType
      case DataFrame => r := Ok(Data(0, payload, false));
      case HeadersFrame => r := Ok(Headers(0, [], false, None));
      case CancelPushFrame =>
        var id := Varint.ReadVarint(payload, 0);
        r := if id.Read? then Ok(CancelPush(id.value)) else Err(IncompleteInput);
      case SettingsFrame =>
        var settings := ParseSettings(payload);
        r := if settings.Ok? then Ok(Settings(settings.value)) else Err(settings.error);
      case PushPromiseFrame =>
        var id := Varint.ReadVarint(payload, 0);
        r := if id.Read? then Ok(PushPromise(0, id.value, [])) else Err(IncompleteInput);
      case GoawayFrame =>
        var id := Varint.ReadVarint(payload, 0);
        r := if id.Read? then Ok(Goaway(id.value)) else Err(IncompleteInput);
      case MaxPushIdFrame =>
        var id := Varint.ReadVarint(payload, 0);
        r := if id.Read? then Ok(MaxPushId(id.value)) else Err(IncompleteInput);
    }

    method ParseSettings(payload: seq<byte>) returns (r: Result<map<SettingId, u64>, ParseError>)
      ensures r == DecodeSettings(payload, 0, map[])
    {
      var settings: map<SettingId, u64> := map[];
      var position := 0;
      while position < |payload|
        invariant position <= |payload|
        invariant Continues(payload, position, settings)
      {
        var code := Varint.ReadVarint(payload, position);
        if code.Incomplete? {
          CutShort(payload, position, settings);
          return Err(IncompleteInput);
        }
        var value := Varint.ReadVarint(payload, position + code.used);
        if value.Incomplete? {
          CutShort(payload, position, settings);
          return Err(IncompleteInput);
        }
        Proceed(payload, position, settings, code, value);
        var id := SettingIdOf(code.value);
        if id.Some? {
          settings := settings[id.value := value.value];
        }
        position := position + code.used + value.used;
      }
      return Ok(settings);
    }

    /** Encodes a frame; the settings map is walked in an arbitrary order. */
    method EncodeFrame(frame: H3Frame) returns (out: seq<byte>)
      requires frame.Data? ==> |frame.data| < TWO_TO_64
      ensures IsEncodingOf(frame, out)
    {
      out := Varint.WriteVarint([], FrameCode(frame.Type()));
      var payload := EncodeFramePayload(frame);
      ghost var order :| OrderFor(frame, order) && payload == EncodePayload(frame, order);
      PayloadSize(frame, order);
      out := Varint.WriteVarint(out, |payload|);
      out := out + payload;
      Assembled(frame, order, payload, out);
    }

    method EncodeFramePayload(frame: H3Frame) returns (out: seq<byte>)
      ensures IsPayloadOf(frame, out)
    {
      out := [];
      ghost var order := [];
      match frame {
        case Data(_, data, _) => out := data;
        case Headers(_, _, _, _) =>
        case CancelPush(id) => out := Varint.WriteVarint(out, id);
        case Settings(settings) =>
          out := EncodeSettingsMap(settings);
          order :| IterationOrder(order, settings) && out == EncodeSettings(order, settings);
        case PushPromise(_, id, _) => out := Varint.WriteVarint(out, id);
        case Goaway(id) => out := Varint.WriteVarint(out, id);
        case MaxPushId(id) => out := Varint.WriteVarint(out, id);
      }
      assert OrderFor(frame, order) && out == EncodePayload(frame, order);
    }

    method EncodeSettingsMap(settings: map<SettingId, u64>) returns (out: seq<byte>)
      ensures exists order :: IterationOrder(order, settings) && out == EncodeSettings(order, settings)
    {
      out := [];
      ghost var order := [];
      var left := settings.Keys;
      while left != {}
        invariant left <= settings.Keys
        invariant forall id :: id in order <==> id in settings.Keys - left
        invariant forall i, j :: 0 <= i < j < |order| ==> order[i] != order[j]
        invariant out == EncodeSettings(order, settings)
        decreases left
      {
        var id :| id in left;
        assert forall i :: 0 <= i < |order| ==> order[i] in order && order[i] != id;
        EncodeSettingsAppend(order, id, settings);
        out := Varint.WriteVarint(out, SettingCode(id));
        out := Varint.WriteVarint(out, settings[id]);
        order := order + [id];
        left := left - {id};
      }
      assert IterationOrder(order, settings);
    }
  }

  /** Reading all settings comes down to reading those from `position` on top of `settings`. */
  ghost predicate Continues(payload: seq<byte>, position: nat, settings: map<SettingId, u64>)
    requires position <= |payload|
  {
    DecodeSettings(payload, 0, map[]) == DecodeSettings(payload, position, settings)
  }

  lemma CutShort(payload: seq<byte>, position: nat, settings: map<SettingId, u64>)
    requires position < |payload| && Continues(payload, position, settings)
    requires Varint.Decode(payload[position..]).Read? ==>
               Varint.Decode(payload[position + Varint.Decode(payload[position..]).used..]).Incomplete?
    ensures DecodeSettings(payload, 0, map[]) == Err(IncompleteInput)
  {
  }

  lemma Proceed(
    payload: seq<byte>, position: nat, settings: map<SettingId, u64>,
    code: Varint.ReadResult, value: Varint.ReadResult)
    requires position < |payload| && Continues(payload, position, settings)
    requires code == Varint.Decode(payload[position..]) && code.Read?
    requires value == Varint.Decode(payload[position + code.used..]) && value.Read?
    ensures Continues(payload, position + code.used + value.used, Store(settings, code.value, value.value))
  {
    SettingsStep(payload, position, settings, code.value, code.used, value.value, value.used);
  }

  lemma HeaderStep(buffer: seq<byte>, maxFrameSize: nat, h: HeaderOutcome)
    requires h == TryHeader(buffer, maxFrameSize)
    ensures ParseOne(WaitingHeader, buffer, maxFrameSize)
         == match h
            case NeedMore => More(WaitingHeader, buffer)
            case Bad(e) => Failed(e, buffer)
            case Header(frameType, length, used) =>
              ParseOne(ReadingPayload(frameType, length), buffer[used..], maxFrameSize)
  {
  }

  /** One turn of the loop of `ParseFrames`: a call of `ParseFrame` without data is one unfolding of `Drain`. */
  lemma DrainUnfolds(p: Parser)
    requires |p.buffer| <= p.maxBufferSize
    ensures var (q, r) := Parsing.ParseFrame(p, []);
            var d := Drain(p.state, p.buffer, p.maxFrameSize);
            match r
            case Ok(None) => d == Drained([], None, q.state, q.buffer) && q.stats == p.stats
            case Ok(Some(frame)) =>
              && d == Prepend([frame], Drain(q.state, q.buffer, q.maxFrameSize))
              && q.stats == p.stats.(framesParsed := p.stats.framesParsed + 1)
              && (|q.buffer| < |p.buffer| || (|q.buffer| == |p.buffer| && p.state.ReadingPayload?))
              && q.state == WaitingHeader
            case Err(e) =>
              && d == Drained([], Some(e), q.state, q.buffer)
              && q.stats == p.stats.(parseErrors := p.stats.parseErrors + 1)
  {
    assert p.buffer + [] == p.buffer;
  }

  lemma {:induction false} EncodeSettingsAppend(order: seq<SettingId>, id: SettingId, settings: map<SettingId, u64>)
    requires id in settings && forall i :: i in order ==> i in settings
    ensures EncodeSettings(order + [id], settings)
         == EncodeSettings(order, settings) + Varint.Encode(SettingCode(id)) + Varint.Encode(settings[id])
  {
    if order == [] {
      assert EncodeSettings([], settings) == [];
      assert ([] + [id])[1..] == [];
    } else {
      EncodeSettingsAppend(order[1..], id, settings);
      assert (order + [id])[1..] == order[1..] + [id];
    }
  }

  lemma Assembled(frame: H3Frame, order: seq<SettingId>, payload: seq<byte>, out: seq<byte>)
    requires OrderFor(frame, order) && payload == EncodePayload(frame, order) && |payload| < TWO_TO_64
    requires out == [] + Varint.Encode(FrameCode(frame.Type())) + Varint.Encode(|payload|) + payload
    ensures IsEncodingOf(frame, out)
  {
    assert out == EncodeFrame(frame, order);
  }

  /** At most three settings exist, so only a data frame can have a long payload. */
  lemma PayloadSize(frame: H3Frame, order: seq<SettingId>)
    requires OrderFor(frame, order) && (frame.Data? ==> |frame.data| < TWO_TO_64)
    ensures |EncodePayload(frame, order)| < TWO_TO_64
  {
    if frame.Settings? {
      DistinctCount(order, {QpackMaxTableCapacity, MaxFieldSectionSize, QpackBlockedStreams});
      EncodeSettingsSize(order, frame.settings);
    }
  }

  lemma {:induction false} DistinctCount(order: seq<SettingId>, pool: set<SettingId>)
    requires forall i, j :: 0 <= i < j < |order| ==> order[i] != order[j]
    requires forall id :: id in order ==> id in pool
    ensures |order| <= |pool|
  {
    if order == [] {
    } else {
      DistinctCount(order[1..], pool - {order[0]});
    }
  }

  lemma {:induction false} EncodeSettingsSize(order: seq<SettingId>, settings: map<SettingId, u64>)
    requires forall id :: id in order ==> id in settings
    ensures |EncodeSettings(order, settings)| <= 9 * |order|
  {
    if order == [] {
    } else {
      EncodeSettingsSize(order[1..], settings);
    }
  }
}
