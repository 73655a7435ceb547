/** Frames written by the encoder come back from the parser, however the bytes are cut into chunks. */
module WireFormat {
  import opened Bytes
  import opened Frames
  import opened Parsing
  import opened ParserRuns
  import FrameParsers
  import Varint

  /** A frame together with the order in which its settings were walked when it was encoded. */
  datatype Sent = Sent(frame: H3Frame, order: seq<SettingId>)

  ghost predicate Encodable(s: Sent) {
    OrderFor(s.frame, s.order) && |EncodePayload(s.frame, s.order)| < Varint.VARINT_BOUND
  }

  ghost function Payload(s: Sent): seq<byte>
    requires Encodable(s)
  {
    EncodePayload(s.frame, s.order)
  }

  ghost function EncodeSent(s: Sent): seq<byte>
    requires Encodable(s)
  {
    EncodeFrame(s.frame, s.order)
  }

  ghost function EncodeAll(frames: seq<Sent>): seq<byte>
    requires forall i :: 0 <= i < |frames| ==> Encodable(frames[i])
  {
    if frames == [] then []
    else EncodeSent(frames[0]) + EncodeAll(frames[1..])
  }

  function EraseAll(frames: seq<Sent>): seq<H3Frame> {
    if frames == [] then [] else [Erase(frames[0].frame)] + EraseAll(frames[1..])
  }

  lemma FrameCodeRoundTrip(t: FrameType)
    ensures FrameTypeOf(Wrap(FrameCode(t))) == Some(t)
  {
  }

  /** What the header reader makes of an encoded header and anything after it. */
  lemma HeaderRoundTrip(t: FrameType, length: u64, rest: seq<byte>, maxFrameSize: nat)
    requires length < Varint.VARINT_BOUND
    ensures TryHeader(FrameHeader(t, length) + rest, maxFrameSize)
         == if length > maxFrameSize then Bad(FrameTooLarge(length, maxFrameSize))
            else Header(t, length, |FrameHeader(t, length)|)
  {
    var a, b := Varint.Encode(FrameCode(t)), Varint.Encode(length);
    var all := FrameHeader(t, length) + rest;
    assert all == a + (b + rest);
    Varint.RoundTrip(FrameCode(t), b + rest);
    Varint.RoundTrip(length, rest);
    FrameCodeRoundTrip(t);
    TwoVarints(all, a, b, rest, Wrap(FrameCode(t)), length, t, maxFrameSize);
  }

  lemma TwoVarints(
    all: seq<byte>, a: seq<byte>, b: seq<byte>, rest: seq<byte>,
    code: u64, length: u64, t: FrameType, maxFrameSize: nat)
    requires all == a + (b + rest) && |all| >= 2
    requires Varint.Decode(a + (b + rest)) == Varint.Read(code, |a|) && FrameTypeOf(code) == Some(t)
    requires Varint.Decode(b + rest) == Varint.Read(length, |b|)
    ensures TryHeader(all, maxFrameSize)
         == if length > maxFrameSize then Bad(FrameTooLarge(length, maxFrameSize)) else Header(t, length, |a| + |b|)
  {
    assert all[|a|..] == b + rest;
  }

  /** One encoded frame comes back up to `Erase`; its length alone decides whether it is refused. */
  lemma FrameRoundTrip(s: Sent, rest: seq<byte>, maxFrameSize: nat)
    requires Encodable(s)
    ensures ParseOne(WaitingHeader, EncodeSent(s) + rest, maxFrameSize)
         == if |Payload(s)| <= maxFrameSize then Parsed(Erase(s.frame), rest)
            else Failed(FrameTooLarge(|Payload(s)|, maxFrameSize), EncodeSent(s) + rest)
  {
    var header, payload := FrameHeader(s.frame.Type(), |Payload(s)|), Payload(s);
    var all := EncodeSent(s) + rest;
    assert all == header + (payload + rest);
    HeaderRoundTrip(s.frame.Type(), |payload|, payload + rest, maxFrameSize);
    PayloadRoundTrip(s.frame, s.order);
    assert all[|header|..] == payload + rest;
    assert (payload + rest)[..|payload|] == payload;
    assert (payload + rest)[|payload|..] == rest;
  }

  lemma {:induction false} DrainEncodings(frames: seq<Sent>, maxFrameSize: nat)
    requires forall i :: 0 <= i < |frames| ==> Encodable(frames[i]) && |Payload(frames[i])| <= maxFrameSize
    ensures Drain(WaitingHeader, EncodeAll(frames), maxFrameSize)
         == Drained(EraseAll(frames), None, WaitingHeader, [])
  {
    if frames == [] {
    } else {
      FrameRoundTrip(frames[0], EncodeAll(frames[1..]), maxFrameSize);
      DrainEncodings(frames[1..], maxFrameSize);
    }
  }

  // ---------- the size estimate ----------

  function HeadersSize(headers: HeaderMap): nat {
    if headers == [] then 0 else |headers[0].0| + |headers[0].1| + HeadersSize(headers[1..])
  }

  /** `payload_size`: eight bytes for an identifier, sixteen for a setting, the text of the headers. */
  function PayloadEstimate(f: H3Frame): nat {
    match f
    case Data(_, data, _) => |data|
    case Headers(_, headers, _, _) => HeadersSize(headers)
    case CancelPush(_) => 8
    case Settings(settings) => 16 * |settings|
    case PushPromise(_, _, headers) => 8 + HeadersSize(headers)
    case Goaway(_) => 8
    case MaxPushId(_) => 8
  }

  function SerializedSize(f: H3Frame): nat
    requires PayloadEstimate(f) < TWO_TO_64
  {
    Varint.Size(FrameCode(f.Type())) + Varint.Size(PayloadEstimate(f)) + PayloadEstimate(f)
  }

  /** An identifier that takes all eight bytes. */
  predicate Wide(id: u64) {
    id >= 1073741824
  }

  predicate EstimateExact(f: H3Frame) {
    match f
    case Data(_, _, _) => true
    case Headers(_, headers, _, _) => HeadersSize(headers) == 0
    case CancelPush(id) => Wide(id)
    case Settings(settings) => settings == map[]
    case PushPromise(_, id, headers) => Wide(id) && HeadersSize(headers) == 0
    case Goaway(id) => Wide(id)
    case MaxPushId(id) => Wide(id)
  }

  lemma PayloadEstimated(f: H3Frame, order: seq<SettingId>)
    requires OrderFor(f, order)
    ensures |EncodePayload(f, order)| <= PayloadEstimate(f)
    ensures |EncodePayload(f, order)| == PayloadEstimate(f) <==> EstimateExact(f)
  {
    if f.Settings? {
      FrameParsers.DistinctCount(order, f.settings.Keys);
      FrameParsers.EncodeSettingsSize(order, f.settings);
    }
  }

  /** All names and values one after the other. */
  function AllText(headers: HeaderMap): string {
    if headers == [] then [] else headers[0].0 + headers[0].1 + AllText(headers[1..])
  }

  lemma {:induction false} HeadersSizeIsText(headers: HeaderMap)
    ensures HeadersSize(headers) == |AllText(headers)|
  {
    if headers == [] {
    } else {
      HeadersSizeIsText(headers[1..]);
    }
  }

  lemma {:induction false} SettingsAtLeast(order: seq<SettingId>, settings: map<SettingId, u64>)
    requires forall id :: id in order ==> id in settings
    ensures |EncodeSettings(order, settings)| >= 2 * |order|
    ensures |EncodeSettings(order, settings)| == 2 * |order| <==> forall id :: id in order ==> settings[id] < 64
  {
    if order == [] {
    } else {
      SettingsAtLeast(order[1..], settings);
      assert forall id :: id in order <==> id == order[0] || id in order[1..];
    }
  }

  /**
    By how much the estimate is too high: by the text of the headers, by the bytes that a short identifier saves, and
    by at most fourteen bytes for each setting, no less exactly if all values are below 64.
   */
  lemma EstimateSurplus(f: H3Frame, order: seq<SettingId>)
    requires OrderFor(f, order)
    ensures var surplus := PayloadEstimate(f) - |EncodePayload(f, order)|;
            match f
            case Data(_, _, _) => surplus == 0
            case Headers(_, headers, _, _) => surplus == |AllText(headers)|
            case CancelPush(id) => surplus == 8 - Varint.Size(id)
            case Settings(settings) =>
              && surplus <= 14 * |settings|
              && (surplus == 14 * |settings| <==> forall id :: id in settings ==> settings[id] < 64)
            case PushPromise(_, id, headers) => surplus == 8 - Varint.Size(id) + |AllText(headers)|
            case Goaway(id) => surplus == 8 - Varint.Size(id)
            case MaxPushId(id) => surplus == 8 - Varint.Size(id)
  {
    match f
    case Headers(_, headers, _, _) => HeadersSizeIsText(headers);
    case PushPromise(_, _, headers) => HeadersSizeIsText(headers);
    case Settings(settings) =>
      OrderLength(order, settings);
      SettingsAtLeast(order, settings);
    case _ =>
  }

  lemma OrderLength(order: seq<SettingId>, settings: map<SettingId, u64>)
    requires IterationOrder(order, settings)
    ensures |order| == |settings|
  {
    DistinctLength(order, settings.Keys);
    assert |settings.Keys| == |settings|;
  }

  lemma {:induction false} DistinctLength(order: seq<SettingId>, ids: set<SettingId>)
    requires (forall id :: id in order <==> id in ids) && forall i, j :: 0 <= i < j < |order| ==> order[i] != order[j]
    ensures |order| == |ids|
  {
    if order == [] {
      assert ids == {};
    } else {
      var rest := ids - {order[0]};
      assert forall id :: id in order <==> id == order[0] || id in order[1..];
      DistinctLength(order[1..], rest);
      assert ids == rest + {order[0]};
    }
  }

  /** The announced size is never below that of the encoding, and equals it exactly for the frames of `EstimateExact`. */
  lemma SerializedSizeBounds(f: H3Frame, order: seq<SettingId>)
    requires OrderFor(f, order) && PayloadEstimate(f) < TWO_TO_64
    ensures |EncodePayload(f, order)| <= PayloadEstimate(f)
    ensures |EncodeFrame(f, order)| <= SerializedSize(f)
    ensures |EncodeFrame(f, order)| == SerializedSize(f) <==> EstimateExact(f)
  {
    PayloadEstimated(f, order);
  }

  // ---------- sequences of frames ----------

  predicate Fresh(p: Parser) {
    p.state == WaitingHeader && p.buffer == []
  }

  lemma FreshIsSettled(p: Parser)
    requires Fresh(p)
    ensures Settled(p) && LegalState(p)
  {
  }

  /**
    Encoded frames come back, in order and up to `Erase`, from a new parser: for every iteration order of
    every settings map and every split of the bytes into chunks, exactly when no call overflows the buffer.
   */
  lemma SequenceRoundTrip(p: Parser, frames: seq<Sent>, chunks: seq<seq<byte>>)
    requires Fresh(p)
    requires forall i :: 0 <= i < |frames| ==> Encodable(frames[i]) && |Payload(frames[i])| <= p.maxFrameSize
    requires Flatten(chunks) == EncodeAll(frames)
    ensures Feed(p, chunks).error.None? || Feed(p, chunks).error == Some(BufferOverflow)
    ensures Feed(p, chunks).error.None? ==>
              Feed(p, chunks).frames == EraseAll(frames) && Fresh(Feed(p, chunks).parser)
  {
    FreshIsSettled(p);
    assert p.buffer + EncodeAll(frames) == EncodeAll(frames);
    DrainEncodings(frames, p.maxFrameSize);
    ChunksAreOneShot(p, chunks);
    AgreeingSuccess(Feed(p, chunks), OneShot(p, Flatten(chunks)));
  }

  /** In particular with chunks that the buffer always has room for. */
  lemma SmallChunksRoundTrip(p: Parser, frames: seq<Sent>, chunks: seq<seq<byte>>)
    requires Fresh(p)
    requires forall i :: 0 <= i < |frames| ==> Encodable(frames[i]) && |Payload(frames[i])| <= p.maxFrameSize
    requires Flatten(chunks) == EncodeAll(frames)
    requires forall c :: c in chunks ==> |c| + Residue(p) <= p.maxBufferSize
    ensures Feed(p, chunks).error.None? && Feed(p, chunks).frames == EraseAll(frames)
    ensures Fresh(Feed(p, chunks).parser)
  {
    FreshIsSettled(p);
    SequenceRoundTrip(p, frames, chunks);
    SmallChunksNeverOverflow(p, chunks);
  }
}
