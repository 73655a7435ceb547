/** HTTP/3 frames and their byte layout, section 7 of RFC 9114. */
module Frames {
  import opened Bytes
  import Varint

  datatype FrameType =
    | DataFrame | HeadersFrame | CancelPushFrame | SettingsFrame | PushPromiseFrame | GoawayFrame | MaxPushIdFrame

  datatype SettingId = QpackMaxTableCapacity | MaxFieldSectionSize | QpackBlockedStreams

  datatype Priority = Priority(weight: byte, dependsOn: Option<u64>, exclusive: bool)

  type HeaderMap = seq<(string, string)>

  datatype H3Frame =
    | Data(streamId: u64, data: seq<byte>, endStream: bool)
    | Headers(streamId: u64, headers: HeaderMap, endStream: bool, priority: Option<Priority>)
    | CancelPush(pushId: u64)
    | Settings(settings: map<SettingId, u64>)
    | PushPromise(streamId: u64, promisedStreamId: u64, headers: HeaderMap)
    | Goaway(streamId: u64)
    | MaxPushId(pushId: u64)
  {
    function Type(): FrameType {
      match this
      case Data(_, _, _) => DataFrame
      case Headers(_, _, _, _) => HeadersFrame
      case CancelPush(_) => CancelPushFrame
      case Settings(_) => SettingsFrame
      case PushPromise(_, _, _) => PushPromiseFrame
      case Goaway(_) => GoawayFrame
      case MaxPushId(_) => MaxPushIdFrame
    }

    /** The stream that a frame speaks of; the frame of a whole connection has none. */
    function StreamId(): Option<u64> {
      match this
      case Data(id, _, _) => Some(id)
      case Headers(id, _, _, _) => Some(id)
      case PushPromise(id, _, _) => Some(id)
      case Goaway(id) => Some(id)
      case _ => None
    }
  }

  datatype ParseError =
    | IncompleteInput
    | UnknownFrameType(code: u64)
    | FrameTooLarge(size: nat, max: nat)
    | BufferOverflow

  function FrameCode(t: FrameType): u64 {
    match t
    case DataFrame => 0x00
    case HeadersFrame => 0x01
    case CancelPushFrame => 0x03
    case SettingsFrame => 0x04
    case PushPromiseFrame => 0x05
    case GoawayFrame => 0x07
    case MaxPushIdFrame => 0x0D
  }

  function FrameTypeOf(code: u64): Option<FrameType> {
    match code
    case 0x00 => Some(DataFrame)
    case 0x01 => Some(HeadersFrame)
    case 0x03 => Some(CancelPushFrame)
    case 0x04 => Some(SettingsFrame)
    case 0x05 => Some(PushPromiseFrame)
    case 0x07 => Some(GoawayFrame)
    case 0x0D => Some(MaxPushIdFrame)
    case _ => None
  }

  function SettingCode(id: SettingId): u64 {
    match id
    case QpackMaxTableCapacity => 0x01
    case MaxFieldSectionSize => 0x06
    case QpackBlockedStreams => 0x07
  }

  function SettingIdOf(code: u64): Option<SettingId> {
    match code
    case 0x01 => Some(QpackMaxTableCapacity)
    case 0x06 => Some(MaxFieldSectionSize)
    case 0x07 => Some(QpackBlockedStreams)
    case _ => None
  }

  // ---------- decoding a payload ----------

  /** Stores a setting under a known identifier; an unknown one is ignored. */
  function Store(settings: map<SettingId, u64>, code: u64, value: u64): map<SettingId, u64> {
    match SettingIdOf(code)
    case Some(id) => settings[id := value]
    case None => settings
  }

  /** Pairs of integers from position `i` to the end. */
  function DecodeSettings(payload: seq<byte>, i: nat, settings: map<SettingId, u64>)
    : Result<map<SettingId, u64>, ParseError>
    requires i <= |payload|
    decreases |payload| - i
  {
    if i == |payload| then Ok(settings)
    else
      match Varint.Decode(payload[i..])
      case Incomplete => Err(IncompleteInput)
      case Read(code, n) =>
        match Varint.Decode(payload[i + n..])
        case Incomplete => Err(IncompleteInput)
        case Read(value, m) => DecodeSettings(payload, i + n + m, Store(settings, code, value))
  }

  function DecodeId(payload: seq<byte>, frame: u64 -> H3Frame): Result<H3Frame, ParseError> {
    match Varint.Decode(payload)
    case Incomplete => Err(IncompleteInput)
    case Read(id, _) => Ok(frame(id))
  }

  function DecodePayload(t: FrameType, payload: seq<byte>): Result<H3Frame, ParseError> {
    match t
    case DataFrame => Ok(Data(0, payload, false))
    case HeadersFrame => Ok(Headers(0, [], false, None))
    case CancelPushFrame => DecodeId(payload, (id: u64) => CancelPush(id))
    case SettingsFrame =>
      (match DecodeSettings(payload, 0, map[])
       case Ok(settings) => Ok(Settings(settings))
       case Err(e) => Err(e))
    case PushPromiseFrame => DecodeId(payload, (id: u64) => PushPromise(0, id, []))
    case GoawayFrame => DecodeId(payload, (id: u64) => Goaway(id))
    case MaxPushIdFrame => DecodeId(payload, (id: u64) => MaxPushId(id))
  }

  // ---------- encoding ----------

  /** `order` lists the keys of `settings`, each once: one possible iteration of the hash map. */
  ghost predicate IterationOrder(order: seq<SettingId>, settings: map<SettingId, u64>) {
    && (forall id :: id in order <==> id in settings)
    && (forall i, j :: 0 <= i < j < |order| ==> order[i] != order[j])
  }

  function EncodeSettings(order: seq<SettingId>, settings: map<SettingId, u64>): seq<byte>
    requires forall id :: id in order ==> id in settings
  {
    if order == [] then []
    else
      Varint.Encode(SettingCode(order[0])) + Varint.Encode(settings[order[0]]) + EncodeSettings(order[1..], settings)
  }

  /** A frame can be encoded with any iteration order of its settings; other frames ignore `order`. */
  ghost predicate OrderFor(f: H3Frame, order: seq<SettingId>) {
    f.Settings? ==> IterationOrder(order, f.settings)
  }

  ghost function EncodePayload(f: H3Frame, order: seq<SettingId>): seq<byte>
    requires OrderFor(f, order)
  {
    match f
    case Data(_, data, _) => data
    case Headers(_, _, _, _) => []
    case CancelPush(id) => Varint.Encode(id)
    case Settings(settings) => EncodeSettings(order, settings)
    case PushPromise(_, id, _) => Varint.Encode(id)
    case Goaway(id) => Varint.Encode(id)
    case MaxPushId(id) => Varint.Encode(id)
  }

  function FrameHeader(t: FrameType, length: u64): seq<byte> {
    Varint.Encode(FrameCode(t)) + Varint.Encode(length)
  }

  ghost function EncodeFrame(f: H3Frame, order: seq<SettingId>): seq<byte>
    requires OrderFor(f, order) && |EncodePayload(f, order)| < TWO_TO_64
  {
    FrameHeader(f.Type(), |EncodePayload(f, order)|) + EncodePayload(f, order)
  }

  /** `out` is the payload of `f` for some iteration order of its settings. */
  ghost predicate IsPayloadOf(f: H3Frame, out: seq<byte>) {
    exists order :: OrderFor(f, order) && out == EncodePayload(f, order)
  }

  /** `out` is `f` encoded for some iteration order of its settings. */
  ghost predicate IsEncodingOf(f: H3Frame, out: seq<byte>) {
    exists order :: OrderFor(f, order) && |EncodePayload(f, order)| < TWO_TO_64 && out == EncodeFrame(f, order)
  }

  // ---------- what survives the wire ----------

  function Wrap(v: u64): u64 {
    v % Varint.VARINT_BOUND
  }

  /** The frame a receiver gets: stream ids, end flags, priorities and headers do not travel, and
      identifiers are reduced modulo 2^62. */
  function Erase(f: H3Frame): H3Frame {
    match f
    case Data(_, data, _) => Data(0, data, false)
    case Headers(_, _, _, _) => Headers(0, [], false, None)
    case CancelPush(id) => CancelPush(Wrap(id))
    case Settings(settings) => Settings(map id | id in settings :: Wrap(settings[id]))
    case PushPromise(_, id, _) => PushPromise(0, Wrap(id), [])
    case Goaway(id) => Goaway(Wrap(id))
    case MaxPushId(id) => MaxPushId(Wrap(id))
  }

  function WrapSettings(ids: seq<SettingId>, settings: map<SettingId, u64>): map<SettingId, u64>
    requires forall id :: id in ids ==> id in settings
  {
    map id | id in ids :: Wrap(settings[id])
  }

  lemma SettingCodesKnown(id: SettingId)
    ensures Wrap(SettingCode(id)) == SettingCode(id) && SettingIdOf(SettingCode(id)) == Some(id)
  {
  }

  lemma SettingsStep(
    payload: seq<byte>, i: nat, known: map<SettingId, u64>, code: u64, n: nat, value: u64, m: nat)
    requires i < |payload| && Varint.Decode(payload[i..]) == Varint.Read(code, n)
    requires Varint.Decode(payload[i + n..]) == Varint.Read(value, m)
    ensures DecodeSettings(payload, i, known) == DecodeSettings(payload, i + n + m, Store(known, code, value))
  {
  }

  /** From any position, settings written there come back on top of those already known. */
  lemma {:induction false} SettingsRoundTrip(
    payload: seq<byte>, i: nat, order: seq<SettingId>, settings: map<SettingId, u64>, known: map<SettingId, u64>)
    requires forall id :: id in order ==> id in settings
    requires i <= |payload| && payload[i..] == EncodeSettings(order, settings)
    ensures DecodeSettings(payload, i, known) == Ok(known + WrapSettings(order, settings))
    decreases |order|
  {
    if order == [] {
      assert i == |payload|;
      assert known + WrapSettings(order, settings) == known;
    } else {
      var id, rest := order[0], order[1..];
      var key, value, tail := Varint.Encode(SettingCode(id)), Varint.Encode(settings[id]), EncodeSettings(rest, settings);
      Varint.RoundTrip(SettingCode(id), value + tail);
      Varint.RoundTrip(settings[id], tail);
      SettingCodesKnown(id);
      PairSlices(payload, i, key, value, tail);
      SettingsStep(payload, i, known, SettingCode(id), |key|, Wrap(settings[id]), |value|);
      SettingsRoundTrip(payload, i + |key| + |value|, rest, settings, known[id := Wrap(settings[id])]);
      WrapStep(order, settings, known);
    }
  }

  lemma PairSlices(s: seq<byte>, i: nat, a: seq<byte>, b: seq<byte>, rest: seq<byte>)
    requires i <= |s| && s[i..] == a + b + rest
    ensures i + |a| + |b| <= |s|
    ensures s[i..] == a + (b + rest) && s[i + |a|..] == b + rest && s[i + |a| + |b|..] == rest
  {
    assert s[i..][|a|..] == s[i + |a|..] && s[i..][|a| + |b|..] == s[i + |a| + |b|..];
  }

  lemma WrapStep(order: seq<SettingId>, settings: map<SettingId, u64>, known: map<SettingId, u64>)
    requires order != [] && forall id :: id in order ==> id in settings
    ensures known[order[0] := Wrap(settings[order[0]])] + WrapSettings(order[1..], settings)
         == known + WrapSettings(order, settings)
  {
    assert forall id :: id in order <==> id == order[0] || id in order[1..];
  }

  /** Decoding an encoded payload gives the frame up to `Erase`, whatever the settings' iteration order. */
  lemma PayloadRoundTrip(f: H3Frame, order: seq<SettingId>)
    requires OrderFor(f, order)
    ensures DecodePayload(f.Type(), EncodePayload(f, order)) == Ok(Erase(f))
  {
    match f
    case Data(_, _, _) =>
    case Headers(_, _, _, _) =>
    case CancelPush(id) => IdRoundTrip(id);
    case Settings(settings) =>
      SettingsRoundTrip(EncodeSettings(order, settings), 0, order, settings, map[]);
      assert map[] + WrapSettings(order, settings) == Erase(f).settings;
    case PushPromise(_, id, _) => IdRoundTrip(id);
    case Goaway(id) => IdRoundTrip(id);
    case MaxPushId(id) => IdRoundTrip(id);
  }

  lemma IdRoundTrip(id: u64)
    ensures Varint.Decode(Varint.Encode(id)) == Varint.Read(Wrap(id), Varint.Size(id))
  {
    Varint.RoundTrip(id, []);
    assert Varint.Encode(id) + [] == Varint.Encode(id);
  }
}
