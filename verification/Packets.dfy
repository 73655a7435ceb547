/** Packets and their simplified headers: fixed-width fields in network order. */
module Packets {
  import opened Bytes

  type ConnectionId = id: seq<byte> | |id| == 16 witness [0, 0, 0, 0, 0, 0, 0, 0, 0, 0, 0, 0, 0, 0, 0, 0]

  const ZERO_ID: ConnectionId := [0, 0, 0, 0, 0, 0, 0, 0, 0, 0, 0, 0, 0, 0, 0, 0]

  datatype PacketType = Initial | ZeroRTT | Handshake | Retry | OneRTT | VersionNegotiation

  datatype PacketHeader = PacketHeader(
    packetType: PacketType, connectionId: ConnectionId, packetNumber: u64, version: Option<u32>,
    sourceId: Option<ConnectionId>, destinationId: Option<ConnectionId>)

  datatype Packet = Packet(header: PacketHeader, payload: seq<byte>, timestamp: nat, ackEliciting: bool)

  datatype PacketError =
    | EmptyPacket | InvalidType | IncompleteVersion | MissingDcidLength | IncompleteDcid
    | MissingScidLength | IncompleteScid | IncompleteConnectionId

  function TypeByte(t: PacketType): byte {
    match t
    case Initial => 0x80
    case ZeroRTT => 0x81
    case Handshake => 0x82
    case Retry => 0x83
    case OneRTT => 0x40
    case VersionNegotiation => 0x00
  }

  /** Only the top four bits of the first byte are looked at. */
  function TypeOfByte(b: byte): Option<PacketType> {
    var high := b - b % 16;
    if high == 0x80 then Some(Initial)
    else if high == 0x90 then Some(ZeroRTT)
    else if high == 0xA0 then Some(Handshake)
    else if high == 0xB0 then Some(Retry)
    else if 0x40 <= high <= 0x7F then Some(OneRTT)
    else if high == 0x00 then Some(VersionNegotiation)
    else None
  }

  predicate LongForm(t: PacketType) {
    t.Initial? || t.ZeroRTT? || t.Handshake? || t.Retry?
  }

  /** A source identifier: its length and its bytes, or the length zero. */
  function EncodeSource(id: Option<ConnectionId>): seq<byte> {
    if id.Some? then [16] + id.value else [0]
  }

  function EncodeBody(h: PacketHeader): seq<byte> {
    if LongForm(h.packetType) then
      BigEndian(if h.version.Some? then h.version.value else 1, 4)
      + ([16] + h.connectionId)
      + EncodeSource(h.sourceId)
    else if h.packetType.OneRTT? then h.connectionId
    else BigEndian(0, 4) + ([16] + h.connectionId)
  }

  function EncodeHeader(h: PacketHeader): seq<byte> {
    [TypeByte(h.packetType)] + EncodeBody(h) + BigEndian(h.packetNumber % TWO_TO_32, 4)
  }

  /** The bytes of a short identifier, padded with zeros to full length. */
  function Pad(id: seq<byte>): ConnectionId
    requires |id| <= 16
  {
    id + ZERO_ID[|id|..]
  }

  /** What a field reader made of the front of its input. */
  datatype Field<T> = Missing | TooShort | Field(value: T, rest: seq<byte>)

  /**
    A length byte and an identifier. An announced length above 16 is neither stored nor skipped.
   */
  function DecodeId(data: seq<byte>): Field<Option<ConnectionId>> {
    if data == [] then Missing
    else
      var length, rest := data[0], data[1..];
      if length == 0 then Field(None, rest)
      else if |rest| < length then TooShort
      else if length > 16 then Field(None, rest)
      else Field(Some(Pad(rest[..length])), rest[length..])
  }

  function OrZero(id: Option<ConnectionId>): ConnectionId {
    if id.Some? then id.value else ZERO_ID
  }

  /** The packet number, if there is room for one, and the number of bytes left after it. */
  function Finish(h: PacketHeader, rest: seq<byte>, total: nat): (PacketHeader, nat)
    requires |rest| <= total
  {
    if |rest| >= 4 then
      FromBigEndianBound(rest[..4]);
      Pow256Values();
      (h.(packetNumber := FromBigEndian(rest[..4])), total - (|rest| - 4))
    else (h, total - |rest|)
  }

  function DecodeVersion(data: seq<byte>): u32
    requires |data| >= 4
  {
    FromBigEndianBound(data[..4]);
    Pow256Values();
    FromBigEndian(data[..4])
  }

  function DecodeLong(t: PacketType, data: seq<byte>, total: nat): Result<(PacketHeader, nat), PacketError>
    requires |data| <= total
  {
    if |data| < 4 then Err(IncompleteVersion)
    else
      match DecodeId(data[4..])
      case Missing => Err(MissingDcidLength)
      case TooShort => Err(IncompleteDcid)
      case Field(dcid, rest) =>
        match DecodeId(rest)
        case Missing => Err(MissingScidLength)
        case TooShort => Err(IncompleteScid)
        case Field(scid, last) =>
          Ok(Finish(PacketHeader(t, OrZero(dcid), 0, Some(DecodeVersion(data)), scid, None), last, total))
  }

  function DecodeShort(data: seq<byte>, total: nat): Result<(PacketHeader, nat), PacketError>
    requires |data| <= total
  {
    if |data| < 16 then Err(IncompleteConnectionId)
    else Ok(Finish(PacketHeader(OneRTT, data[..16], 0, None, None, None), data[16..], total))
  }

  /** Here an identifier that does not fit is silently left out. */
  function DecodeNegotiation(data: seq<byte>, total: nat): Result<(PacketHeader, nat), PacketError>
    requires |data| <= total
  {
    if |data| < 4 then Err(IncompleteVersion)
    else
      match DecodeId(data[4..])
      case Missing => Err(MissingDcidLength)
      case TooShort =>
        Ok(Finish(PacketHeader(VersionNegotiation, ZERO_ID, 0, Some(DecodeVersion(data)), None, None), data[5..], total))
      case Field(dcid, rest) =>
        Ok(Finish(PacketHeader(VersionNegotiation, OrZero(dcid), 0, Some(DecodeVersion(data)), None, None), rest, total))
  }

  function DecodeHeader(data: seq<byte>): Result<(PacketHeader, nat), PacketError> {
    if data == [] then Err(EmptyPacket)
    else
      match TypeOfByte(data[0])
      case None => Err(InvalidType)
      case Some(t) =>
        if LongForm(t) then DecodeLong(t, data[1..], |data|)
        else if t.OneRTT? then DecodeShort(data[1..], |data|)
        else DecodeNegotiation(data[1..], |data|)
  }

  /** No header claims more bytes than there are, so the "packet too short" check never fails. */
  lemma UsedWithin(data: seq<byte>)
    requires DecodeHeader(data).Ok?
    ensures DecodeHeader(data).value.1 <= |data|
  {
  }

  function EncodePacket(p: Packet): seq<byte> {
    EncodeHeader(p.header) + p.payload
  }

  /** A received packet gets the time of its arrival and counts as needing acknowledgement. */
  function DecodePacket(data: seq<byte>, now: nat): Result<Packet, PacketError> {
    match DecodeHeader(data)
    case Err(e) => Err(e)
    case Ok((h, used)) =>
      UsedWithin(data);
      Ok(Packet(h, data[used..], now, true))
  }

  // ---------- round trip ----------

  /** The type a reader sees: the long forms share the top four bits of `Initial`. */
  function SeenType(t: PacketType): PacketType {
    if LongForm(t) then Initial else t
  }

  /** The header a reader gets back. */
  function Seen(h: PacketHeader): PacketHeader {
    PacketHeader(
      SeenType(h.packetType), h.connectionId, h.packetNumber % TWO_TO_32,
      if LongForm(h.packetType) then Some(if h.version.Some? then h.version.value else 1)
      else if h.packetType.OneRTT? then None
      else Some(0),
      if LongForm(h.packetType) then h.sourceId else None,
      None)
  }

  lemma TypeRoundTrip(t: PacketType)
    ensures TypeOfByte(TypeByte(t)) == Some(SeenType(t))
  {
  }

  lemma IdRoundTrip(id: ConnectionId, rest: seq<byte>)
    ensures DecodeId([16] + id + rest) == Field(Some(id), rest)
  {
    var s := [16] + id + rest;
    assert s[1..] == id + rest;
    assert (id + rest)[..16] == id && (id + rest)[16..] == rest;
    assert Pad(id) == id;
  }

  lemma NoIdRoundTrip(rest: seq<byte>)
    ensures DecodeId([0] + rest) == Field(None, rest)
  {
    assert ([0] + rest)[1..] == rest;
  }

  lemma WordRoundTrip(v: u32, rest: seq<byte>)
    ensures FromBigEndian((BigEndian(v, 4) + rest)[..4]) == v && (BigEndian(v, 4) + rest)[4..] == rest
  {
    assert (BigEndian(v, 4) + rest)[..4] == BigEndian(v, 4);
    Pow256Values();
    DecodeBigEndian(v, 4);
  }

  /** A header whose packet number comes next is finished with that number and the payload left over. */
  lemma FinishRoundTrip(h: PacketHeader, number: u64, payload: seq<byte>, total: nat)
    requires 4 + |payload| <= total
    ensures Finish(h, BigEndian(number % TWO_TO_32, 4) + payload, total)
         == (h.(packetNumber := number % TWO_TO_32), total - |payload|)
  {
    WordRoundTrip(number % TWO_TO_32, payload);
  }

  lemma SourceRoundTrip(id: Option<ConnectionId>, rest: seq<byte>)
    ensures DecodeId(EncodeSource(id) + rest) == Field(id, rest)
  {
    if id.Some? {
      IdRoundTrip(id.value, rest);
    } else {
      NoIdRoundTrip(rest);
    }
  }

  lemma LongBody(version: u32, id: ConnectionId, source: seq<byte>, last: seq<byte>)
    ensures BigEndian(version, 4) + ([16] + id) + source + last == BigEndian(version, 4) + ([16] + id + (source + last))
  {
  }

  lemma DecodeLongFields(
    t: PacketType, data: seq<byte>, version: u32, id: ConnectionId, source: Option<ConnectionId>,
    rest: seq<byte>, last: seq<byte>, total: nat)
    requires 4 <= |data| <= total && |last| <= total && DecodeVersion(data) == version
    requires DecodeId(data[4..]) == Field(Some(id), rest) && DecodeId(rest) == Field(source, last)
    ensures DecodeLong(t, data, total) == Ok(Finish(PacketHeader(t, id, 0, Some(version), source, None), last, total))
  {
  }

  lemma LongRoundTrip(h: PacketHeader, payload: seq<byte>, total: nat)
    requires LongForm(h.packetType)
    requires total == 1 + |EncodeBody(h)| + 4 + |payload|
    ensures DecodeLong(Initial, EncodeBody(h) + (BigEndian(h.packetNumber % TWO_TO_32, 4) + payload), total)
         == Ok((Seen(h), total - |payload|))
  {
    var version: u32 := if h.version.Some? then h.version.value else 1;
    var last, source := BigEndian(h.packetNumber % TWO_TO_32, 4) + payload, EncodeSource(h.sourceId);
    var data := EncodeBody(h) + last;
    LongBody(version, h.connectionId, source, last);
    WordRoundTrip(version, [16] + h.connectionId + (source + last));
    IdRoundTrip(h.connectionId, source + last);
    SourceRoundTrip(h.sourceId, last);
    DecodeLongFields(Initial, data, version, h.connectionId, h.sourceId, source + last, last, total);
    FinishRoundTrip(PacketHeader(Initial, h.connectionId, 0, Some(version), h.sourceId, None),
                    h.packetNumber, payload, total);
  }

  lemma ShortRoundTrip(h: PacketHeader, payload: seq<byte>, total: nat)
    requires h.packetType.OneRTT?
    requires total == 1 + |EncodeBody(h)| + 4 + |payload|
    ensures DecodeShort(EncodeBody(h) + (BigEndian(h.packetNumber % TWO_TO_32, 4) + payload), total)
         == Ok((Seen(h), total - |payload|))
  {
    var last := BigEndian(h.packetNumber % TWO_TO_32, 4) + payload;
    assert (h.connectionId + last)[..16] == h.connectionId && (h.connectionId + last)[16..] == last;
    FinishRoundTrip(PacketHeader(OneRTT, h.connectionId, 0, None, None, None), h.packetNumber, payload, total);
  }

  lemma NegotiationRoundTrip(h: PacketHeader, payload: seq<byte>, total: nat)
    requires h.packetType.VersionNegotiation?
    requires total == 1 + |EncodeBody(h)| + 4 + |payload|
    ensures DecodeNegotiation(EncodeBody(h) + (BigEndian(h.packetNumber % TWO_TO_32, 4) + payload), total)
         == Ok((Seen(h), total - |payload|))
  {
    var last := BigEndian(h.packetNumber % TWO_TO_32, 4) + payload;
    var data := EncodeBody(h) + last;
    assert data == BigEndian(0, 4) + ([16] + h.connectionId + last);
    WordRoundTrip(0, [16] + h.connectionId + last);
    IdRoundTrip(h.connectionId, last);
    FinishRoundTrip(PacketHeader(VersionNegotiation, h.connectionId, 0, Some(0), None, None),
                    h.packetNumber, payload, total);
  }

  /** Decoding an encoded header reports its exact length and gives back what `Seen` keeps of it. */
  lemma HeaderRoundTrip(h: PacketHeader, payload: seq<byte>)
    ensures DecodeHeader(EncodeHeader(h) + payload) == Ok((Seen(h), |EncodeHeader(h)|))
  {
    var data := EncodeHeader(h) + payload;
    var rest := EncodeBody(h) + (BigEndian(h.packetNumber % TWO_TO_32, 4) + payload);
    assert data[1..] == rest;
    TypeRoundTrip(h.packetType);
    if LongForm(h.packetType) {
      LongRoundTrip(h, payload, |data|);
    } else if h.packetType.OneRTT? {
      ShortRoundTrip(h, payload, |data|);
    } else {
      NegotiationRoundTrip(h, payload, |data|);
    }
  }

  /**
    A packet comes back with its payload and identifiers, its number modulo 2^32, and every long type
    turned into `Initial`.
   */
  lemma PacketRoundTrip(p: Packet, now: nat)
    ensures DecodePacket(EncodePacket(p), now) == Ok(Packet(Seen(p.header), p.payload, now, true))
  {
    HeaderRoundTrip(p.header, p.payload);
    assert EncodePacket(p)[|EncodeHeader(p.header)|..] == p.payload;
  }

  /** A reader of an encoded header sees the packet's type exactly for the three types with bits of their own. */
  lemma TypeSurvivesIff(h: PacketHeader, payload: seq<byte>)
    ensures DecodeHeader(EncodeHeader(h) + payload).Ok?
    ensures DecodeHeader(EncodeHeader(h) + payload).value.0.packetType == h.packetType <==>
            h.packetType.Initial? || h.packetType.OneRTT? || h.packetType.VersionNegotiation?
  {
    HeaderRoundTrip(h, payload);
  }
}
