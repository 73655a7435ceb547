/** Where the fields of a packet header stand in any byte string, and which headers survive the wire. */
module PacketFields {
  import opened Bytes
  import opened Packets

  /** How many bytes of an identifier are taken: one that is announced as longer than sixteen bytes is not skipped. */
  function Taken(length: byte): nat {
    if length <= 16 then length else 0
  }

  /** The identifier whose length stands at byte `i`, filled up with zeros. */
  function IdAt(data: seq<byte>, i: nat): Option<ConnectionId>
    requires i < |data| && i + 1 + data[i] <= |data|
  {
    if 1 <= data[i] <= 16 then Some(data[i + 1..i + 1 + data[i]] + seq(16 - data[i], _ => 0)) else None
  }

  /** The four bytes at `i` in network order. */
  function WordAt(data: seq<byte>, i: nat): u32
    requires i + 4 <= |data|
  {
    FromBigEndianBound(data[i..i + 4]);
    Pow256Values();
    FromBigEndian(data[i..i + 4])
  }

  function NumberAt(data: seq<byte>, i: nat): u32 {
    if i + 4 <= |data| then WordAt(data, i) else 0
  }

  /** The header ends after its number, or before it if there is no room for one: what is left is payload then. */
  function EndFor(data: seq<byte>, i: nat): nat {
    if i + 4 <= |data| then i + 4 else i
  }

  /** There is an identifier of the announced length at byte `i`. */
  predicate HasId(data: seq<byte>, i: nat) {
    i < |data| && i + 1 + data[i] <= |data|
  }

  lemma NumberRead(h: PacketHeader, data: seq<byte>, i: nat)
    requires i <= |data| && h.packetNumber == 0
    ensures Finish(h, data[i..], |data|) == (h.(packetNumber := NumberAt(data, i)), EndFor(data, i))
  {
    if i + 4 <= |data| {
      assert data[i..][..4] == data[i..i + 4];
    }
  }

  lemma IdRead(data: seq<byte>, i: nat)
    requires i <= |data|
    ensures DecodeId(data[i..])
         == if i == |data| then Missing
            else if !HasId(data, i) then TooShort
            else Field(IdAt(data, i), data[i + 1 + Taken(data[i])..])
  {
    if i < |data| {
      assert data[i..][1..] == data[i + 1..];
      if HasId(data, i) && 1 <= data[i] <= 16 {
        assert data[i + 1..][..data[i]] == data[i + 1..i + 1 + data[i]];
        assert ZERO_ID[data[i]..] == seq(16 - data[i], _ => 0);
      }
    }
  }

  lemma VersionRead(data: seq<byte>)
    requires |data| >= 5
    ensures DecodeVersion(data[1..]) == WordAt(data, 1) && data[1..][4..] == data[5..]
    ensures |data| > 5 ==> data[1..][5..] == data[6..]
  {
    assert data[1..][..4] == data[1..5];
  }

  lemma TypeKept(data: seq<byte>)
    requires data != []
    ensures DecodeHeader(data).Ok? ==> TypeOfByte(data[0]) == Some(DecodeHeader(data).value.0.packetType)
    ensures DecodeHeader(data) == Err(InvalidType) <==> TypeOfByte(data[0]) == None
  {
  }

  /** Only the top four bits of the first byte are looked at. */
  lemma TypeIff(data: seq<byte>)
    requires data != []
    ensures DecodeHeader(data) == Err(InvalidType) <==> 0x10 <= data[0] < 0x40 || 0xC0 <= data[0]
    ensures DecodeHeader(data).Ok? ==>
              match DecodeHeader(data).value.0.packetType
              case VersionNegotiation => data[0] < 0x10
              case OneRTT => 0x40 <= data[0] < 0x80
              case Initial => 0x80 <= data[0] < 0x90
              case ZeroRTT => 0x90 <= data[0] < 0xA0
              case Handshake => 0xA0 <= data[0] < 0xB0
              case Retry => 0xB0 <= data[0] < 0xC0
  {
    TypeKept(data);
  }

  lemma LongOf(
    t: PacketType, tail: seq<byte>, total: nat,
    dcid: Option<ConnectionId>, rest: seq<byte>, scid: Option<ConnectionId>, last: seq<byte>)
    requires 4 <= |tail| <= total && |last| <= total
    requires DecodeId(tail[4..]) == Field(dcid, rest) && DecodeId(rest) == Field(scid, last)
    ensures DecodeLong(t, tail, total)
         == Ok(Finish(PacketHeader(t, OrZero(dcid), 0, Some(DecodeVersion(tail)), scid, None), last, total))
  {
  }

  lemma LongFields(t: PacketType, data: seq<byte>, j: nat)
    requires |data| > 5 && HasId(data, 5) && j == 6 + Taken(data[5]) && HasId(data, j)
    ensures var k := j + 1 + Taken(data[j]);
            DecodeLong(t, data[1..], |data|)
            == Ok((PacketHeader(t, OrZero(IdAt(data, 5)), NumberAt(data, k), Some(WordAt(data, 1)), IdAt(data, j),
                                None),
                   EndFor(data, k)))
  {
    var k := j + 1 + Taken(data[j]);
    VersionRead(data);
    IdRead(data, 5);
    IdRead(data, j);
    LongOf(t, data[1..], |data|, IdAt(data, 5), data[j..], IdAt(data, j), data[k..]);
    NumberRead(PacketHeader(t, OrZero(IdAt(data, 5)), 0, Some(WordAt(data, 1)), IdAt(data, j), None), data, k);
  }

  lemma LongErrors(t: PacketType, data: seq<byte>)
    requires data != []
    ensures |data| < 5 ==> DecodeLong(t, data[1..], |data|) == Err(IncompleteVersion)
    ensures |data| == 5 ==> DecodeLong(t, data[1..], |data|) == Err(MissingDcidLength)
    ensures |data| > 5 && !HasId(data, 5) ==> DecodeLong(t, data[1..], |data|) == Err(IncompleteDcid)
    ensures HasId(data, 5) ==>
              var j := 6 + Taken(data[5]);
              && (|data| == j ==> DecodeLong(t, data[1..], |data|) == Err(MissingScidLength))
              && (|data| > j && !HasId(data, j) ==> DecodeLong(t, data[1..], |data|) == Err(IncompleteScid))
  {
    if |data| >= 5 {
      VersionRead(data);
      IdRead(data, 5);
      if HasId(data, 5) {
        IdRead(data, 6 + Taken(data[5]));
      }
    }
  }

  /** A long header is refused exactly when its version or one of its identifiers is cut short. */
  lemma LongHeaderErrors(data: seq<byte>)
    requires data != [] && 0x80 <= data[0] < 0xC0
    ensures |data| < 5 ==> DecodeHeader(data) == Err(IncompleteVersion)
    ensures |data| == 5 ==> DecodeHeader(data) == Err(MissingDcidLength)
    ensures |data| > 5 && !HasId(data, 5) ==> DecodeHeader(data) == Err(IncompleteDcid)
    ensures HasId(data, 5) ==>
              var j := 6 + Taken(data[5]);
              && (|data| == j ==> DecodeHeader(data) == Err(MissingScidLength))
              && (|data| > j && !HasId(data, j) ==> DecodeHeader(data) == Err(IncompleteScid))
  {
    LongErrors(TypeOfByte(data[0]).value, data);
  }

  /**
    Otherwise: version in bytes 1 to 4, then two identifiers of any length up to sixteen with their lengths before
    them, then the number.
   */
  lemma LongHeaderFields(data: seq<byte>, t: PacketType, j: nat)
    requires data != [] && TypeOfByte(data[0]) == Some(t) && 0x80 <= data[0] < 0xC0
    requires HasId(data, 5) && j == 6 + Taken(data[5]) && HasId(data, j)
    ensures var k := j + 1 + Taken(data[j]);
            DecodeHeader(data)
            == Ok((PacketHeader(t, OrZero(IdAt(data, 5)), NumberAt(data, k), Some(WordAt(data, 1)), IdAt(data, j),
                                None),
                   EndFor(data, k)))
  {
    LongFields(t, data, j);
  }

  /** A short header: sixteen bytes of identifier and the number. */
  lemma ShortHeaderIff(data: seq<byte>)
    requires data != [] && 0x40 <= data[0] < 0x80
    ensures |data| < 17 ==> DecodeHeader(data) == Err(IncompleteConnectionId)
    ensures |data| >= 17 ==>
              DecodeHeader(data)
              == Ok((PacketHeader(OneRTT, data[1..17], NumberAt(data, 17), None, None, None), EndFor(data, 17)))
  {
    if |data| >= 17 {
      assert data[1..][..16] == data[1..17] && data[1..][16..] == data[17..];
      NumberRead(PacketHeader(OneRTT, data[1..17], 0, None, None, None), data, 17);
    }
  }

  /** A version negotiation: as a long header, but an identifier that does not fit is passed over and no error. */
  lemma NegotiationIff(data: seq<byte>)
    requires data != [] && data[0] < 0x10
    ensures |data| < 5 ==> DecodeHeader(data) == Err(IncompleteVersion)
    ensures |data| == 5 ==> DecodeHeader(data) == Err(MissingDcidLength)
    ensures |data| > 5 ==>
              var k := if HasId(data, 5) then 6 + Taken(data[5]) else 6;
              var id := if HasId(data, 5) && IdAt(data, 5).Some? then IdAt(data, 5).value else ZERO_ID;
              DecodeHeader(data)
              == Ok((PacketHeader(VersionNegotiation, id, NumberAt(data, k), Some(WordAt(data, 1)), None, None),
                     EndFor(data, k)))
  {
    if |data| >= 5 {
      VersionRead(data);
      IdRead(data, 5);
    }
    if |data| > 5 {
      NegotiationFields(data);
    }
  }

  lemma NegotiationFields(data: seq<byte>)
    requires |data| > 5
    ensures var k := if HasId(data, 5) then 6 + Taken(data[5]) else 6;
            var id := if HasId(data, 5) && IdAt(data, 5).Some? then IdAt(data, 5).value else ZERO_ID;
            DecodeNegotiation(data[1..], |data|)
            == Ok((PacketHeader(VersionNegotiation, id, NumberAt(data, k), Some(WordAt(data, 1)), None, None),
                   EndFor(data, k)))
  {
    var k := if HasId(data, 5) then 6 + Taken(data[5]) else 6;
    var id := if HasId(data, 5) && IdAt(data, 5).Some? then IdAt(data, 5).value else ZERO_ID;
    VersionRead(data);
    IdRead(data, 5);
    NumberRead(PacketHeader(VersionNegotiation, id, 0, Some(WordAt(data, 1)), None, None), data, k);
  }

  /** The first byte written: the long types differ in bits that no reader looks at. */
  lemma FirstByte(h: PacketHeader)
    ensures EncodeHeader(h) != [] && EncodeHeader(h)[0]
         == match h.packetType
            case VersionNegotiation => 0x00
            case OneRTT => 0x40
            case Initial => 0x80
            case ZeroRTT => 0x81
            case Handshake => 0x82
            case Retry => 0x83
  {
  }

  // ---------- which headers survive ----------

  /** What of a header the wire can carry. */
  predicate Carried(h: PacketHeader) {
    && h.packetNumber < 0x1_0000_0000 && h.destinationId == None
    && match h.packetType
       case Initial => h.version.Some?
       case OneRTT => h.version == None && h.sourceId == None
       case VersionNegotiation => h.version == Some(0) && h.sourceId == None
       case _ => false
  }

  /** The headers agree in what is carried; all long types count as `Initial`, and no version as version 1. */
  predicate Alike(h: PacketHeader, g: PacketHeader) {
    && h.connectionId == g.connectionId && h.packetNumber % 0x1_0000_0000 == g.packetNumber % 0x1_0000_0000
    && match g.packetType
       case Initial =>
         !h.packetType.OneRTT? && !h.packetType.VersionNegotiation? && h.sourceId == g.sourceId
         && g.version == (if h.version.None? then Some(1) else h.version)
       case OneRTT => h.packetType.OneRTT?
       case VersionNegotiation => h.packetType.VersionNegotiation?
       case _ => false
  }

  lemma SeenIff(h: PacketHeader, g: PacketHeader)
    ensures g == Seen(h) <==> Carried(g) && Alike(h, g)
  {
  }

  /** Any header arrives as the one header that can and that agrees with it. */
  lemma ArrivesAsIff(h: PacketHeader, payload: seq<byte>, g: PacketHeader)
    ensures DecodeHeader(EncodeHeader(h) + payload) == Ok((g, |EncodeHeader(h)|)) <==> Carried(g) && Alike(h, g)
  {
    HeaderRoundTrip(h, payload);
    SeenIff(h, g);
  }
}
