/** The byte layout of acknowledgement frames: fixed-width fields and a counted list of ranges. */
module AckCodec {
  import opened Bytes
  import opened Acks

  datatype AckError = EmptyFrame | NotAnAck | IncompleteFrame | IncompleteRange

  const ACK_TYPE: byte := 0x02

  /** The delay as whole microseconds in 64 bits. */
  function Micros(delay: nat): u64 {
    delay / 1000 % TWO_TO_64
  }

  function EncodeRanges(ranges: seq<AckRange>): (s: seq<byte>)
    ensures |s| == 16 * |ranges|
  {
    if ranges == [] then []
    else BigEndian(ranges[0].first, 8) + BigEndian(ranges[0].last, 8) + EncodeRanges(ranges[1..])
  }

  function Encode(f: AckFrame): (s: seq<byte>)
    ensures |s| == 25 + 16 * |f.ranges|
  {
    [ACK_TYPE] + (BigEndian(f.largestAcked, 8) + BigEndian(Micros(f.ackDelay), 8)
                  + BigEndian(|f.ranges| % TWO_TO_64, 8)) + EncodeRanges(f.ranges)
  }

  /** The eight bytes at `i` as a number. */
  function Word(s: seq<byte>, i: nat): u64
    requires i + 8 <= |s|
  {
    FromBigEndianBound(s[i..i + 8]);
    Pow256Values();
    FromBigEndian(s[i..i + 8])
  }

  /** `count` ranges starting at byte `i`. */
  function DecodeRanges(s: seq<byte>, i: nat, count: nat): Result<seq<AckRange>, AckError>
    requires i <= |s|
    decreases count
  {
    if count == 0 then Ok([])
    else if |s| - i < 16 then Err(IncompleteRange)
    else
      match DecodeRanges(s, i + 16, count - 1)
      case Err(e) => Err(e)
      case Ok(rest) => Ok([AckRange(Word(s, i), Word(s, i + 8))] + rest)
  }

  function Decode(s: seq<byte>): Result<AckFrame, AckError> {
    if s == [] then Err(EmptyFrame)
    else if s[0] != ACK_TYPE then Err(NotAnAck)
    else if |s| < 25 then Err(IncompleteFrame)
    else
      match DecodeRanges(s, 25, Word(s, 17))
      case Err(e) => Err(e)
      case Ok(ranges) => Ok(AckFrame(Word(s, 1), Word(s, 9) * 1000, ranges))
  }

  // ---------- round trips ----------

  lemma WordRoundTrip(s: seq<byte>, i: nat, v: u64)
    requires i + 8 <= |s| && s[i..i + 8] == BigEndian(v, 8)
    ensures Word(s, i) == v
  {
    Pow256Values();
    DecodeBigEndian(v, 8);
  }

  lemma SubSlice(s: seq<byte>, i: nat, n: nat, a: nat, b: nat)
    requires i + n <= |s| && a <= b <= n
    ensures s[i..i + n][a..b] == s[i + a..i + b]
  {
    var t := s[i..i + n];
    forall k | 0 <= k < b - a
      ensures t[a..b][k] == s[i + a..i + b][k]
    {
      assert t[a + k] == s[i + (a + k)];
    }
  }

  lemma {:induction false} RangesRoundTrip(s: seq<byte>, i: nat, ranges: seq<AckRange>)
    requires i + 16 * |ranges| <= |s| && s[i..i + 16 * |ranges|] == EncodeRanges(ranges)
    ensures DecodeRanges(s, i, |ranges|) == Ok(ranges)
    decreases |ranges|
  {
    if ranges == [] {
    } else {
      var n := 16 * |ranges|;
      var body := EncodeRanges(ranges);
      SubSlice(s, i, n, 0, 8);
      SubSlice(s, i, n, 8, 16);
      SubSlice(s, i, n, 16, n);
      assert body[0..8] == BigEndian(ranges[0].first, 8);
      assert body[8..16] == BigEndian(ranges[0].last, 8);
      assert body[16..n] == EncodeRanges(ranges[1..]);
      WordRoundTrip(s, i, ranges[0].first);
      WordRoundTrip(s, i + 8, ranges[0].last);
      RangesRoundTrip(s, i + 16, ranges[1..]);
      assert [ranges[0]] + ranges[1..] == ranges;
    }
  }

  lemma EncodedFields(f: AckFrame, rest: seq<byte>)
    ensures var s := Encode(f) + rest;
            && s[0] == 0x02 && s[1..9] == BigEndian(f.largestAcked, 8)
            && s[9..17] == BigEndian(Micros(f.ackDelay), 8)
            && s[17..25] == BigEndian(|f.ranges| % TWO_TO_64, 8)
            && s[25..25 + 16 * |f.ranges|] == EncodeRanges(f.ranges)
  {
  }

  lemma WordsRoundTrip(f: AckFrame, s: seq<byte>, rest: seq<byte>)
    requires |f.ranges| < TWO_TO_64 && s == Encode(f) + rest
    ensures s[0] == ACK_TYPE && Word(s, 1) == f.largestAcked && Word(s, 9) == Micros(f.ackDelay)
    ensures Word(s, 17) == |f.ranges|
  {
    EncodedFields(f, rest);
    assert |f.ranges| % TWO_TO_64 == |f.ranges|;
    WordRoundTrip(s, 1, f.largestAcked);
    WordRoundTrip(s, 9, Micros(f.ackDelay));
    WordRoundTrip(s, 17, |f.ranges|);
  }

  /** A frame with any number of ranges comes back, its delay cut to whole microseconds, whatever follows it. */
  lemma AckRoundTrip(f: AckFrame, rest: seq<byte>)
    requires |f.ranges| < TWO_TO_64
    ensures Decode(Encode(f) + rest) == Ok(f.(ackDelay := Micros(f.ackDelay) * 1000))
  {
    var s := Encode(f) + rest;
    WordsRoundTrip(f, s, rest);
    EncodedFields(f, rest);
    RangesRoundTrip(s, 25, f.ranges);
    DecodeFields(s, f.ranges);
  }

  lemma DecodeFields(s: seq<byte>, ranges: seq<AckRange>)
    requires |s| >= 25 && s[0] == ACK_TYPE && DecodeRanges(s, 25, Word(s, 17)) == Ok(ranges)
    ensures Decode(s) == Ok(AckFrame(Word(s, 1), Word(s, 9) * 1000, ranges))
  {
  }

  /** Less than a microsecond of the delay is lost exactly when it fits 64 bits of microseconds. */
  lemma DelayLoss(delay: nat)
    ensures Micros(delay) * 1000 <= delay
    ensures delay < Micros(delay) * 1000 + 1000 <==> delay < 1000 * 0x1_0000_0000_0000_0000
    ensures exists lost: nat :: delay / 1000 == Micros(delay) + lost * 0x1_0000_0000_0000_0000
  {
    var micros := delay / 1000;
    assert micros == micros % TWO_TO_64 + (micros / TWO_TO_64) * TWO_TO_64;
  }

  lemma {:induction false} RangesIff(s: seq<byte>, i: nat, count: nat)
    requires i <= |s|
    ensures DecodeRanges(s, i, count).Ok? <==> i + 16 * count <= |s|
    ensures DecodeRanges(s, i, count).Err? ==> DecodeRanges(s, i, count) == Err(IncompleteRange)
    ensures DecodeRanges(s, i, count).Ok? ==>
              && |DecodeRanges(s, i, count).value| == count
              && forall k :: 0 <= k < count ==>
                   DecodeRanges(s, i, count).value[k] == AckRange(Word(s, i + 16 * k), Word(s, i + 16 * k + 8))
    decreases count
  {
    if count > 0 && |s| - i >= 16 {
      RangesIff(s, i + 16, count - 1);
      if DecodeRanges(s, i, count).Ok? {
        RangesShift(s, i, count, DecodeRanges(s, i + 16, count - 1).value);
      }
    }
  }

  lemma RangesShift(s: seq<byte>, i: nat, count: nat, rest: seq<AckRange>)
    requires count > 0 && i + 16 * count <= |s| && |rest| == count - 1
    requires forall k :: 0 <= k < count - 1 ==>
               rest[k] == AckRange(Word(s, i + 16 + 16 * k), Word(s, i + 16 + 16 * k + 8))
    ensures var all := [AckRange(Word(s, i), Word(s, i + 8))] + rest;
            forall k :: 0 <= k < count ==> all[k] == AckRange(Word(s, i + 16 * k), Word(s, i + 16 * k + 8))
  {
    var all := [AckRange(Word(s, i), Word(s, i + 8))] + rest;
    forall k | 0 <= k < count
      ensures all[k] == AckRange(Word(s, i + 16 * k), Word(s, i + 16 * k + 8))
    {
      if k > 0 {
        assert all[k] == rest[k - 1] && i + 16 + 16 * (k - 1) == i + 16 * k;
      }
    }
  }

  /**
    Any byte string: it is refused with the error of the first field that is wrong or cut short, and otherwise its
    fields stand at fixed places.
   */
  lemma DecodeIff(s: seq<byte>)
    ensures s == [] ==> Decode(s) == Err(EmptyFrame)
    ensures s != [] && s[0] != 0x02 ==> Decode(s) == Err(NotAnAck)
    ensures 0 < |s| < 25 && s[0] == 0x02 ==> Decode(s) == Err(IncompleteFrame)
    ensures |s| >= 25 && s[0] == 0x02 && |s| < 25 + 16 * Word(s, 17) ==> Decode(s) == Err(IncompleteRange)
    ensures |s| >= 25 && s[0] == 0x02 && |s| >= 25 + 16 * Word(s, 17) ==>
              && Decode(s).Ok? && Decode(s).value.largestAcked == Word(s, 1)
              && Decode(s).value.ackDelay == 1000 * Word(s, 9) && |Decode(s).value.ranges| == Word(s, 17)
              && forall k :: 0 <= k < Word(s, 17) ==>
                   Decode(s).value.ranges[k] == AckRange(Word(s, 25 + 16 * k), Word(s, 33 + 16 * k))
  {
    if |s| >= 25 {
      RangesIff(s, 25, Word(s, 17));
    }
  }

  lemma WordEncodes(s: seq<byte>, i: nat)
    requires i + 8 <= |s|
    ensures BigEndian(Word(s, i), 8) == s[i..i + 8]
  {
    EncodeFromBigEndian(s[i..i + 8]);
  }

  lemma {:induction false} RangesReencode(s: seq<byte>, i: nat, count: nat)
    requires i <= |s| && DecodeRanges(s, i, count).Ok?
    ensures |DecodeRanges(s, i, count).value| == count && i + 16 * count <= |s|
    ensures EncodeRanges(DecodeRanges(s, i, count).value) == s[i..i + 16 * count]
    decreases count
  {
    if count == 0 {
    } else {
      RangesReencode(s, i + 16, count - 1);
      var ranges := DecodeRanges(s, i, count).value;
      WordEncodes(s, i);
      WordEncodes(s, i + 8);
      assert ranges[1..] == DecodeRanges(s, i + 16, count - 1).value;
      assert s[i..i + 16 * count] == s[i..i + 8] + s[i + 8..i + 16] + s[i + 16..i + 16 * count];
    }
  }

  /** Encoding a decoded frame gives back exactly the bytes that were read. */
  lemma Reencode(s: seq<byte>)
    requires Decode(s).Ok?
    ensures 25 + 16 * |Decode(s).value.ranges| <= |s|
    ensures Encode(Decode(s).value) == s[..25 + 16 * |Decode(s).value.ranges|]
  {
    var f := Decode(s).value;
    RangesReencode(s, 25, Word(s, 17));
    WordEncodes(s, 1);
    WordEncodes(s, 9);
    WordEncodes(s, 17);
    WholeMicros(Word(s, 9));
    SmallWord(Word(s, 17));
    Pieces(s, 25 + 16 * |f.ranges|);
  }

  lemma WholeMicros(micros: u64)
    ensures Micros(micros * 1000) == micros
  {
  }

  lemma SmallWord(word: u64)
    ensures word % TWO_TO_64 == word
  {
  }

  lemma Pieces(s: seq<byte>, n: nat)
    requires 25 <= n <= |s|
    ensures s[..n] == [s[0]] + (s[1..9] + s[9..17] + s[17..25]) + s[25..n]
  {
  }

  // ---------- the loops ----------

  method EncodeFrame(f: AckFrame) returns (buffer: seq<byte>)
    requires |f.ranges| < TWO_TO_64
    ensures buffer == Encode(f)
  {
    buffer := [ACK_TYPE];
    buffer := buffer + (BigEndian(f.largestAcked, 8) + BigEndian(Micros(f.ackDelay), 8) + BigEndian(|f.ranges|, 8));
    HeadThenRanges(f, buffer);
    ghost var goal := Encode(f);
    var i := 0;
    while i < |f.ranges|
      invariant 0 <= i <= |f.ranges|
      invariant goal == buffer + EncodeRanges(f.ranges[i..])
    {
      var r := f.ranges[i];
      RangeStep(buffer, f.ranges, i);
      buffer := buffer + BigEndian(r.first, 8) + BigEndian(r.last, 8);
      i := i + 1;
    }
    NoRangesLeft(buffer, f.ranges, i);
  }

  lemma HeadThenRanges(f: AckFrame, head: seq<byte>)
    requires |f.ranges| < TWO_TO_64
    requires head == [ACK_TYPE]
                     + (BigEndian(f.largestAcked, 8) + BigEndian(Micros(f.ackDelay), 8) + BigEndian(|f.ranges|, 8))
    ensures Encode(f) == head + EncodeRanges(f.ranges[0..])
  {
    assert f.ranges[0..] == f.ranges && |f.ranges| % TWO_TO_64 == |f.ranges|;
  }

  lemma NoRangesLeft(buffer: seq<byte>, ranges: seq<AckRange>, i: nat)
    requires i == |ranges|
    ensures buffer + EncodeRanges(ranges[i..]) == buffer
  {
  }

  lemma RangeStep(buffer: seq<byte>, ranges: seq<AckRange>, i: nat)
    requires i < |ranges|
    ensures buffer + EncodeRanges(ranges[i..])
         == buffer + BigEndian(ranges[i].first, 8) + BigEndian(ranges[i].last, 8) + EncodeRanges(ranges[i + 1..])
  {
    assert ranges[i..][1..] == ranges[i + 1..];
    var a, b, c := BigEndian(ranges[i].first, 8), BigEndian(ranges[i].last, 8), EncodeRanges(ranges[i + 1..]);
    assert buffer + (a + b + c) == buffer + a + b + c;
  }

  method DecodeFrame(data: seq<byte>) returns (r: Result<AckFrame, AckError>)
    ensures r == Decode(data)
  {
    if |data| < 1 {
      return Err(EmptyFrame);
    }
    if data[0] != ACK_TYPE {
      return Err(NotAnAck);
    }
    if |data| - 1 < 24 {
      return Err(IncompleteFrame);
    }
    var largestAcked := Word(data, 1);
    var ackDelay := Word(data, 9) * 1000;
    var rangeCount := Word(data, 17);
    var ranges: seq<AckRange> := [];
    var position := 25;
    var i := 0;
    JoinedNone(DecodeRanges(data, 25, rangeCount));
    while i < rangeCount
      invariant 0 <= i <= rangeCount && 25 <= position <= |data|
      invariant DecodeRanges(data, 25, rangeCount) == Joined(ranges, DecodeRanges(data, position, rangeCount - i))
    {
      if |data| - position < 16 {
        return Err(IncompleteRange);
      }
      var first := Word(data, position);
      var last := Word(data, position + 8);
      JoinedStep(ranges, AckRange(first, last), DecodeRanges(data, position + 16, rangeCount - i - 1));
      ranges := ranges + [AckRange(first, last)];
      position := position + 16;
      i := i + 1;
    }
    assert ranges + [] == ranges;
    return Ok(AckFrame(largestAcked, ackDelay, ranges));
  }

  /** Ranges read so far, followed by those still to be read. */
  function Joined(ranges: seq<AckRange>, rest: Result<seq<AckRange>, AckError>): Result<seq<AckRange>, AckError> {
    match rest
    case Err(e) => Err(e)
    case Ok(more) => Ok(ranges + more)
  }

  lemma JoinedNone(rest: Result<seq<AckRange>, AckError>)
    ensures Joined([], rest) == rest
  {
    assert rest.Ok? ==> [] + rest.value == rest.value;
  }

  lemma JoinedStep(ranges: seq<AckRange>, r: AckRange, rest: Result<seq<AckRange>, AckError>)
    ensures Joined(ranges, Joined([r], rest)) == Joined(ranges + [r], rest)
  {
    if rest.Ok? {
      assert ranges + ([r] + rest.value) == ranges + [r] + rest.value;
    }
  }
}
