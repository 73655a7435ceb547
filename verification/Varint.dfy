/** Variable-length integers, section 16 of RFC 9000: two tag bits for the length, then the value. */
module Varint {
  import opened Bytes
  import opened Bits

  /** Values below this bound are the ones a varint can carry. */
  const VARINT_BOUND: nat := 0x4000_0000_0000_0000

  /** What reading a varint off the front of a byte string gives. */
  datatype ReadResult = Incomplete | Read(value: u64, used: nat)

  function Tag(n: nat): nat {
    if n == 1 then 0 else if n == 2 then 1 else if n == 4 then 2 else 3
  }

  /** How many values fit in `n` bytes beside the tag. */
  function Capacity(n: nat): nat {
    if n == 1 then 64 else if n == 2 then 16384 else if n == 4 then 1073741824 else VARINT_BOUND
  }

  /** The length that the tag of a first byte announces. */
  function LengthOfTag(first: byte): (n: nat) {
    if first < 64 then 1 else if first < 128 then 2 else if first < 192 then 4 else 8
  }

  function Size(v: u64): (n: nat) {
    if v < 64 then 1 else if v < 16384 then 2 else if v < 1073741824 then 4 else 8
  }

  /** Section 16 of RFC 9000: the tag and the value, read as one number in network order. */
  function Encode(v: u64): (s: seq<byte>)
    ensures |s| == Size(v)
  {
    var n := Size(v);
    BigEndian(Tag(n) * Capacity(n) + v % Capacity(n), n)
  }

  /** The number in the first `n` bytes of `s` once the tag bits of the first byte are cleared. */
  function DigitsValue(s: seq<byte>, n: nat): nat
    requires 1 <= n <= |s|
  {
    if n == 1 then s[0] % 64 else DigitsValue(s, n - 1) * 256 + s[n - 1]
  }

  function Decode(s: seq<byte>): (r: ReadResult)
    ensures r.Read? ==> 0 < r.used <= 8 && r.used <= |s| && r.value < VARINT_BOUND
  {
    if s == [] || |s| < LengthOfTag(s[0]) then Incomplete
    else
      var n := LengthOfTag(s[0]);
      DigitsBound(s, n);
      Read(DigitsValue(s, n), n)
  }

  /** `n` bytes in network order, with the tag bits of the first one cleared. */
  function Digits(s: seq<byte>, n: nat): (digits: seq<byte>)
    requires 1 <= n <= |s|
    ensures |digits| == n
  {
    [s[0] % 64] + s[1..n]
  }

  lemma {:induction false} DigitsAreBigEndian(s: seq<byte>, n: nat)
    requires 1 <= n <= |s|
    ensures DigitsValue(s, n) == FromBigEndian(Digits(s, n))
  {
    if n > 1 {
      DigitsAreBigEndian(s, n - 1);
      assert Digits(s, n)[..n - 1] == Digits(s, n - 1);
    } else {
      assert Digits(s, 1) == [s[0] % 64];
    }
  }

  /** What is left beside the tag fits there. */
  lemma DigitsBound(s: seq<byte>, n: nat)
    requires n in {1, 2, 4, 8} && n <= |s|
    ensures DigitsValue(s, n) < Capacity(n)
  {
    DigitsAreBigEndian(s, n);
    BoundByLeadingDigit(Digits(s, n), 64);
    Pow256Values();
  }

  lemma {:induction false} BoundByLeadingDigit(s: seq<byte>, bound: nat)
    requires s != [] && s[0] < bound
    ensures FromBigEndian(s) < bound * Pow256(|s| - 1)
  {
    if |s| > 1 {
      BoundByLeadingDigit(s[..|s| - 1], bound);
      var p := Pow256(|s| - 2);
      assert bound * Pow256(|s| - 1) == (bound * p) * 256;
    } else {
      assert FromBigEndian(s) == s[0];
    }
  }

  lemma {:induction false} SplitLeadingByte(s: seq<byte>)
    requires s != []
    ensures FromBigEndian(s) == s[0] * Pow256(|s| - 1) + FromBigEndian(s[1..])
  {
    if |s| > 1 {
      var front := s[..|s| - 1];
      SplitLeadingByte(front);
      assert front[1..] == s[1..][..|s| - 2];
      assert s[0] * Pow256(|s| - 1) == (s[0] * Pow256(|s| - 2)) * 256;
    } else {
      assert FromBigEndian(s) == s[0];
    }
  }

  /** Adding a tag to a number that leaves room for it changes the first byte only. */
  lemma TaggedDigits(tag: nat, n: nat, w: nat)
    requires tag < 4 && n in {1, 2, 4, 8} && w < Capacity(n)
    ensures BigEndian(w, n)[0] < 64
    ensures BigEndian(tag * Capacity(n) + w, n) == [64 * tag + BigEndian(w, n)[0]] + BigEndian(w, n)[1..]
  {
    Pow256Values();
    LeadingByte(w, n, 64);
    DecodeBigEndian(w, n);
    var d := BigEndian(w, n);
    var t := [64 * tag + d[0]] + d[1..];
    SplitLeadingByte(d);
    SplitLeadingByte(t);
    TagWeight(tag, d[0], n);
    assert t[1..] == d[1..];
    assert FromBigEndian(t) == tag * Capacity(n) + w;
    EncodeFromBigEndian(t);
  }

  lemma TagWeight(tag: nat, first: byte, n: nat)
    requires n in {1, 2, 4, 8}
    ensures (64 * tag + first) * Pow256(n - 1) == tag * Capacity(n) + first * Pow256(n - 1)
  {
    Pow256Values();
  }

  // ---------- what the encoding promises ----------

  /** The encoding, byte by byte: the tag sits in the two spare bits of the first digit. */
  lemma EncodedDigits(v: u64)
    ensures var n := Size(v);
            var d := BigEndian(v % Capacity(n), n);
            d[0] < 64 && Encode(v) == [64 * Tag(n) + d[0]] + d[1..]
  {
    TaggedDigits(Tag(Size(v)), Size(v), v % Capacity(Size(v)));
  }

  /** The digits of an encoding denote the value, reduced to what a varint can carry. */
  lemma DigitsDenote(w: nat, n: nat)
    requires n in {1, 2, 4, 8} && w < Capacity(n)
    ensures FromBigEndian(BigEndian(w, n)) == w
  {
    Pow256Values();
    DecodeBigEndian(w, n);
  }

  lemma Reduced(v: u64)
    ensures v % Capacity(Size(v)) == v % VARINT_BOUND
  {
  }

  lemma Untag(n: nat, first: byte)
    requires n in {1, 2, 4, 8} && first < 64
    ensures LengthOfTag(64 * Tag(n) + first) == n && (64 * Tag(n) + first) % 64 == first
  {
  }

  lemma TagBits(first: byte)
    ensures 64 * Tag(LengthOfTag(first)) + first % 64 == first
  {
  }

  lemma ReadDigits(s: seq<byte>, n: nat)
    requires s != [] && n == LengthOfTag(s[0]) && n <= |s|
    ensures Decode(s).Read? && Decode(s).used == n && Decode(s).value == FromBigEndian(Digits(s, n))
  {
    DigitsAreBigEndian(s, n);
  }

  /** Reading back an encoding gives the value modulo 2^62 and leaves whatever follows. */
  lemma RoundTrip(v: u64, rest: seq<byte>)
    ensures Decode(Encode(v) + rest) == Read(v % VARINT_BOUND, Size(v))
  {
    var n, s := Size(v), Encode(v) + rest;
    var d := BigEndian(v % Capacity(n), n);
    EncodedDigits(v);
    Untag(n, d[0]);
    assert Digits(s, n) == d;
    ReadDigits(s, n);
    Reduced(v);
    DigitsDenote(v % Capacity(n), n);
  }

  /** Every strict prefix of an encoding reads as incomplete. */
  lemma StrictPrefixIncomplete(v: u64, k: nat)
    requires k < Size(v)
    ensures Decode(Encode(v)[..k]) == Incomplete
  {
    EncodedDigits(v);
  }

  /** Any byte string that reads as `v` is at least as long as the encoding of `v`. */
  lemma Minimal(s: seq<byte>)
    requires Decode(s).Read?
    ensures Size(Decode(s).value) <= Decode(s).used
  {
    DigitsBound(s, LengthOfTag(s[0]));
  }

  /** The encoding is the only shortest byte string that reads as the value. */
  lemma ShortestIsEncoding(s: seq<byte>)
    requires Decode(s).Read? && Size(Decode(s).value) == Decode(s).used
    ensures s[..Decode(s).used] == Encode(Decode(s).value)
  {
    var n, v := Decode(s).used, Decode(s).value;
    DigitsBound(s, n);
    ReadDigits(s, n);
    TagBits(s[0]);
    assert v % Capacity(n) == v;
    EncodeFromBigEndian(Digits(s, n));
    EncodedDigits(v);
  }

  // ---------- the four forms of section 16 of RFC 9000 ----------

  /** `s` begins with `v` in the form of `n` bytes: the length in the two top bits, the value in the others. */
  ghost predicate IsForm(s: seq<byte>, v: nat, n: nat) {
    || (n == 1 <= |s| && v < 0x40 && FromBigEndian(s[..1]) == v)
    || (n == 2 <= |s| && v < 0x4000 && FromBigEndian(s[..2]) == 0x4000 + v)
    || (n == 4 <= |s| && v < 0x4000_0000 && FromBigEndian(s[..4]) == 0x8000_0000 + v)
    || (n == 8 <= |s| && v < 0x4000_0000_0000_0000 && FromBigEndian(s[..8]) == 0xC000_0000_0000_0000 + v)
  }

  lemma FirstByteWeight(first: byte, n: nat)
    requires n in {1, 2, 4, 8}
    ensures first * Pow256(n - 1) == first / 64 * Capacity(n) + first % 64 * Pow256(n - 1)
  {
    Pow256Values();
    assert first == 64 * (first / 64) + first % 64;
    if n == 1 {
    } else if n == 2 {
    } else if n == 4 {
    } else {
    }
  }

  /** The first bytes as a number: the tag bits weigh as much as the capacity. */
  lemma TagAndDigits(s: seq<byte>, n: nat)
    requires n in {1, 2, 4, 8} && n <= |s|
    ensures FromBigEndian(s[..n]) == (s[0] / 64) * Capacity(n) + DigitsValue(s, n)
  {
    DigitsAreBigEndian(s, n);
    SplitLeadingByte(s[..n]);
    SplitLeadingByte(Digits(s, n));
    assert s[..n][1..] == s[1..n] && Digits(s, n)[1..] == s[1..n];
    FirstByteWeight(s[0], n);
  }

  lemma LengthIsTag(first: byte, n: nat)
    requires n in {1, 2, 4, 8}
    ensures LengthOfTag(first) == n <==> first / 64 == Tag(n)
  {
  }

  lemma FormIsTagged(s: seq<byte>, v: nat, n: nat)
    requires n in {1, 2, 4, 8} && n <= |s|
    ensures IsForm(s, v, n) <==> v < Capacity(n) && FromBigEndian(s[..n]) == Tag(n) * Capacity(n) + v
  {
  }

  lemma QuotientIsTag(q: nat, d: nat, t: nat, v: nat, n: nat)
    requires n in {1, 2, 4, 8} && q < 4 && t < 4
    requires d < Capacity(n) && v < Capacity(n) && q * Capacity(n) + d == t * Capacity(n) + v
    ensures q == t && d == v
  {
  }

  lemma FormIff(s: seq<byte>, v: nat, n: nat)
    requires n in {1, 2, 4, 8} && n <= |s|
    ensures IsForm(s, v, n) <==> LengthOfTag(s[0]) == n && DigitsValue(s, n) == v
  {
    TagAndDigits(s, n);
    LengthIsTag(s[0], n);
    FormIsTagged(s, v, n);
    DigitsBound(s, n);
    if IsForm(s, v, n) {
      QuotientIsTag(s[0] / 64, DigitsValue(s, n), Tag(n), v, n);
    }
  }

  /** Reading gives exactly the value whose form comes first, minimal or not; without one, nothing is read. */
  lemma ReadIff(s: seq<byte>, v: u64, n: nat)
    ensures Decode(s) == Read(v, n) <==> IsForm(s, v, n)
  {
    if n in {1, 2, 4, 8} && n <= |s| {
      FormIff(s, v, n);
    }
  }

  /** More input never changes a varint that was complete. */
  lemma Extend(s: seq<byte>, t: seq<byte>)
    requires Decode(s).Read?
    ensures Decode(s + t) == Decode(s)
  {
    SameDigits(s, s + t, LengthOfTag(s[0]));
  }

  /** A varint is read from the bytes it consumes and from no others. */
  lemma ReadsItsOwnBytes(s: seq<byte>)
    requires Decode(s).Read?
    ensures Decode(s[..Decode(s).used]) == Decode(s)
  {
    SameDigits(s, s[..Decode(s).used], LengthOfTag(s[0]));
  }

  lemma {:induction false} SameDigits(s: seq<byte>, t: seq<byte>, n: nat)
    requires 1 <= n <= |s| && n <= |t| && s[..n] == t[..n]
    ensures DigitsValue(s, n) == DigitsValue(t, n)
  {
    assert s[n - 1] == s[..n][n - 1] == t[n - 1];
    if n > 1 {
      assert s[..n - 1] == s[..n][..n - 1] == t[..n - 1];
      SameDigits(s, t, n - 1);
    }
  }

  // ---------- the shifting and masking code ----------

  /**
    Reads a varint from `data` at the cursor `pos`, byte by byte. On `Incomplete` the cursor has
    moved past the bytes that were there; no caller looks at it then.
   */
  method ReadVarint(data: seq<byte>, pos: nat) returns (r: ReadResult)
    requires pos <= |data|
    ensures r == Decode(data[pos..])
  {
    if pos == |data| {
      return Incomplete;
    }
    var first := ToByte(data[pos]);
    var tag := first >> 6;
    var length := if tag == 0 then 1 else if tag == 1 then 2 else if tag == 2 then 4 else 8;
    LengthFromTag(first);
    var value := (first & 0x3F) as bv64;
    FirstBits(first);
    var i := 1;
    while i < length
      invariant 1 <= i <= length && pos + i <= |data|
      invariant Nat64(value) == DigitsValue(data[pos..], i)
    {
      if pos + i == |data| {
        return Incomplete;
      }
      var next := ToByte(data[pos + i]);
      NextDigit(data[pos..], i, value, next);
      value := (value << 8) | (next as bv64);
      i := i + 1;
    }
    return Read(Nat64(value), length);
  }

  lemma FirstBits(first: bv8)
    ensures Nat64((first & 0x3F) as bv64) == Nat8(first) % 64
  {
    LowBits(first);
    WidenByte(first & 0x3F);
  }

  lemma NextDigit(s: seq<byte>, i: nat, value: bv64, next: bv8)
    requires 1 <= i < 8 && i < |s| && Nat8(next) == s[i]
    requires Nat64(value) == DigitsValue(s, i)
    ensures Nat64((value << 8) | (next as bv64)) == DigitsValue(s, i + 1)
  {
    RoomForByte(s, i);
    Accumulate(value, next);
  }

  lemma LengthFromTag(first: bv8)
    ensures var tag := first >> 6;
            LengthOfTag(Nat8(first)) == if tag == 0 then 1 else if tag == 1 then 2 else if tag == 2 then 4 else 8
  {
    Unfold(first);
  }

  lemma RoomForByte(s: seq<byte>, n: nat)
    requires 1 <= n < 8 && n <= |s|
    ensures DigitsValue(s, n) < 0x100_0000_0000_0000
  {
    DigitsAreBigEndian(s, n);
    FromBigEndianBound(Digits(s, n));
    PowMonotone(n, 7);
    Pow256Values();
  }

  lemma {:induction false} PowMonotone(m: nat, n: nat)
    requires m <= n
    ensures Pow256(m) <= Pow256(n)
  {
    if m < n {
      PowMonotone(m, n - 1);
    }
  }

  /** Appends the encoding of `value` to `buf` with casts, shifts and tag masks. */
  method WriteVarint(buf: seq<byte>, value: u64) returns (out: seq<byte>)
    ensures out == buf + Encode(value)
  {
    var v := ToWord(value);
    if value < 64 {
      OneByteForm(v, value);
      out := buf + [Nat8(ByteAt(v, 0))];
    } else if value < 16384 {
      TwoByteForm(v, value);
      out := buf + [Nat8(0x40 | ByteAt(v, 8)), Nat8(ByteAt(v, 0))];
    } else if value < 1073741824 {
      FourByteForm(v, value);
      out := buf + [Nat8(0x80 | ByteAt(v, 24)), Nat8(ByteAt(v, 16)), Nat8(ByteAt(v, 8)), Nat8(ByteAt(v, 0))];
    } else {
      EightByteForm(v, value);
      out := buf + [Nat8(0xC0 | ByteAt(v, 56)), Nat8(ByteAt(v, 48)), Nat8(ByteAt(v, 40)), Nat8(ByteAt(v, 32)),
                    Nat8(ByteAt(v, 24)), Nat8(ByteAt(v, 16)), Nat8(ByteAt(v, 8)), Nat8(ByteAt(v, 0))];
    }
  }

  lemma OneByteForm(v: bv64, value: u64)
    requires Nat64(v) == value < 64
    ensures Encode(value) == [Nat8(ByteAt(v, 0))]
  {
    BytesOfWord(v);
    OneDigit(value, WordBytes(v));
  }

  lemma TwoByteForm(v: bv64, value: u64)
    requires 64 <= Nat64(v) == value < 16384
    ensures Encode(value) == [Nat8(0x40 | ByteAt(v, 8)), Nat8(ByteAt(v, 0))]
  {
    BytesOfWord(v);
    TwoDigits(value, WordBytes(v));
    SetTagBit(ByteAt(v, 8));
  }

  lemma FourByteForm(v: bv64, value: u64)
    requires 16384 <= Nat64(v) == value < 1073741824
    ensures Encode(value)
         == [Nat8(0x80 | ByteAt(v, 24)), Nat8(ByteAt(v, 16)), Nat8(ByteAt(v, 8)), Nat8(ByteAt(v, 0))]
  {
    BytesOfWord(v);
    FourDigits(value, WordBytes(v));
    SetTagBit(ByteAt(v, 24));
  }

  lemma EightByteForm(v: bv64, value: u64)
    requires 1073741824 <= Nat64(v) == value
    ensures Encode(value)
         == [Nat8(0xC0 | ByteAt(v, 56)), Nat8(ByteAt(v, 48)), Nat8(ByteAt(v, 40)), Nat8(ByteAt(v, 32)),
             Nat8(ByteAt(v, 24)), Nat8(ByteAt(v, 16)), Nat8(ByteAt(v, 8)), Nat8(ByteAt(v, 0))]
  {
    BytesOfWord(v);
    EncodingDigits(value, WordBytes(v), 8);
    SetBothTagBits(ByteAt(v, 56));
  }

  lemma OneDigit(value: u64, s: seq<byte>)
    requires value < 64 && s == BigEndian(value, 8)
    ensures Encode(value) == [s[7]]
  {
    EncodingDigits(value, s, 1);
  }

  lemma TwoDigits(value: u64, s: seq<byte>)
    requires 64 <= value < 16384 && s == BigEndian(value, 8)
    ensures s[6] < 64 && Encode(value) == [64 + s[6], s[7]]
  {
    EncodingDigits(value, s, 2);
    assert s[6] % 64 == s[6] && s[7..] == [s[7]];
  }

  lemma FourDigits(value: u64, s: seq<byte>)
    requires 16384 <= value < 1073741824 && s == BigEndian(value, 8)
    ensures s[4] < 64 && Encode(value) == [128 + s[4], s[5], s[6], s[7]]
  {
    EncodingDigits(value, s, 4);
  }

  /** The encoding of a number, from the eight bytes of its word. */
  lemma EncodingDigits(value: u64, s: seq<byte>, n: nat)
    requires n == Size(value) && s == BigEndian(value, 8)
    ensures Encode(value) == [64 * Tag(n) + s[8 - n] % 64] + s[9 - n..]
    ensures n < 8 ==> s[8 - n] < 64
  {
    EncodedDigits(value);
    if n == 8 {
      MaskedDigits(value);
    } else {
      assert value % Capacity(n) == value;
      BigEndianTail(value, n, 8);
    }
  }

  /** Reducing modulo 2^62 clears the top two bits of the first byte and keeps the rest. */
  lemma MaskedDigits(value: u64)
    ensures BigEndian(value % VARINT_BOUND, 8) == [BigEndian(value, 8)[0] % 64] + BigEndian(value, 8)[1..]
  {
    var s := BigEndian(value, 8);
    var t := [s[0] % 64] + s[1..];
    Pow256Values();
    DecodeBigEndian(value, 8);
    LeadingByteOf(s);
    LeadingByteOf(t);
    FromBigEndianBound(s[1..]);
    MaskNumber(s[0], FromBigEndian(s[1..]));
    EncodeFromBigEndian(t);
  }

  lemma LeadingByteOf(s: seq<byte>)
    requires |s| == 8
    ensures FromBigEndian(s) == s[0] * 0x100_0000_0000_0000 + FromBigEndian(s[1..])
  {
    SplitLeadingByte(s);
    Pow256Values();
  }

  lemma MaskNumber(first: byte, rest: nat)
    requires rest < 0x100_0000_0000_0000
    ensures (first * 0x100_0000_0000_0000 + rest) % VARINT_BOUND == (first % 64) * 0x100_0000_0000_0000 + rest
  {
    var low := (first % 64) * 0x100_0000_0000_0000 + rest;
    assert first * 0x100_0000_0000_0000 + rest == (first / 64) * VARINT_BOUND + low;
  }
}
