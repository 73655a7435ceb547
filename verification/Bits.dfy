/**
  Machine words as bit vectors, tied to the numbers they denote. The varint code works with
  shifts and masks; these lemmas say what each shift and mask does to the number.
 */
module Bits {
  import opened Bytes

  function Bit(isSet: bool, weight: nat): nat {
    if isSet then weight else 0
  }

  /** The number that the low `k` bits of `x` denote. */
  function NatBits(x: bv8, k: nat): nat {
    if k == 0 then 0 else Bit(x & 1 != 0, 1) + 2 * NatBits(x >> 1, k - 1)
  }

  /** The number an 8-bit word denotes. */
  function Nat8(x: bv8): byte {
    BitsBound(x, 8);
    NatBits(x, 8)
  }

  function Pow2(k: nat): nat {
    if k == 0 then 1 else 2 * Pow2(k - 1)
  }

  lemma {:induction false} BitsBound(x: bv8, k: nat)
    ensures NatBits(x, k) < Pow2(k)
    ensures Pow2(8) == 256
  {
    if k == 0 {
    } else {
      BitsBound(x >> 1, k - 1);
    }
    assert Pow2(4) == 16;
  }

  lemma LowNibble(x: bv8, k: nat)
    requires k >= 4
    ensures NatBits(x, k)
         == Bit(x & 1 != 0, 1) + Bit(x & 2 != 0, 2) + Bit(x & 4 != 0, 4) + Bit(x & 8 != 0, 8)
            + 16 * NatBits(x >> 4, k - 4)
  {
    assert NatBits(x, k) == Bit(x & 1 != 0, 1) + 2 * NatBits(x >> 1, k - 1);
    assert NatBits(x >> 1, k - 1) == Bit(x & 2 != 0, 1) + 2 * NatBits(x >> 2, k - 2);
    assert NatBits(x >> 2, k - 2) == Bit(x & 4 != 0, 1) + 2 * NatBits(x >> 3, k - 3);
    assert NatBits(x >> 3, k - 3) == Bit(x & 8 != 0, 1) + 2 * NatBits(x >> 4, k - 4);
  }

  /** The weights of the eight bits. */
  lemma Unfold(x: bv8)
    ensures Nat8(x)
         == Bit(x & 1 != 0, 1) + Bit(x & 2 != 0, 2) + Bit(x & 4 != 0, 4) + Bit(x & 8 != 0, 8)
            + Bit(x & 16 != 0, 16) + Bit(x & 32 != 0, 32) + Bit(x & 64 != 0, 64) + Bit(x & 128 != 0, 128)
  {
    LowNibble(x, 8);
    LowNibble(x >> 4, 4);
  }

  /** The low eight bits of `v` shifted right by `k`: the cast `(v >> k) as u8`. */
  function ByteAt(v: bv64, k: bv7): bv8
    requires k < 64
  {
    ((v >> k) & 0xFF) as bv8
  }

  /** The eight bytes of a 64-bit word, most significant first. */
  function WordBytes(v: bv64): (s: seq<byte>)
    ensures |s| == 8
  {
    [Nat8(ByteAt(v, 56)), Nat8(ByteAt(v, 48)), Nat8(ByteAt(v, 40)), Nat8(ByteAt(v, 32)),
     Nat8(ByteAt(v, 24)), Nat8(ByteAt(v, 16)), Nat8(ByteAt(v, 8)), Nat8(ByteAt(v, 0))]
  }

  /** The number a 64-bit word denotes. */
  function Nat64(v: bv64): u64 {
    FromBigEndianBound(WordBytes(v));
    Pow256Values();
    FromBigEndian(WordBytes(v))
  }

  lemma DoubleWord(x: bv8, odd: bool)
    requires Nat8(x) < 128
    ensures Nat8(if odd then (x << 1) | 1 else x << 1) == 2 * Nat8(x) + (if odd then 1 else 0)
  {
    Unfold(x);
    Unfold(if odd then (x << 1) | 1 else x << 1);
  }

  /** The 8-bit word of a number. */
  method ToByte(n: byte) returns (x: bv8)
    ensures Nat8(x) == n
  {
    if n == 0 {
      return 0;
    }
    var half := ToByte(n / 2);
    DoubleWord(half, n % 2 == 1);
    x := if n % 2 == 1 then (half << 1) | 1 else half << 1;
  }

  /** The low six bits of a byte. */
  lemma LowBits(x: bv8)
    ensures Nat8(x & 0x3F) == Nat8(x) % 64
  {
    Unfold(x);
    Unfold(x & 0x3F);
  }

  /** Setting a tag bit on a byte whose tag bits are clear adds its weight. */
  lemma SetTagBit(x: bv8)
    requires Nat8(x) < 64
    ensures Nat8(0x40 | x) == 64 + Nat8(x)
    ensures Nat8(0x80 | x) == 128 + Nat8(x)
  {
    Unfold(x);
    assert Nat8(0x40 | x) == 64 + Nat8(x) by {
      Unfold(0x40 | x);
    }
    Unfold(0x80 | x);
  }

  /** Setting both tag bits overwrites them. */
  lemma SetBothTagBits(x: bv8)
    ensures Nat8(0xC0 | x) == 192 + Nat8(x) % 64
  {
    var low := x & 0x3F;
    LowBits(x);
    assert 0xC0 | x == 0xC0 | low;
    Unfold(low);
    Unfold(0xC0 | low);
  }

  lemma ShiftIn(v: bv64, b: bv8)
    requires ByteAt(v, 56) == 0
    ensures var w := (v << 8) | (b as bv64);
            && ByteAt(w, 0) == b && ByteAt(w, 8) == ByteAt(v, 0) && ByteAt(w, 16) == ByteAt(v, 8)
            && ByteAt(w, 24) == ByteAt(v, 16) && ByteAt(w, 32) == ByteAt(v, 24) && ByteAt(w, 40) == ByteAt(v, 32)
            && ByteAt(w, 48) == ByteAt(v, 40) && ByteAt(w, 56) == ByteAt(v, 48)
  {
  }

  lemma ZeroByte(x: bv8)
    requires Nat8(x) == 0
    ensures x == 0
  {
    Unfold(x);
  }

  /** `(v << 8) | b` multiplies by 256 and adds, as long as no bit is shifted out. */
  lemma Accumulate(v: bv64, b: bv8)
    requires Nat64(v) < 0x100_0000_0000_0000
    ensures Nat64((v << 8) | (b as bv64)) == Nat64(v) * 256 + Nat8(b)
  {
    var before, after := WordBytes(v), WordBytes((v << 8) | (b as bv64));
    assert before[0] == 0 by {
      Pow256Values();
      LeadingByte(Nat64(v), 8, 1);
      EncodeFromBigEndian(before);
    }
    ZeroByte(ByteAt(v, 56));
    ShiftIn(v, b);
    assert before == [0] + before[1..];
    assert after[..7] == before[1..];
    FromBigEndianLeadingZero(before[1..]);
  }

  /** Widening a byte to a word keeps the number. */
  lemma WidenByte(b: bv8)
    ensures Nat64(b as bv64) == Nat8(b)
  {
    ZeroWord();
    Accumulate(0, b);
    assert ((0 as bv64) << 8) | (b as bv64) == b as bv64;
  }

  lemma ZeroWord()
    ensures Nat64(0) == 0
  {
    assert ByteAt(0, 0) == ByteAt(0, 8) == ByteAt(0, 16) == ByteAt(0, 24) == 0;
    assert ByteAt(0, 32) == ByteAt(0, 40) == ByteAt(0, 48) == ByteAt(0, 56) == 0;
    assert WordBytes(0) == BigEndian(0, 8) by {
      ZeroBytes(8);
    }
    Pow256Values();
    DecodeBigEndian(0, 8);
  }

  lemma {:induction false} ZeroBytes(n: nat)
    ensures forall i :: 0 <= i < n ==> BigEndian(0, n)[i] == 0
  {
    if n == 0 {
    } else {
      ZeroBytes(n - 1);
    }
  }

  /** The 64-bit word of a number. */
  method ToWord(n: u64) returns (v: bv64)
    ensures Nat64(v) == n
  {
    if n == 0 {
      ZeroWord();
      return 0;
    }
    var high := ToWord(n / 256);
    var low := ToByte(n % 256);
    Accumulate(high, low);
    v := (high << 8) | (low as bv64);
  }

  /** The bytes of a word, that is the casts `(v >> 8k) as u8`, are the big-endian encoding of its number. */
  lemma BytesOfWord(v: bv64)
    ensures WordBytes(v) == BigEndian(Nat64(v), 8)
  {
    EncodeFromBigEndian(WordBytes(v));
  }
}
