/** Machine integers and the big-endian byte strings that every codec here is built from. */
module Bytes {
  const TWO_TO_32: nat := 0x1_0000_0000
  const TWO_TO_64: nat := 0x1_0000_0000_0000_0000

  type byte = x: int | 0 <= x < 256
  type u32 = x: int | 0 <= x < TWO_TO_32
  type u64 = x: int | 0 <= x < TWO_TO_64

  /** The outcome of an operation that can fail. */
  datatype Result<+T, +E> = Ok(value: T) | Err(error: E)

  datatype Option<+T> = None | Some(value: T)

  function Pow256(n: nat): (p: nat)
    ensures p > 0
  {
    if n == 0 then 1 else 256 * Pow256(n - 1)
  }

  lemma Pow256Values()
    ensures Pow256(0) == 1 && Pow256(1) == 256 && Pow256(2) == 0x1_0000 && Pow256(3) == 0x100_0000
    ensures Pow256(4) == TWO_TO_32 && Pow256(7) == 0x100_0000_0000_0000 && Pow256(8) == TWO_TO_64
  {
    assert Pow256(5) == 0x100_0000_0000 && Pow256(6) == 0x1_0000_0000_0000;
  }

  /** The low `n` bytes of `v`, most significant first. */
  function BigEndian(v: nat, n: nat): (s: seq<byte>)
    ensures |s| == n
  {
    if n == 0 then [] else BigEndian(v / 256, n - 1) + [v % 256]
  }

  /** The number that a byte string denotes, most significant byte first. */
  function FromBigEndian(s: seq<byte>): nat {
    if s == [] then 0 else FromBigEndian(s[..|s| - 1]) * 256 + s[|s| - 1]
  }

  lemma {:induction false} FromBigEndianBound(s: seq<byte>)
    ensures FromBigEndian(s) < Pow256(|s|)
  {
    if s == [] {
    } else {
      FromBigEndianBound(s[..|s| - 1]);
    }
  }

  lemma {:induction false} DecodeBigEndian(v: nat, n: nat)
    requires v < Pow256(n)
    ensures FromBigEndian(BigEndian(v, n)) == v
  {
    if n == 0 {
    } else {
      var s, p := BigEndian(v / 256, n - 1), Pow256(n - 1);
      assert v < 256 * p;
      DecodeBigEndian(v / 256, n - 1);
      assert (s + [v % 256])[..n - 1] == s;
    }
  }

  lemma {:induction false} EncodeFromBigEndian(s: seq<byte>)
    ensures BigEndian(FromBigEndian(s), |s|) == s
  {
    if s == [] {
    } else {
      EncodeFromBigEndian(s[..|s| - 1]);
    }
  }

  lemma {:induction false} FromBigEndianLeadingZero(s: seq<byte>)
    ensures FromBigEndian([0] + s) == FromBigEndian(s)
  {
    if s == [] {
      assert [0] + s == [0];
    } else {
      FromBigEndianLeadingZero(s[..|s| - 1]);
      assert ([0] + s)[..|s|] == [0] + s[..|s| - 1];
    }
  }

  /** The shorter encoding is the tail of the longer one. */
  lemma {:induction false} BigEndianTail(v: nat, m: nat, n: nat)
    requires m <= n
    ensures BigEndian(v, n)[n - m..] == BigEndian(v, m)
  {
    if m == 0 {
    } else {
      BigEndianTail(v / 256, m - 1, n - 1);
    }
  }

  /** A number below `bound * 256^(n-1)` has a leading byte below `bound`. */
  lemma {:induction false} LeadingByte(v: nat, n: nat, bound: nat)
    requires n > 0 && v < bound * Pow256(n - 1)
    ensures BigEndian(v, n)[0] < bound
  {
    if n > 1 {
      var p := Pow256(n - 2);
      assert v / 256 < bound * p by {
        assert bound * Pow256(n - 1) == bound * (256 * p) == (bound * p) * 256;
      }
      LeadingByte(v / 256, n - 1, bound);
      assert BigEndian(v, n)[0] == BigEndian(v / 256, n - 1)[0];
    }
  }
}
