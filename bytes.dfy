/** Fixed-width machine integers and big-endian byte arithmetic used by the ILInt model.
    C#'s `byte`, `ulong` and `int` are subset types of Dafny's unbounded `int`; every place
    where the C# code relies on wrap-around says so explicitly. */
module Bytes {

  /** 2^64: the modulus of C# `ulong` arithmetic. */
  const U64: nat := 0x1_0000_0000_0000_0000

  type byte = b: int | 0 <= b < 0x100
  type u64 = x: int | 0 <= x < 0x1_0000_0000_0000_0000
  /** C# `int`. */
  type i32 = x: int | -0x8000_0000 <= x < 0x8000_0000

  const MinInt32: i32 := -0x8000_0000

  /** The value of `x` after truncation to 32-bit two's complement (unchecked C# `int` arithmetic). */
  function Wrap32(x: int): (r: i32)
    ensures -0x8000_0000 <= x < 0x8000_0000 ==> r == x
  {
    (x + 0x8000_0000) % 0x1_0000_0000 - 0x8000_0000
  }

  /** Truncation never increases a sum that is at least int.MinValue. */
  lemma Wrap32AtMost(x: int)
    requires x >= -0x8000_0000
    ensures Wrap32(x) <= x
  {
  }

  function Pow2(n: nat): (r: nat)
    ensures r > 0
  {
    if n == 0 then 1 else 2 * Pow2(n - 1)
  }

  function Pow256(n: nat): (r: nat)
    ensures r > 0
  {
    if n == 0 then 1 else 256 * Pow256(n - 1)
  }

  /** A shift by a whole number of bytes is a power of 256. */
  lemma {:induction false} Pow2Bytes(m: nat)
    ensures Pow2(8 * m) == Pow256(m)
  {
    if m > 0 {
      Pow2Bytes(m - 1);
      var k := 8 * (m - 1);
      assert Pow2(k + 8) == 256 * Pow2(k) by {
        assert Pow2(k + 8) == 2 * Pow2(k + 7) == 4 * Pow2(k + 6) == 8 * Pow2(k + 5) == 16 * Pow2(k + 4);
        assert Pow2(k + 4) == 2 * Pow2(k + 3) == 4 * Pow2(k + 2) == 8 * Pow2(k + 1) == 16 * Pow2(k);
      }
      assert 8 * m == k + 8;
    }
  }

  lemma {:induction false} Pow256Monotone(a: nat, b: nat)
    requires a <= b
    ensures Pow256(a) <= Pow256(b)
  {
    if a < b {
      Pow256Monotone(a, b - 1);
    }
  }

  /** Dividing twice is dividing by the product. */
  lemma DivDiv(x: nat, a: nat, b: nat)
    requires a > 0 && b > 0
    ensures x / a / b == x / (a * b)
  {
    var q := x / a / b;
    var r := x / a % b;
    var s := x % a;
    assert x / a == b * q + r;
    assert x == a * (x / a) + s;
    MulRegroup(a, b, q, r);
    MulBelow(a, b, r, s);
    DivUnique(x, a * b, q, a * r + s);
  }

  lemma MulRegroup(a: nat, b: nat, q: nat, r: nat)
    ensures a * (b * q + r) == (a * b) * q + a * r
  {
  }

  lemma MulBelow(a: nat, b: nat, r: nat, s: nat)
    requires r < b && s < a
    ensures a * r + s < a * b
  {
    assert a * r <= a * (b - 1);
  }

  lemma DivUnique(x: nat, d: nat, q: nat, r: nat)
    requires d > 0 && r < d && x == d * q + r
    ensures x / d == q
  {
    var q', r' := x / d, x % d;
    assert d * (q' - q) == r - r';
    if q' > q {
      MulAtLeast(d, q' - q);
    } else if q' < q {
      MulAtLeast(d, q - q');
    }
  }

  lemma MulAtLeast(d: nat, k: int)
    requires k >= 1
    ensures d * k >= d
  {
  }

  /** The unsigned number written by `s`, most significant byte first. */
  function BigEndian(s: seq<byte>): nat
    decreases |s|
  {
    if s == [] then 0 else BigEndian(s[..|s| - 1]) * 256 + s[|s| - 1]
  }

  /** The big-endian value of `s[i..j]`, accumulated by index; unlike BigEndian of a slice it
      evaluates directly on sequence displays, which makes concrete examples checkable. */
  function BigEndianRange(s: seq<byte>, i: nat, j: nat): nat
    requires i <= j <= |s|
    decreases j
  {
    if j == i then 0 else BigEndianRange(s, i, j - 1) * 256 + s[j - 1]
  }

  lemma {:induction false} BigEndianRangeIsSlice(s: seq<byte>, i: nat, j: nat)
    requires i <= j <= |s|
    ensures BigEndianRange(s, i, j) == BigEndian(s[i..j])
    decreases j
  {
    if j > i {
      BigEndianRangeIsSlice(s, i, j - 1);
      assert s[i..j][..j - i - 1] == s[i..j - 1];
    }
  }

  /** Appending one byte shifts the accumulated value left by eight bits. */
  lemma BigEndianSnoc(p: seq<byte>, b: byte)
    ensures BigEndian(p + [b]) == BigEndian(p) * 256 + b
  {
    assert (p + [b])[..|p|] == p;
  }

  /** `n` bytes of 0xFF are the largest `n`-byte value. */
  lemma {:induction false} BigEndianAllOnes(s: seq<byte>)
    requires forall i :: 0 <= i < |s| ==> s[i] == 0xFF
    ensures BigEndian(s) == Pow256(|s|) - 1
    decreases |s|
  {
    if s != [] {
      BigEndianAllOnes(s[..|s| - 1]);
    }
  }

  /** `n` bytes always hold a value below 256^n, so shifting them in never drops a bit. */
  lemma {:induction false} BigEndianBound(s: seq<byte>)
    ensures BigEndian(s) < Pow256(|s|)
    decreases |s|
  {
    if s != [] {
      BigEndianBound(s[..|s| - 1]);
    }
  }

  /** 256^8 is the `ulong` modulus. */
  lemma Pow256Eight()
    ensures Pow256(8) == U64
  {
    assert Pow256(4) == 0x1_0000_0000;
  }

  /** The big-endian value of at most eight bytes, as the `ulong` that holds it. */
  function Accumulated(p: seq<byte>): (r: u64)
    requires |p| <= 8
    ensures r == BigEndian(p)
  {
    BigEndianBound(p);
    Pow256Monotone(|p|, 8);
    Pow256Eight();
    BigEndian(p)
  }

  /** `(acc << 8) + b` on a `ulong`: the bits shifted out past bit 63 are lost. */
  function ShiftIn(acc: u64, b: byte): u64
  {
    (acc * 256 + b) % U64
  }

  /** On an accumulator holding fewer than eight bytes the shift drops no bit: it is the
      big-endian value with `b` appended. */
  lemma ShiftInByte(p: seq<byte>, b: byte)
    requires |p| < 8
    ensures ShiftIn(Accumulated(p), b) == Accumulated(p + [b])
  {
    var x := BigEndian(p + [b]);
    BigEndianSnoc(p, b);
    BigEndianBound(p + [b]);
    Pow256Monotone(|p| + 1, 8);
    Pow256Eight();
    ModBelow(x, U64);
  }

  lemma ModBelow(x: nat, m: nat)
    requires x < m
    ensures x % m == x
  {
  }

  /** The `n`-byte big-endian representation of `x` modulo 256^n. */
  function BigEndianBytes(x: nat, n: nat): (r: seq<byte>)
    ensures |r| == n
  {
    if n == 0 then [] else BigEndianBytes(x / 256, n - 1) + [x % 256]
  }

  lemma {:induction false} BigEndianBytesRoundTrip(x: nat, n: nat)
    requires x < Pow256(n)
    ensures BigEndian(BigEndianBytes(x, n)) == x
  {
    if n > 0 {
      BigEndianBytesRoundTrip(x / 256, n - 1);
      BigEndianSnoc(BigEndianBytes(x / 256, n - 1), x % 256);
    }
  }

  /** Byte `j` of the representation is `(x >> 8*(n-1-j)) & 0xFF`. */
  lemma {:induction false} BigEndianBytesAt(x: nat, n: nat, j: nat)
    requires j < n
    ensures BigEndianBytes(x, n)[j] == x / Pow256(n - 1 - j) % 256
  {
    if j < n - 1 {
      BigEndianBytesAt(x / 256, n - 1, j);
      DivDiv(x, 256, Pow256(n - 2 - j));
    }
  }

  /** Reading bytes back and writing them again in the same width gives the same bytes. */
  lemma {:induction false} BigEndianBytesOfBigEndian(s: seq<byte>)
    ensures BigEndianBytes(BigEndian(s), |s|) == s
    decreases |s|
  {
    if s != [] {
      var p := s[..|s| - 1];
      var b := s[|s| - 1];
      BigEndianBytesOfBigEndian(p);
      assert BigEndian(s) / 256 == BigEndian(p);
      assert BigEndian(s) % 256 == b;
      assert s == p + [b];
    }
  }
}
