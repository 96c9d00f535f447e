/** Bytes, little-endian integers and alignment, as the FlatBuffers runtime uses them. */
module FlatBytes {

  type byte = x: int | 0 <= x < 256

  const U16: int := 0x1_0000
  const U32: int := 0x1_0000_0000

  function Zeros(n: nat): (z: seq<byte>)
    ensures |z| == n
  {
    seq(n, _ => 0)
  }

  function Le16(v: int): (b: seq<byte>)
    requires 0 <= v < U16
    ensures |b| == 2
  {
    [v % 256, v / 256]
  }

  function Le32(v: int): (b: seq<byte>)
    requires 0 <= v < U32
    ensures |b| == 4
  {
    Le16(v % U16) + Le16(v / U16)
  }

  function U16At(b: seq<byte>, i: nat): (v: int)
    requires i + 2 <= |b|
    ensures 0 <= v < U16
  {
    b[i] as int + 256 * b[i + 1] as int
  }

  function U32At(b: seq<byte>, i: nat): (v: int)
    requires i + 4 <= |b|
    ensures 0 <= v < U32
  {
    U16At(b, i) + U16 * U16At(b, i + 2)
  }

  lemma ReadLe16(b: seq<byte>, i: nat, v: int)
    requires 0 <= v < U16 && i + 2 <= |b| && b[i..i + 2] == Le16(v)
    ensures U16At(b, i) == v
  {
  }

  lemma ReadLe32(b: seq<byte>, i: nat, v: int)
    requires 0 <= v < U32 && i + 4 <= |b| && b[i..i + 4] == Le32(v)
    ensures U32At(b, i) == v
  {
  }

  /** Two windows with the same bytes hold the same integers. */
  lemma SameWindow(b: seq<byte>, i: nat, c: seq<byte>, j: nat, n: nat, k: nat)
    requires i + n <= |b| && j + n <= |c| && b[i..i + n] == c[j..j + n]
    ensures k + 2 <= n ==> U16At(b, i + k) == U16At(c, j + k)
    ensures k + 4 <= n ==> U32At(b, i + k) == U32At(c, j + k)
  {
    if k + 2 <= n {
      var s, t := b[i..i + n], c[j..j + n];
      assert s[k] == t[k] && s[k + 1] == t[k + 1];
      if k + 4 <= n { assert s[k + 2] == t[k + 2] && s[k + 3] == t[k + 3]; }
    }
  }

  // ---------------------------------------------------------------- alignment

  predicate IsPow2(a: int)
  {
    a == 1 || (a > 1 && a % 2 == 0 && IsPow2(a / 2))
  }

  function Max(a: int, b: int): (m: int)
    ensures m >= a && m >= b && (m == a || m == b)
  {
    if a < b then b else a
  }

  lemma MultipleOf(x: int, a: int, k: int)
    requires a > 0 && x == a * k
    ensures x % a == 0
  {
    var q := x / a;
    assert x % a == a * (k - q) by { assert x == a * q + x % a; }
    NoSmallMultiple(a, k - q);
  }

  lemma NoSmallMultiple(a: int, d: int)
    requires a > 0 && 0 <= a * d < a
    ensures d == 0
  {
  }

  /** Of two powers of two the smaller divides the larger. */
  lemma {:induction false} Pow2Divides(a: int, b: int)
    requires IsPow2(a) && IsPow2(b) && a <= b
    ensures b % a == 0
    decreases b
  {
    if a == 1 {
    } else {
      Pow2Divides(a / 2, b / 2);
      var k := (b / 2) / (a / 2);
      assert b / 2 == (a / 2) * k;
      MulAssociates(2, a / 2, k);
      assert b == a * k;
      MultipleOf(b, a, k);
    }
  }

  lemma MulAssociates(a: int, k: int, m: int)
    ensures (a * k) * m == a * (k * m)
  {
  }

  /** Alignment to a larger power of two is alignment to a smaller one. */
  lemma AlignedToLess(x: int, a: int, b: int)
    requires IsPow2(a) && IsPow2(b) && a <= b && x % b == 0
    ensures x % a == 0
  {
    Pow2Divides(a, b);
    var k, m := b / a, x / b;
    assert b == a * k && x == b * m;
    MulAssociates(a, k, m);
    MultipleOf(x, a, k * m);
  }

  lemma SumAligned(x: int, y: int, a: int)
    requires a > 0 && x % a == 0 && y % a == 0
    ensures (x + y) % a == 0 && (x - y) % a == 0
  {
    var p, q := x / a, y / a;
    assert x == a * p && y == a * q;
    MultipleOf(x + y, a, p + q);
    MultipleOf(x - y, a, p - q);
  }

  /** Padding by the remainder makes an address aligned: `front_pad` and `back_pad`. */
  lemma PadAligns(x: int, a: int)
    requires a > 0
    ensures (x - x % a) % a == 0
  {
    MultipleOf(x - x % a, a, x / a);
  }

  function AlignDown(x: int, a: int): int
    requires a > 0
  {
    x - x % a
  }

  /** The greatest multiple of the alignment that is not above `x`. */
  lemma AlignDownIsGreatest(x: int, a: int, y: int)
    requires a > 0 && y % a == 0
    ensures AlignDown(x, a) % a == 0 && x - a < AlignDown(x, a) <= x
    ensures y <= x ==> y <= AlignDown(x, a)
  {
    PadAligns(x, a);
    var d := y / a - x / a;
    assert y == a * (y / a) && AlignDown(x, a) == a * (x / a);
    assert y - AlignDown(x, a) == a * d;
    if d >= 1 { MulAtLeast(a, d); }
    if d <= 0 { MulAtMost(a, d); }
  }

  lemma MulAtLeast(a: int, d: int)
    requires a > 0 && d >= 1
    ensures a * d >= a
  {
  }

  lemma MulAtMost(a: int, d: int)
    requires a > 0 && d <= 0
    ensures a * d <= 0
  {
  }

  lemma SmallPowers()
    ensures IsPow2(1) && IsPow2(2) && IsPow2(4) && IsPow2(8) && IsPow2(256)
  {
  }

  /** Reducing an address modulo 2^32 does not change its alignment. */
  lemma WrapKeepsAlignment(x: int, a: int)
    requires IsPow2(a) && a <= 256
    ensures x % U32 % a == 0 <==> x % a == 0
  {
    SmallPowers();
    var w := U32 * (x / U32);
    MultipleOf(w, 256, 16777216 * (x / U32));
    AlignedToLess(w, a, 256);
    assert x == w + x % U32;
    if x % U32 % a == 0 { SumAligned(w, x % U32, a); }
    if x % a == 0 { SumAligned(x, w, a); }
  }
}
