/** 128- and 256-bit decimals: two's complement in an array of 64-bit words, read from and written as
    decimal text through base 2^32 and base 10^9. */
module Decimals {
  import opened Numerals

  const B32: nat := 0x1_0000_0000
  const B64: nat := 0x1_0000_0000_0000_0000
  const E9: nat := 1_000_000_000

  type u32 = x: int | 0 <= x < 0x1_0000_0000
  type u64 = x: int | 0 <= x < 0x1_0000_0000_0000_0000

  // ------------------------------------------------------------------- two's complement

  /** The signed number that `n` words stand for. */
  function SignedOf(v: int, n: nat): int
  {
    if 2 * v < Pow(B64, n) then v else v - Pow(B64, n)
  }

  /** A signed number modulo the range of `n` words. */
  function Wrapped(v: int, n: nat): (w: int)
    ensures 0 <= w < Pow(B64, n)
  {
    v % Pow(B64, n)
  }

  /** Within the signed range wrapping loses nothing. */
  lemma SignedOfWrapped(v: int, n: nat)
    requires -2 * v <= Pow(B64, n) && 2 * v < Pow(B64, n)
    ensures SignedOf(Wrapped(v, n), n) == v
  {
    var m := Pow(B64, n);
    if v >= 0 {
      SmallMod(v, m);
    } else {
      SmallMod(v + m, m);
      ModShift(v, m);
    }
  }

  lemma SmallMod(v: int, m: int)
    requires 0 <= v < m
    ensures v % m == v
  {
  }

  lemma ModShift(v: int, m: int)
    requires m > 0
    ensures (v + m) % m == v % m
  {
    ModUnique(v + m, v % m, v / m + 1, m) by { assert v == m * (v / m) + v % m; }
  }

  lemma ModUnique(x: int, r: int, q: int, m: int)
    requires 0 <= r < m && x == m * q + r
    ensures x % m == r
  {
    LowDigit(x % m, x / m, r, q, m);
  }

  /** Reducing before scaling and adding does not change the remainder. */
  lemma ModScaled(x: int, k: int, c: int, m: int)
    requires m > 0
    ensures ((x % m) * k + c) % m == (x * k + c) % m
  {
    var q, r := x / m, x % m;
    assert x * k + c == m * (q * k) + (r * k + c) by { ScaleSplit(q, r, k, m); }
    var p := (r * k + c) / m;
    assert r * k + c == m * p + (r * k + c) % m;
    ModUnique(x * k + c, (r * k + c) % m, q * k + p, m) by { Factor(m, q * k, p); }
  }

  lemma ScaleSplit(q: int, r: int, k: int, m: int)
    ensures (m * q + r) * k == m * (q * k) + r * k
  {
  }

  lemma Factor(m: int, a: int, b: int)
    ensures m * (a + b) == m * a + m * b
  {
  }

  // -------------------------------------------------------------------------- negation

  /** One word of a negation: `c` is the carry before, `d` the one after. */
  function Negated(x: int, c: int): (e: int)
    requires 0 <= x < B64 && 0 <= c <= 1
    ensures 0 <= e < B64
  {
    (B64 - 1 - x + c) % B64
  }

  function CarryAfter(e: int, c: int): (d: int)
    requires 0 <= c <= 1
    ensures 0 <= d <= 1
  {
    if c == 1 && e == 0 then 1 else 0
  }

  /** `done` is the negation of `was` so far. */
  ghost predicate PartlyNegated(was: seq<int>, done: seq<int>, c: int)
  {
    |done| == |was| && Value(done, B64) + c * Pow(B64, |was|) == Pow(B64, |was|) - Value(was, B64)
  }

  lemma NegateNext(was: seq<int>, done: seq<int>, x: int, c: int)
    requires PartlyNegated(was, done, c) && 0 <= x < B64 && 0 <= c <= 1
    ensures PartlyNegated(was + [x], done + [Negated(x, c)], CarryAfter(Negated(x, c), c))
  {
    var e := Negated(x, c);
    var d := CarryAfter(e, c);
    var p := Pow(B64, |was|);
    ValueAppend(was, x, B64);
    ValueAppend(done, e, B64);
    assert e + B64 * d == B64 - 1 - x + c;
    NegateSum(Value(was, B64), Value(done, B64), p, x, e, c, d);
  }

  lemma NegateSum(v: int, w: int, p: int, x: int, e: int, c: int, d: int)
    requires w + c * p == p - v && e + B64 * d == B64 - 1 - x + c
    ensures w + p * e + d * (B64 * p) == B64 * p - (v + p * x)
  {
  }

  /** The whole word array negated: its value is the complement modulo 2^(64 n). */
  lemma NegatedValue(was: seq<int>, done: seq<int>, c: int)
    requires PartlyNegated(was, done, c) && 0 <= c <= 1 && Words(was, B64) && Words(done, B64)
    ensures Value(done, B64) == Wrapped(-Value(was, B64), |was|)
  {
    hide Value, Pow;
    ValueBound(was, B64);
    ValueBound(done, B64);
    NegatedModulo(Value(was, B64), Value(done, B64), c, Pow(B64, |was|));
  }

  lemma NegatedModulo(v: int, w: int, c: int, m: int)
    requires 0 <= v < m && 0 <= w < m && 0 <= c <= 1 && w + c * m == m - v
    ensures w == -v % m
  {
    if c == 1 {
      assert v == 0 && w == 0;
      SmallMod(0, m);
    } else {
      ModShift(-v, m);
      SmallMod(w, m);
    }
  }

  // --------------------------------------------------------------------- scale and add

  /** The first `i` words of `done` and the carry are those of `was`, times `k`, plus `c0`. */
  ghost predicate PartlyScaled(was: seq<int>, done: seq<int>, k: int, c0: int, carry: int)
  {
    |done| == |was| && Value(done, B32) + Pow(B32, |was|) * carry == Value(was, B32) * k + c0
  }

  lemma ScaleNext(was: seq<int>, done: seq<int>, k: int, c0: int, carry: int, x: int)
    requires PartlyScaled(was, done, k, c0, carry)
    ensures PartlyScaled(was + [x], done + [(x * k + carry) % B32], k, c0, (x * k + carry) / B32)
  {
    var t := x * k + carry;
    ValueAppend(was, x, B32);
    ValueAppend(done, t % B32, B32);
    ScaleSum(Value(was, B32), Value(done, B32), Pow(B32, |was|), x, k, c0, carry, t % B32, t / B32);
  }

  lemma ScaleSum(v: int, w: int, p: int, x: int, k: int, c0: int, carry: int, lo: int, hi: int)
    requires w + p * carry == v * k + c0 && x * k + carry == lo + B32 * hi
    ensures (w + p * lo) + (B32 * p) * hi == (v + p * x) * k + c0
  {
  }

  /** No intermediate result exceeds 64 bits and no carry 32. */
  lemma ScaleFits(x: int, k: int, carry: int)
    requires 0 <= x < B32 && 0 <= k <= E9 && 0 <= carry < B32
    ensures 0 <= x * k + carry < B64 && 0 <= (x * k + carry) / B32 <= E9
  {
    Grows(x, k, E9);
    Grows(E9, x, B32 - 1);
  }

  lemma ScaledValue(was: seq<int>, done: seq<int>, k: int, c0: int, carry: int)
    requires PartlyScaled(was, done, k, c0, carry) && Words(done, B32)
    ensures Value(done, B32) == (Value(was, B32) * k + c0) % Pow(B32, |was|)
  {
    ValueBound(done, B32);
    ModUnique(Value(was, B32) * k + c0, Value(done, B32), carry, Pow(B32, |was|));
  }

  /** Multiplies the first `n` words by `multiple` and adds `addend`, modulo their range. */
  method MultiplyAdd(out: array<u32>, n: nat, multiple: int, addend: int)
    requires n <= out.Length && 0 <= multiple <= E9 && 0 <= addend < E9
    modifies out
    ensures Value(out[..n], B32) == (Value(old(out[..n]), B32) * multiple + addend) % Pow(B32, n)
    ensures out[n..] == old(out[n..])
  {
    hide Pow, Value, PartlyScaled;
    var chunk := addend;
    var i := 0;
    assert PartlyScaled(out[..0], out[..0], multiple, addend, addend) by { NothingScaled(multiple, addend); }
    while i < n
      invariant 0 <= i <= n && 0 <= chunk < B32 && forall j | i <= j < out.Length :: out[j] == old(out[j])
      invariant PartlyScaled(old(out[..i]), out[..i], multiple, addend, chunk)
    {
      ghost var was, done, x := old(out[..i]), out[..i], out[i];
      ScaleNext(was, done, multiple, addend, chunk, x);
      ScaleFits(x, multiple, chunk);
      var tmp: u64 := out[i] * multiple + chunk;
      out[i] := tmp % B32;
      chunk := tmp / B32;
      assert old(out[..i + 1]) == was + [x] && out[..i + 1] == done + [tmp % B32];
      i := i + 1;
    }
    ScaledValue(old(out[..n]), out[..n], multiple, addend, chunk);
  }

  lemma NothingScaled(k: int, c0: int)
    ensures PartlyScaled([], [], k, c0, c0)
  {
  }

  /** Appends decimal digits to the number in the first `n` words, nine at a time. */
  method ShiftAndAdd(value: string, out: array<u32>, n: nat)
    requires AllDigits(value) && n <= out.Length && Value(out[..n], B32) == 0
    modifies out
    ensures Value(out[..n], B32) == Number(value) % Pow(B32, n)
  {
    hide Pow, Value, Number;
    var posn := 0;
    NoDigits(n);
    while posn < |value|
      invariant 0 <= posn <= |value| && Value(out[..n], B32) == Number(value[..posn]) % Pow(B32, n)
    {
      var group := if |value| - posn > 9 then 9 else |value| - posn;
      var digits := value[posn..posn + group];
      GroupValue(value, posn, group, n);
      MultiplyAdd(out, n, Pow(10, group), Number(digits));
      posn := posn + group;
    }
    assert value[..posn] == value;
  }

  lemma NoDigits(n: nat)
    ensures Number(""[..0]) % Pow(B32, n) == 0
  {
    SmallMod(0, Pow(B32, n));
  }

  lemma GroupValue(value: string, posn: nat, group: nat, n: nat)
    requires AllDigits(value) && 0 < group <= 9 && posn + group <= |value|
    ensures 0 < Pow(10, group) <= E9 && Number(value[posn..posn + group]) < Pow(10, group)
    ensures Number(value[..posn + group]) % Pow(B32, n)
         == (Number(value[..posn]) % Pow(B32, n) * Pow(10, group) + Number(value[posn..posn + group])) % Pow(B32, n)
  {
    hide Number;
    var a, b := value[..posn], value[posn..posn + group];
    assert value[..posn + group] == a + b;
    NumberAppend(a, b);
    NumberBound(b);
    PowersOfTen(group);
    ModScaled(Number(a), Pow(10, group), Number(b), Pow(B32, n));
  }

  lemma PowersOfTen(k: nat)
    requires k <= 9
    ensures 0 < Pow(10, k) <= E9 && Pow(10, 9) == E9
  {
    assert Pow(10, 0) == 1;
    assert Pow(10, 1) == 10;
    assert Pow(10, 2) == 100;
    assert Pow(10, 3) == 1000;
    assert Pow(10, 4) == 10000;
    assert Pow(10, 5) == 100000;
    assert Pow(10, 6) == 1000000;
    assert Pow(10, 7) == 10000000;
    assert Pow(10, 8) == 100000000;
    assert Pow(10, 9) == E9;
  }

  // ------------------------------------------------------------------------ the text

  function SignLength(text: string): nat
    requires |text| > 0
    ensures SignLength(text) <= 1
  {
    if text[0] == '-' || text[0] == '+' then 1 else 0
  }

  /** An optional sign, then only digits. */
  predicate IsNumber(text: string)
    requires |text| > 0
  {
    AllDigits(text[SignLength(text)..])
  }

  function SignedNumber(text: string): int
    requires |text| > 0 && IsNumber(text)
  {
    var n: int := Number(text[SignLength(text)..]);
    if text[0] == '-' then -n else n
  }

  /** The canonical text of a number. */
  function Text(v: int): (t: string)
    ensures |t| > 0
  {
    if v < 0 then "-" + Decimal(-v) else Decimal(v)
  }

  /** Canonical text reads back as the number. */
  lemma TextReadsBack(v: int)
    ensures IsNumber(Text(v)) && SignedNumber(Text(v)) == v
  {
    hide Decimal, Number;
    if v < 0 {
      NumberOfDecimal(-v);
      SignedText("-", Decimal(-v));
    } else {
      NumberOfDecimal(v);
      SignedText("", Decimal(v));
    }
  }

  lemma SignedText(sign: string, digits: string)
    requires (sign == "" || sign == "-") && |digits| > 0 && AllDigits(digits)
    ensures IsNumber(sign + digits) && SignedNumber(sign + digits) == (if sign == "" then 1 else -1) * Number(digits)
  {
  }

  /** The word pairs of a 32-bit array as 64-bit words. */
  lemma {:induction false} PairedValue(w: seq<int>, v: seq<int>)
    requires |w| == 2 * |v| && forall i | 0 <= i < |v| :: v[i] == w[2 * i] + B32 * w[2 * i + 1]
    ensures Value(v, B64) == Value(w, B32)
    decreases |v|
  {
    if v != [] {
      forall i | 0 <= i < |v| - 1 ensures v[1..][i] == w[2..][2 * i] + B32 * w[2..][2 * i + 1] {
        assert v[i + 1] == w[2 * (i + 1)] + B32 * w[2 * (i + 1) + 1];
      }
      PairedValue(w[2..], v[1..]);
      assert w[1..][1..] == w[2..];
    }
  }

  lemma {:induction false} PairedPow(n: nat)
    ensures Pow(B64, n) == Pow(B32, 2 * n)
  {
    if n > 0 {
      PairedPow(n - 1);
      PowAdd(B32, 2, 2 * n - 2);
      assert Pow(B32, 1) == B32;
    }
  }

  // ------------------------------------------------------------------------ printing

  /** Words from `i` up to `top` are the quotient so far, what lies below is still to be divided. */
  ghost predicate PartlyDivided(was: seq<int>, now: seq<int>, i: nat, top: nat, remainder: int)
    requires i <= top + 1 <= |was| == |now|
  {
    Value(was[i..top + 1], B64) == Value(now[i..top + 1], B64) * E9 + remainder
  }

  /** The two 32-bit steps of dividing one word: no intermediate result exceeds 64 bits. */
  lemma WordDivision(x: int, r: int)
    requires 0 <= x < B64 && 0 <= r < E9
    ensures var high := r * B32 + x / B32;
      var low := high % E9 * B32 + x % B32;
      && 0 <= high < B64 && 0 <= low < B64 && 0 <= high / E9 < B32 && 0 <= low / E9 < B32
      && r * B64 + x == (high / E9 * B32 + low / E9) * E9 + low % E9
  {
  }

  lemma DivideNext(was: seq<int>, now: seq<int>, i: nat, top: nat, r: int, q: int, r': int)
    requires 0 < i <= top + 1 <= |was| == |now| && PartlyDivided(was, now, i, top, r) && now[i - 1] == was[i - 1]
    requires r * B64 + was[i - 1] == q * E9 + r'
    ensures PartlyDivided(was, now[i - 1 := q], i - 1, top, r')
  {
  }

  /** Divides the number in words 0 to `top` by 10^9, from the top word down, and returns the remainder. */
  method DivideBy1e9(w: array<u64>, top: nat) returns (remainder: u32)
    requires top < w.Length
    modifies w
    ensures remainder < E9 && w[top + 1..] == old(w[top + 1..])
    ensures old(Value(w[..top + 1], B64)) == Value(w[..top + 1], B64) * E9 + remainder
  {
    hide Value, PartlyDivided;
    remainder := 0;
    ghost var was := w[..];
    var i := top + 1;
    NothingDivided(was, top);
    while i > 0
      invariant 0 <= i <= top + 1 && remainder < E9 && w[..i] == was[..i] && w[top + 1..] == was[top + 1..]
      invariant PartlyDivided(was, w[..], i, top, remainder)
    {
      var elem := w[i - 1];
      WordDivision(elem, remainder);
      var hi, lo := elem / B32, elem % B32;
      var dividendHi: u64 := remainder * B32 + hi;
      var quotientHi: u64 := dividendHi / E9;
      var rest := dividendHi % E9;
      var dividendLo: u64 := rest * B32 + lo;
      var quotientLo: u64 := dividendLo / E9;
      ghost var before, r := w[..], remainder;
      remainder := dividendLo % E9;
      DivideNext(was, before, i, top, r, quotientHi * B32 + quotientLo, remainder) by {
        assert before[i - 1] == w[..i][i - 1] && was[i - 1] == was[..i][i - 1];
      }
      w[i - 1] := quotientHi * B32 + quotientLo;
      assert w[..] == before[i - 1 := quotientHi * B32 + quotientLo];
      assert w[..i - 1] == before[..i][..i - 1] && was[..i - 1] == was[..i][..i - 1];
      i := i - 1;
    }
    AllDivided(was, w[..], top, remainder);
    assert w[..][..top + 1] == w[..top + 1] && was[..top + 1] == old(w[..top + 1]);
  }

  lemma NothingDivided(was: seq<int>, top: nat)
    requires top < |was|
    ensures PartlyDivided(was, was, top + 1, top, 0)
  {
  }

  lemma AllDivided(was: seq<int>, now: seq<int>, top: nat, remainder: int)
    requires top < |was| == |now| && PartlyDivided(was, now, 0, top, remainder)
    ensures Value(was[..top + 1], B64) == Value(now[..top + 1], B64) * E9 + remainder
  {
  }

  // ------------------------------------------------------------------------- segments

  /** `segments` are the low digits of `v` in base 10^9, and `rest` is what is left. */
  ghost predicate SegmentsOf(v: int, segments: seq<int>, rest: int)
  {
    Words(segments, E9) && v == Value(segments, E9) + Pow(E9, |segments|) * rest
  }

  lemma SegmentNext(v: int, segments: seq<int>, rest: int, rest': int, r: int)
    requires SegmentsOf(v, segments, rest) && rest == rest' * E9 + r && 0 <= r < E9
    ensures SegmentsOf(v, segments + [r], rest')
  {
    ValueAppend(segments, r, E9);
    SegmentSum(Pow(E9, |segments|), rest', r);
  }

  lemma SegmentSum(p: int, rest: int, r: int)
    ensures p * (rest * E9 + r) == p * r + (E9 * p) * rest
  {
  }

  /** Nine segments hold every number of up to 256 bits. */
  lemma NineSegments(v: int, segments: seq<int>, rest: int)
    requires SegmentsOf(v, segments, rest) && rest > 0 && v < Pow(B64, 4) && |segments| <= 9
    ensures |segments| < 9
  {
    ValueBound(segments, E9);
    Grows(Pow(E9, |segments|), 1, rest);
    WideEnough();
  }

  lemma WideEnough()
    ensures Pow(B64, 4) < Pow(E9, 9)
  {
    assert Pow(B64, 4) == B64 * (B64 * (B64 * B64)) by {
      assert Pow(B64, 3) == B64 * Pow(B64, 2);
      assert Pow(B64, 1) == B64;
    }
    assert Pow(E9, 9) == E9 * Pow(E9, 8) && Pow(E9, 8) == E9 * Pow(E9, 7) && Pow(E9, 7) == E9 * Pow(E9, 6);
    assert Pow(E9, 6) == E9 * Pow(E9, 5) && Pow(E9, 5) == E9 * Pow(E9, 4) && Pow(E9, 4) == E9 * Pow(E9, 3);
    assert Pow(E9, 3) == E9 * Pow(E9, 2) && Pow(E9, 2) == E9 * Pow(E9, 1) && Pow(E9, 1) == E9;
  }

  /** When division by 10^9 clears the top word, the word below it is not zero. */
  lemma NextTopWord(was: seq<int>, now: seq<int>, r: int)
    requires |was| == |now| > 1 && Words(was, B64) && Words(now, B64) && was[|was| - 1] != 0 && now[|now| - 1] == 0
    requires Value(was, B64) == Value(now, B64) * E9 + r && 0 <= r < E9
    ensures now[|now| - 2] != 0
  {
    hide Value;
    var n := |was| - 1;
    TopWordCounts(was);
    QuotientStays(Value(was, B64), Value(now, B64), Pow(B64, n - 1), r);
    if now[n - 1] == 0 {
      TopZeros(now, n - 1, B64);
      ValueBound(now[..n - 1], B64);
      assert false;
    }
  }

  lemma QuotientStays(v: int, q: int, p: int, r: int)
    requires v == q * E9 + r && 0 <= r < E9 && v >= B64 * p && p >= 0
    ensures q >= p
  {
  }

  lemma TopWordCounts(w: seq<int>)
    requires |w| > 0 && Words(w, B64) && w[|w| - 1] != 0
    ensures Value(w, B64) >= Pow(B64, |w| - 1)
  {
    var n := |w| - 1;
    ValuePrefix(w, n, B64);
    assert w[..n + 1] == w;
    ValueBound(w[..n], B64);
    Grows(Pow(B64, n), 1, w[n]);
  }

  function Reversed(w: seq<int>): (r: seq<int>)
    ensures |r| == |w| && forall i | 0 <= i < |w| :: r[i] == w[|w| - 1 - i]
  {
    seq(|w|, i requires 0 <= i < |w| => w[|w| - 1 - i])
  }

  /** A 64-bit word taken as signed. */
  function Int64(x: int): int
  {
    if x < B64 / 2 then x else x - B64
  }

  predicate IsInt64(v: int)
  {
    -0x8000_0000_0000_0000 <= v < 0x8000_0000_0000_0000
  }

  class ArrowDecimal {
    const nWords: nat
    const words: array<u64>
    const lowWordIndex: nat
    const highWordIndex: nat

    ghost predicate Valid()
    {
      && (nWords == 2 || nWords == 4) && words.Length == 4
      && ((lowWordIndex == 0 && highWordIndex == nWords - 1) || (lowWordIndex == nWords - 1 && highWordIndex == 0))
    }

    constructor (bitWidth: nat, littleEndian: bool)
      requires bitWidth == 128 || bitWidth == 256
      ensures Valid() && fresh(words) && nWords == bitWidth / 64 && (lowWordIndex == 0 <==> littleEndian)
      ensures Signed() == 0 && highWordIndex == nWords - 1 - lowWordIndex
    {
      nWords := bitWidth / 64;
      words := new u64[4](_ => 0);
      if littleEndian {
        lowWordIndex, highWordIndex := 0, bitWidth / 64 - 1;
      } else {
        lowWordIndex, highWordIndex := bitWidth / 64 - 1, 0;
      }
      new;
      ZeroValue(Ordered(), B64);
      NothingSigned(nWords);
    }

    static lemma NothingSigned(n: nat)
      ensures SignedOf(0, n) == 0
    {
    }

    /** The position of the `i`th least significant word. */
    function Position(i: nat): (p: nat)
      requires Valid() && i < nWords
      ensures p < nWords
    {
      if lowWordIndex == 0 then i else nWords - 1 - i
    }

    /** The words, least significant first. */
    ghost function Ordered(): (w: seq<int>)
      requires Valid()
      reads words
      ensures |w| == nWords && Words(w, B64)
    {
      seq(nWords, i requires 0 <= i < nWords reads words => words[Position(i)])
    }

    /** Where the words lie: the least significant one first, or last. */
    lemma OrderedWords()
      requires Valid()
      ensures lowWordIndex == 0 ==> Ordered() == words[..nWords]
      ensures lowWordIndex != 0 ==> Ordered() == Reversed(words[..nWords])
      ensures words[lowWordIndex] == Ordered()[0] && words[highWordIndex] == Ordered()[nWords - 1]
    {
    }

    ghost function Signed(): int
      requires Valid()
      reads words
    {
      SignedOf(Value(Ordered(), B64), nWords)
    }

    /** 1 or -1. */
    method Sign() returns (s: int)
      requires Valid()
      ensures s == if Signed() < 0 then -1 else 1
      ensures s == if words[highWordIndex] >= B64 / 2 then -1 else 1
      ensures lowWordIndex == 0 ==> s == if SignedOf(Value(words[..nWords], B64), nWords) < 0 then -1 else 1
      ensures lowWordIndex != 0 ==> s == if SignedOf(Value(Reversed(words[..nWords]), B64), nWords) < 0 then -1 else 1
    {
      OrderedWords();
      var high := words[highWordIndex];
      s := if high >= B64 / 2 then -1 else 1;
      assert high == Ordered()[nWords - 1];
      TopWord(Ordered());
      ValueBound(Ordered(), B64);
    }

    static lemma TopWord(w: seq<int>)
      requires |w| > 0 && Words(w, B64)
      ensures w[|w| - 1] >= B64 / 2 <==> 2 * Value(w, B64) >= Pow(B64, |w|)
    {
      var n := |w| - 1;
      ValuePrefix(w, n, B64);
      assert w[..n + 1] == w;
      ValueBound(w[..n], B64);
      TopHalf(Value(w[..n], B64), Pow(B64, n), w[n]);
    }

    static lemma TopHalf(v: int, p: int, x: int)
      requires 0 <= v < p && 0 <= x < B64
      ensures x >= B64 / 2 <==> 2 * (v + p * x) >= B64 * p
    {
      if x >= B64 / 2 { Grows(p, B64 / 2, x); } else { Grows(p, x, B64 / 2 - 1); }
    }

    /** Writes the `i`th least significant word. */
    method SetWord(i: nat, x: u64)
      requires Valid() && i < nWords
      modifies words
      ensures Ordered() == old(Ordered())[i := x]
    {
      words[Position(i)] := x;
      forall j | 0 <= j < nWords && j != i ensures Position(j) != Position(i) {
      }
    }

    /** The least significant word as a signed number, which is the whole number if it fits. */
    method GetInt() returns (r: int)
      requires Valid()
      ensures r == Int64(words[lowWordIndex])
      ensures IsInt64(Signed()) ==> r == Signed()
    {
      OrderedWords();
      LowWord(Ordered());
      ValueBound(Ordered(), B64);
      r := Int64(words[lowWordIndex]);
      if IsInt64(Signed()) { LowSigned(Value(Ordered(), B64), nWords, words[lowWordIndex]); }
    }

    static lemma LowWord(w: seq<int>)
      requires |w| > 0 && Words(w, B64)
      ensures Value(w, B64) == w[0] + B64 * Value(w[1..], B64)
    {
    }

    static lemma LowSigned(v: int, n: nat, low: int)
      requires n > 0 && 0 <= low < B64 && exists q: int :: v == low + B64 * q
      requires IsInt64(SignedOf(v, n))
      ensures SignedOf(v, n) == Int64(low)
    {
      var q: int :| v == low + B64 * q;
      var p := Pow(B64, n - 1);
      var x := if 2 * v < Pow(B64, n) then q else q - p;
      assert SignedOf(v, n) == low + B64 * x;
    }

    /** Sets the number from a signed 64-bit one, extending its sign. */
    method SetInt(value: int)
      requires Valid() && IsInt64(value)
      modifies words
      ensures Signed() == value && words[lowWordIndex] == value % B64
    {
      var fill: u64 := if value < 0 then B64 - 1 else 0;
      var i := 0;
      while i < nWords
        invariant 0 <= i <= nWords && forall j | 0 <= j < i :: words[j] == fill
      {
        words[i] := fill;
        i := i + 1;
      }
      words[lowWordIndex] := value % B64;
      OrderedWords();
      SignExtended(Ordered(), value);
    }

    static lemma SignExtended(w: seq<int>, value: int)
      requires |w| > 1 && IsInt64(value) && w[0] == value % B64
      requires forall i | 0 < i < |w| :: w[i] == if value < 0 then B64 - 1 else 0
      ensures SignedOf(Value(w, B64), |w|) == value
    {
      hide Pow;
      if value < 0 { AllOnes(w[1..]); } else { ZeroValue(w[1..], B64); }
      AtLeastTwoWords(|w|);
    }

    static lemma {:induction false} AllOnes(w: seq<int>)
      requires forall i | 0 <= i < |w| :: w[i] == B64 - 1
      ensures Value(w, B64) == Pow(B64, |w|) - 1
    {
      if w != [] { AllOnes(w[1..]); }
    }

    static lemma AtLeastTwoWords(n: nat)
      requires n > 1
      ensures Pow(B64, n) == B64 * Pow(B64, n - 1) && Pow(B64, n) >= B64 * B64
    {
      assert Pow(B64, n - 1) == B64 * Pow(B64, n - 2);
      Grows(B64, 1, Pow(B64, n - 2));
      Grows(B64, B64, Pow(B64, n - 1));
    }

    /** Negates in place, from the least significant word on. */
    method Negate()
      requires Valid()
      modifies words
      ensures Value(Ordered(), B64) == Wrapped(-old(Value(Ordered(), B64)), nWords)
      ensures lowWordIndex == 0 ==>
        Value(words[..nWords], B64) == Wrapped(-old(Value(words[..nWords], B64)), nWords)
      ensures lowWordIndex != 0 ==>
        Value(Reversed(words[..nWords]), B64) == Wrapped(-old(Value(Reversed(words[..nWords]), B64)), nWords)
    {
      OrderedWords();
      NegateOrdered();
      OrderedWords();
    }

    method NegateOrdered()
      requires Valid()
      modifies words
      ensures Value(Ordered(), B64) == Wrapped(-old(Value(Ordered(), B64)), nWords)
    {
      hide Value, PartlyNegated, Pow;
      var carry: u64 := 1;
      var i := 0;
      ghost var was := Ordered();
      NothingNegated();
      assert was[..0] == [] && Ordered()[..0] == [];
      while i < nWords
        invariant 0 <= i <= nWords && 0 <= carry <= 1 && forall j | i <= j < nWords :: Ordered()[j] == was[j]
        invariant PartlyNegated(was[..i], Ordered()[..i], carry)
      {
        ghost var done := Ordered();
        var elem: u64 := (B64 - 1 - words[Position(i)] + carry) % B64;
        NegateNext(was[..i], done[..i], was[i], carry);
        carry := CarryAfter(elem, carry);
        SetWord(i, elem);
        assert was[..i + 1] == was[..i] + [was[i]] && Ordered()[..i + 1] == done[..i] + [elem];
        i := i + 1;
      }
      assert was[..i] == was && Ordered()[..i] == Ordered();
      NegatedValue(was, Ordered(), carry);
    }

    static lemma NothingNegated()
      ensures PartlyNegated([], [], 1)
    {
    }

    /** Sets the number from decimal text, modulo the range of the words. Anything but an optional sign
        and digits is refused and changes nothing; a sign alone stands for 0. */
    method SetDigits(text: string) returns (ok: bool)
      requires Valid() && |text| > 0
      modifies words
      ensures ok <==> IsNumber(text)
      ensures !ok ==> words[..] == old(words[..])
      ensures ok ==> Value(Ordered(), B64) == Wrapped(SignedNumber(text), nWords)
      ensures ok && lowWordIndex == 0 ==> Value(words[..nWords], B64) == Wrapped(SignedNumber(text), nWords)
      ensures ok && lowWordIndex != 0 ==> Value(Reversed(words[..nWords]), B64) == Wrapped(SignedNumber(text), nWords)
    {
      hide Value, Number, Pow;
      var isNegative := text[0] == '-';
      var value := text[if isNegative || text[0] == '+' then 1 else 0..];
      var i := 0;
      while i < |value|
        invariant 0 <= i <= |value| && forall j | 0 <= j < i :: IsDigit(value[j])
      {
        if value[i] < '0' || value[i] > '9' { return false; }
        i := i + 1;
      }
      ok := true;
      var zeros := 0;
      while zeros < |value| && value[zeros] == '0'
        invariant 0 <= zeros <= |value| && forall j | 0 <= j < zeros :: value[j] == '0'
      {
        zeros := zeros + 1;
      }
      LeadingZeros(value, zeros);
      var words32 := new u32[8](_ => 0);
      ZeroValue(words32[..2 * nWords], B32);
      ShiftAndAdd(value[zeros..], words32, 2 * nWords);
      StoreWords(words32);
      PairedPow(nWords);
      if isNegative {
        Negate();
        NegatedWrap(Number(value), nWords);
      }
      OrderedWords();
    }

    static lemma NegatedWrap(v: int, n: nat)
      ensures Wrapped(-Wrapped(v, n), n) == Wrapped(-v, n)
    {
      ModScaled(v, -1, 0, Pow(B64, n));
    }

    /** Joins the 32-bit words in pairs, in the order of this decimal's words. */
    method StoreWords(words32: array<u32>)
      requires Valid() && words32.Length == 8
      modifies words
      ensures Value(Ordered(), B64) == Value(words32[..2 * nWords], B32)
      ensures lowWordIndex == 0 ==> Value(words[..nWords], B64) == Value(words32[..2 * nWords], B32)
      ensures lowWordIndex != 0 ==> Value(Reversed(words[..nWords]), B64) == Value(words32[..2 * nWords], B32)
    {
      var i := 0;
      while i < nWords
        invariant 0 <= i <= nWords
        invariant forall j | 0 <= j < i :: Ordered()[j] == words32[2 * j] + B32 * words32[2 * j + 1]
      {
        var lo, hi := words32[2 * i], words32[2 * i + 1] * B32;
        SetWord(i, lo + hi);
        i := i + 1;
      }
      PairedValue(words32[..2 * nWords], Ordered());
      OrderedWords();
    }

    /** A little-endian copy of the words, negated when the number is negative. */
    method Magnitude(isNegative: bool) returns (w: array<u64>)
      requires Valid() && (isNegative <==> Signed() < 0)
      ensures fresh(w) && w.Length == 4 && Value(w[..nWords], B64) == if isNegative then -Signed() else Signed()
      ensures !isNegative && lowWordIndex == 0 ==> w[..nWords] == words[..nWords]
      ensures !isNegative && lowWordIndex != 0 ==> w[..nWords] == Reversed(words[..nWords])
    {
      hide Value, Pow;
      w := new u64[4](_ => 0);
      var i := 0;
      while i < nWords
        invariant 0 <= i <= nWords && w[..i] == Ordered()[..i]
      {
        w[i] := words[Position(i)];
        i := i + 1;
      }
      assert w[..nWords] == Ordered();
      OrderedWords();
      ValueBound(Ordered(), B64);
      if isNegative {
        NegateWords(w, nWords);
        NegativeMagnitude(Value(Ordered(), B64), nWords);
      }
    }

    static lemma NegativeMagnitude(v: int, n: nat)
      requires 0 <= v < Pow(B64, n) && SignedOf(v, n) < 0
      ensures Wrapped(-v, n) == -SignedOf(v, n)
    {
      ModShift(-v, Pow(B64, n));
      SmallMod(Pow(B64, n) - v, Pow(B64, n));
    }

    static method NegateWords(w: array<u64>, n: nat)
      requires n <= w.Length
      modifies w
      ensures Value(w[..n], B64) == Wrapped(-old(Value(w[..n], B64)), n)
    {
      hide Value, PartlyNegated, Pow;
      var carry: u64 := 1;
      var i := 0;
      NothingNegated();
      assert w[..0] == [];
      while i < n
        invariant 0 <= i <= n && 0 <= carry <= 1 && forall j | i <= j < w.Length :: w[j] == old(w[j])
        invariant PartlyNegated(old(w[..i]), w[..i], carry)
      {
        ghost var was, done, x := old(w[..i]), w[..i], w[i];
        var elem: u64 := (B64 - 1 - w[i] + carry) % B64;
        NegateNext(was, done, x, carry);
        carry := CarryAfter(elem, carry);
        w[i] := elem;
        assert old(w[..i + 1]) == was + [x] && w[..i + 1] == done + [elem];
        i := i + 1;
      }
      NegatedValue(old(w[..n]), w[..n], carry);
    }

    /** Appends the decimal text of the number. */
    method AppendDigits(buffer: string) returns (out: string)
      requires Valid()
      ensures out == buffer + Text(Signed())
      ensures lowWordIndex == 0 ==> out == buffer + Text(SignedOf(Value(words[..nWords], B64), nWords))
      ensures lowWordIndex != 0 ==> out == buffer + Text(SignedOf(Value(Reversed(words[..nWords]), B64), nWords))
    {
      OrderedWords();
      out := AppendSigned(buffer);
    }

    method AppendSigned(buffer: string) returns (out: string)
      requires Valid()
      ensures out == buffer + Text(Signed())
    {
      hide Value, Pow, Decimal, Text, SignedOf;
      var sign := Sign();
      var isNegative := sign < 0;
      var w := Magnitude(isNegative);
      ghost var v := Value(w[..nWords], B64);
      var top := TopWordIndex(w, nWords);
      if top == -1 {
        ZeroText();
        return buffer + "0";
      }
      FourWords(w[..top + 1]);
      var segments, n := Segments(w, top, v);
      out := if isNegative then buffer + "-" else buffer;
      out := WriteSegments(out, segments, n);
      SignAndDigits(buffer, Signed(), v);
    }

    static lemma SignAndDigits(buffer: string, signed: int, v: nat)
      requires v == if signed < 0 then -signed else signed
      ensures buffer + Text(signed) == (if signed < 0 then buffer + "-" else buffer) + Decimal(v)
    {
    }

    /** The most significant word that is not zero, or -1. */
    static method TopWordIndex(w: array<u64>, n: nat) returns (top: int)
      requires n <= w.Length
      ensures -1 <= top < n && (top >= 0 ==> w[top] != 0) && Value(w[..n], B64) == Value(w[..top + 1], B64)
      ensures top == -1 ==> Value(w[..n], B64) == 0
    {
      hide Value;
      top := n - 1;
      while top >= 0 && w[top] == 0
        invariant -1 <= top < n && forall i | top < i < n :: w[i] == 0
      {
        top := top - 1;
      }
      TopZeros(w[..n], top + 1, B64);
      assert w[..n][..top + 1] == w[..top + 1];
      if top == -1 { ZeroValue(w[..n], B64); }
    }

    static lemma ZeroText()
      ensures Text(0) == "0"
    {
    }

    static lemma FourWords(w: seq<int>)
      requires |w| <= 4 && Words(w, B64)
      ensures Value(w, B64) < Pow(B64, 4)
    {
      ValueBound(w, B64);
      PowAdd(B64, |w|, 4 - |w|);
      Grows(Pow(B64, |w|), 1, Pow(B64, 4 - |w|));
    }

    /** The number in words 0 to `start`, whose top word is not zero, in base 10^9. */
    static method Segments(w: array<u64>, start: nat, ghost v: int) returns (segments: array<u32>, n: nat)
      requires start < w.Length && w[start] != 0 && v == Value(w[..start + 1], B64) < Pow(B64, 4)
      modifies w
      ensures fresh(segments) && 0 < n <= 9 == segments.Length && segments[n - 1] != 0
      ensures Words(segments[..n], E9) && v == Value(segments[..n], E9)
    {
      hide Value, Pow, SegmentsOf;
      segments := new u32[9](_ => 0);
      n := 0;
      var top, more := start, true;
      assert segments[..0] == [];
      NoSegments(v);
      while more
        invariant 0 <= top < w.Length && n <= 9 == segments.Length && fresh(segments)
        invariant SegmentsOf(v, segments[..n], if more then Value(w[..top + 1], B64) else 0)
        invariant more ==> w[top] != 0
        invariant !more ==> n > 0 && segments[n - 1] != 0
        decreases if more then 1 + Value(w[..top + 1], B64) else 0
      {
        ghost var was, done := w[..top + 1], segments[..n];
        TopPositive(was);
        NineSegments(v, done, Value(was, B64));
        var remainder := DivideBy1e9(w, top);
        SegmentNext(v, done, Value(was, B64), Value(w[..top + 1], B64), remainder);
        segments[n] := remainder;
        n := n + 1;
        assert segments[..n] == done + [remainder];
        QuotientSmaller(Value(was, B64), Value(w[..top + 1], B64), remainder);
        if w[top] == 0 {
          if top == 0 {
            more := false;
            LastQuotient(w[..1]);
          } else {
            NextTopWord(was, w[..top + 1], remainder);
            TopZeros(w[..top + 1], top, B64);
            assert w[..top + 1][..top] == w[..top];
            top := top - 1;
          }
        }
      }
      NothingLeft(v, segments[..n]);
    }

    static lemma NoSegments(v: int)
      ensures SegmentsOf(v, [], v)
    {
    }

    static lemma NothingLeft(v: int, segments: seq<int>)
      requires SegmentsOf(v, segments, 0)
      ensures Words(segments, E9) && v == Value(segments, E9)
    {
    }

    static lemma TopPositive(w: seq<int>)
      requires |w| > 0 && Words(w, B64) && w[|w| - 1] != 0
      ensures Value(w, B64) > 0
    {
      TopWordCounts(w);
    }

    static lemma QuotientSmaller(v: int, q: int, r: int)
      requires v > 0 && v == q * E9 + r && 0 <= r
      ensures q < v
    {
    }

    static lemma LastQuotient(w: seq<int>)
      requires |w| == 1 && w[0] == 0
      ensures Value(w, B64) == 0
    {
    }

    /** The top segment without leading zeros, every other one with nine digits. */
    static method WriteSegments(buffer: string, segments: array<u32>, n: nat) returns (out: string)
      requires 0 < n <= segments.Length && Words(segments[..n], E9) && segments[n - 1] != 0
      ensures out == buffer + Decimal(Value(segments[..n], E9))
    {
      hide Value, Decimal, Digits;
      out := buffer + Decimal(segments[n - 1]);
      OneSegment(segments[..n]);
      var i: int := n - 2;
      while i >= 0
        invariant -1 <= i <= n - 2 && Value(segments[..n][i + 1..], E9) > 0
        invariant out == buffer + Decimal(Value(segments[..n][i + 1..], E9))
      {
        SegmentText(segments[..n], i);
        out := out + Digits(segments[i], 9);
        i := i - 1;
      }
      assert segments[..n][0..] == segments[..n];
    }

    static lemma OneSegment(segments: seq<int>)
      requires |segments| > 0
      ensures Value(segments[|segments| - 1..], E9) == segments[|segments| - 1]
    {
    }

    static lemma SegmentText(segments: seq<int>, i: nat)
      requires i + 1 < |segments| && Words(segments, E9) && Value(segments[i + 1..], E9) > 0
      ensures Value(segments[i..], E9) > 0
      ensures Decimal(Value(segments[i..], E9)) == Decimal(Value(segments[i + 1..], E9)) + Digits(segments[i], 9)
    {
      hide Value, Decimal, Digits, Pow;
      ValueSuffix(segments, i, E9);
      PowersOfTen(9);
      DecimalParts(Value(segments[i + 1..], E9), segments[i], 9);
    }
  }

  // ---------------------------------------------------------------------- round trips

  /** What parsing `text` leaves in the words. */
  ghost predicate Parses(text: string, w: seq<int>)
  {
    |text| > 0 && IsNumber(text) && Words(w, B64) && Value(w, B64) == Wrapped(SignedNumber(text), |w|)
  }

  /** What printing the words gives. */
  ghost function Printed(w: seq<int>): string
  {
    Text(SignedOf(Value(w, B64), |w|))
  }

  /** Printing words and parsing the text gives back the same words, for every bit pattern. */
  lemma PrintThenParse(w: seq<int>, parsed: seq<int>)
    requires |w| == |parsed| && Words(w, B64) && Parses(Printed(w), parsed)
    ensures parsed == w
  {
    hide Value, Decimal, Number;
    var v, n := Value(w, B64), |w|;
    TextReadsBack(SignedOf(v, n));
    ValueBound(w, B64);
    if 2 * v < Pow(B64, n) {
      SmallMod(v, Pow(B64, n));
    } else {
      SmallMod(v, Pow(B64, n));
      ModShift(v - Pow(B64, n), Pow(B64, n));
    }
    ValueUnique(parsed, w, B64);
  }

  /** Parsing a number that fits and printing the words gives its canonical text. */
  lemma ParseThenPrint(text: string, w: seq<int>)
    requires Parses(text, w)
    requires -2 * SignedNumber(text) <= Pow(B64, |w|) && 2 * SignedNumber(text) < Pow(B64, |w|)
    ensures Printed(w) == Text(SignedNumber(text))
  {
    SignedOfWrapped(SignedNumber(text), |w|);
  }

  /** Which texts are canonical: no plus sign, no leading zero, no minus sign before 0. */
  lemma CanonicalText(text: string)
    requires |text| > 0 && IsNumber(text)
    ensures Text(SignedNumber(text)) == text <==>
      text == "0" ||
      (text[0] != '+' && |text| > SignLength(text) && text[SignLength(text)] != '0')
  {
    hide Number, Decimal;
    var k := SignLength(text);
    var digits := text[k..];
    if |digits| > 0 && digits[0] != '0' {
      DecimalOfNumber(digits);
      assert text == text[..k] + digits && text[..k] == if k == 0 then "" else [text[0]];
    } else {
      if text == "0" { DecimalOfNumber(digits); } else { NotCanonical(text); }
    }
  }

  lemma NotCanonical(text: string)
    requires |text| > 0 && IsNumber(text) && text != "0"
    requires |text| == SignLength(text) || text[SignLength(text)] == '0'
    ensures Text(SignedNumber(text)) != text
  {
    hide Number, Decimal;
    var v := SignedNumber(text);
    if v < 0 {
      NoLeadingZero(-v);
      assert Text(v)[1] == Decimal(-v)[0] != '0';
    } else {
      NoLeadingZero(v);
      ZeroDecimal();
      assert IsDigit(Decimal(v)[0]);
    }
  }

  lemma ZeroDecimal()
    ensures Decimal(0) == "0"
  {
  }
}
