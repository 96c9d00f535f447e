/** Numbers as word arrays, least significant word first, and as decimal text. */
module Numerals {

  function Pow(b: nat, n: nat): (p: nat)
    ensures b > 0 ==> p > 0
  {
    if n == 0 then 1 else b * Pow(b, n - 1)
  }

  lemma {:induction false} PowAdd(b: nat, m: nat, n: nat)
    ensures Pow(b, m + n) == Pow(b, m) * Pow(b, n)
  {
    if m > 0 {
      PowAdd(b, m - 1, n);
      Associate(b, Pow(b, m - 1), Pow(b, n));
    }
  }

  lemma Associate(a: int, b: int, c: int)
    ensures a * (b * c) == (a * b) * c
  {
  }

  // ----------------------------------------------------------------------- word arrays

  predicate Words(w: seq<int>, b: nat)
  {
    forall i | 0 <= i < |w| :: 0 <= w[i] < b
  }

  function Value(w: seq<int>, b: nat): (v: int)
    ensures Words(w, b) ==> v >= 0
  {
    if w == [] then 0 else w[0] + b * Value(w[1..], b)
  }

  lemma {:induction false} ValueAppend(w: seq<int>, x: int, b: nat)
    ensures Value(w + [x], b) == Value(w, b) + Pow(b, |w|) * x
  {
    if w == [] {
      assert (w + [x])[1..] == [];
    } else {
      assert (w + [x])[1..] == w[1..] + [x];
      ValueAppend(w[1..], x, b);
      Distribute(b, Value(w[1..], b), Pow(b, |w| - 1), x);
    }
  }

  lemma Distribute(b: int, v: int, p: int, x: int)
    ensures b * (v + p * x) == b * v + (b * p) * x
  {
  }

  /** One more word of a prefix. */
  lemma ValuePrefix(w: seq<int>, i: nat, b: nat)
    requires i < |w|
    ensures Value(w[..i + 1], b) == Value(w[..i], b) + Pow(b, i) * w[i]
  {
    assert w[..i + 1] == w[..i] + [w[i]];
    ValueAppend(w[..i], w[i], b);
  }

  lemma ValueSuffix(w: seq<int>, i: nat, b: nat)
    requires i < |w|
    ensures Value(w[i..], b) == w[i] + b * Value(w[i + 1..], b)
  {
  }

  lemma {:induction false} ValueBound(w: seq<int>, b: nat)
    requires Words(w, b)
    ensures 0 <= Value(w, b) < Pow(b, |w|)
  {
    if w != [] {
      assert Words(w[1..], b);
      ValueBound(w[1..], b);
      BoundStep(w[0], Value(w[1..], b), Pow(b, |w| - 1), b);
    }
  }

  lemma BoundStep(x: int, v: int, p: int, b: int)
    requires 0 <= x < b && 0 <= v < p
    ensures 0 <= x + b * v < b * p
  {
    Grows(b, v, p - 1);
    assert b * (p - 1) == b * p - b;
  }

  lemma Grows(b: int, v: int, w: int)
    requires b >= 0 && 0 <= v <= w
    ensures 0 <= b * v <= b * w
  {
  }

  lemma {:induction false} ZeroValue(w: seq<int>, b: nat)
    requires forall i | 0 <= i < |w| :: w[i] == 0
    ensures Value(w, b) == 0
  {
    if w != [] { ZeroValue(w[1..], b); }
  }

  /** Zero words at the top do not count. */
  lemma {:induction false} TopZeros(w: seq<int>, n: nat, b: nat)
    requires n <= |w| && forall i | n <= i < |w| :: w[i] == 0
    ensures Value(w, b) == Value(w[..n], b)
    decreases |w|
  {
    if n == |w| {
      assert w[..n] == w;
    } else {
      var m := |w| - 1;
      TopZeros(w[..m], n, b);
      assert w[..m][..n] == w[..n];
      ValuePrefix(w, m, b);
      assert w[..m + 1] == w;
    }
  }

  /** A number has one representation of a given length. */
  lemma {:induction false} ValueUnique(v: seq<int>, w: seq<int>, b: nat)
    requires |v| == |w| && Words(v, b) && Words(w, b) && Value(v, b) == Value(w, b) && b > 0
    ensures v == w
  {
    if v != [] {
      LowDigit(v[0], Value(v[1..], b), w[0], Value(w[1..], b), b);
      ValueUnique(v[1..], w[1..], b);
      assert v == [v[0]] + v[1..] && w == [w[0]] + w[1..];
    }
  }

  lemma LowDigit(x: int, p: int, y: int, q: int, b: int)
    requires 0 <= x < b && 0 <= y < b && x + b * p == y + b * q
    ensures x == y && p == q
  {
    if p >= q { NoMultiple(p - q, y - x, b) by { Spread(b, p, q); } }
      else { NoMultiple(q - p, x - y, b) by { Spread(b, q, p); } }
  }

  lemma Spread(b: int, p: int, q: int)
    ensures b * (p - q) == b * p - b * q
  {
  }

  lemma NoMultiple(d: int, r: int, b: int)
    requires d >= 0 && r < b && b > 0 && b * d == r
    ensures d == 0 && r == 0
  {
  }

  // ---------------------------------------------------------------------- decimal text

  predicate IsDigit(c: char) { '0' <= c <= '9' }

  predicate AllDigits(s: string)
  {
    forall i | 0 <= i < |s| :: IsDigit(s[i])
  }

  function DigitOf(c: char): (d: nat)
    requires IsDigit(c)
    ensures d < 10
  {
    (c - '0') as nat
  }

  function CharOf(d: nat): (c: char)
    requires d < 10
    ensures IsDigit(c) && DigitOf(c) == d
  {
    '0' + d as char
  }

  /** The number a digit string stands for. */
  function Number(s: string): (n: nat)
    requires AllDigits(s)
  {
    if s == "" then 0 else 10 * Number(s[..|s| - 1]) + DigitOf(s[|s| - 1])
  }

  /** The digits of a number, without leading zeros. */
  function Decimal(n: nat): (s: string)
    ensures |s| > 0 && AllDigits(s)
  {
    (if n < 10 then "" else Decimal(n / 10)) + [CharOf(n % 10)]
  }

  /** The last `k` digits of a number, with leading zeros. */
  function Digits(n: nat, k: nat): (s: string)
    ensures |s| == k && AllDigits(s)
  {
    if k == 0 then "" else Digits(n / 10, k - 1) + [CharOf(n % 10)]
  }

  lemma {:induction false} NumberAppend(s: string, t: string)
    requires AllDigits(s) && AllDigits(t)
    ensures AllDigits(s + t) && Number(s + t) == Number(s) * Pow(10, |t|) + Number(t)
    decreases |t|
  {
    if t == "" {
      assert s + t == s;
    } else {
      var m := |t| - 1;
      NumberAppend(s, t[..m]);
      assert (s + t)[..|s + t| - 1] == s + t[..m];
      ScaleUp(Number(s), Pow(10, m), Number(t[..m]));
    }
  }

  lemma ScaleUp(a: int, p: int, c: int)
    ensures 10 * (a * p + c) == a * (10 * p) + 10 * c
  {
  }

  lemma {:induction false} NumberBound(s: string)
    requires AllDigits(s)
    ensures Number(s) < Pow(10, |s|)
  {
    if s != "" { NumberBound(s[..|s| - 1]); }
  }

  lemma NumberNext(s: string, c: char)
    requires AllDigits(s) && IsDigit(c)
    ensures Number("") == 0 && Number(s + [c]) == 10 * Number(s) + DigitOf(c)
  {
  }

  lemma {:induction false} NumberOfDecimal(n: nat)
    ensures Number(Decimal(n)) == n
  {
    hide Number;
    NumberNext(if n < 10 then "" else Decimal(n / 10), CharOf(n % 10));
    if n >= 10 { NumberOfDecimal(n / 10); }
  }

  /** A leading zero is written only for the number 0. */
  lemma {:induction false} NoLeadingZero(n: nat)
    ensures Decimal(n)[0] == '0' <==> n == 0
  {
    if n >= 10 { NoLeadingZero(n / 10); }
  }

  /** A number in two parts: the digits of the upper part, then all digits of the lower one. */
  lemma {:induction false} DecimalParts(a: nat, b: nat, k: nat)
    requires a > 0 && b < Pow(10, k)
    ensures Decimal(a * Pow(10, k) + b) == Decimal(a) + Digits(b, k)
  {
    if k > 0 {
      var p := Pow(10, k - 1);
      var n := a * Pow(10, k) + b;
      assert n == 10 * (a * p) + b by { ScaleUp(a, p, 0); }
      TenParts(a * p, b);
      Grows(p, 1, a);
      DecimalParts(a, b / 10, k - 1);
    }
  }

  lemma TenParts(x: nat, b: nat)
    ensures (10 * x + b) / 10 == x + b / 10 && (10 * x + b) % 10 == b % 10
  {
  }

  /** Zeros in front do not change the number. */
  lemma {:induction false} LeadingZeros(s: string, n: nat)
    requires n <= |s| && AllDigits(s) && forall i | 0 <= i < n :: s[i] == '0'
    ensures AllDigits(s[n..]) && Number(s[n..]) == Number(s)
    decreases |s|
  {
    if n == |s| {
      AllZeros(s);
    } else {
      var m := |s| - 1;
      LeadingZeros(s[..m], n);
      assert s[n..][..|s[n..]| - 1] == s[..m][n..];
    }
  }

  lemma {:induction false} AllZeros(s: string)
    requires forall i | 0 <= i < |s| :: s[i] == '0'
    ensures AllDigits(s) && Number(s) == 0
  {
    if s != "" { AllZeros(s[..|s| - 1]); }
  }

  /** Text without a leading zero is the text of its number. */
  lemma {:induction false} DecimalOfNumber(s: string)
    requires |s| > 0 && AllDigits(s) && (|s| == 1 || s[0] != '0')
    ensures Decimal(Number(s)) == s && (s[0] != '0' ==> Number(s) > 0)
    decreases |s|
  {
    hide Number;
    var m := |s| - 1;
    var front := s[..m];
    assert s == front + [s[m]];
    NumberNext(front, s[m]);
    CharOfDigit(s[m]);
    if m > 0 { DecimalOfNumber(front); }
  }

  lemma CharOfDigit(c: char)
    requires IsDigit(c)
    ensures CharOf(DigitOf(c)) == c
  {
  }
}
