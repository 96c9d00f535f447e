/** Bit ranges in byte buffers: the masked operations against plain sequences of bits. */
module Bits {

  // ------------------------------------------------------------------- single bytes

  /** The masks of the bits before position `n` and from there on. */
  function Preceding(n: nat): bv8
    requires n < 8
  {
    [0, 1, 3, 7, 15, 31, 63, 127][n]
  }

  function Trailing(n: nat): bv8
    requires n < 8
  {
    [255, 254, 252, 248, 240, 224, 192, 128][n]
  }

  /** The `k`th entry of the mask table. */
  function BitMask(k: int): bv8
  {
    if k == 0 then 1 else if k == 1 then 2 else if k == 2 then 4 else if k == 3 then 8
    else if k == 4 then 16 else if k == 5 then 32 else if k == 6 then 64 else 128
  }

  /** Bit `k` of a byte, the least significant bit first. */
  predicate Bit(b: bv8, k: int)
  {
    b & BitMask(k) != 0
  }

  function Byte(on: bool): (v: bv8)
  {
    if on then 1 else 0
  }

  /** The shift that reads bit `k`. */
  function BitGet(b: bv8, k: nat): (v: bv8)
    requires k < 8
    ensures v == Byte(Bit(b, k))
  {
    if k == 0 then (b >> 0) & 1 else if k == 1 then (b >> 1) & 1 else if k == 2 then (b >> 2) & 1
    else if k == 3 then (b >> 3) & 1 else if k == 4 then (b >> 4) & 1 else if k == 5 then (b >> 5) & 1
    else if k == 6 then (b >> 6) & 1 else (b >> 7) & 1
  }

  lemma PrecedingBit(n: nat, k: nat)
    requires n < 8 && k < 8
    ensures Bit(Preceding(n), k) <==> k < n
  {
  }

  lemma TrailingBit(n: nat, k: nat)
    requires n < 8 && k < 8
    ensures Bit(Trailing(n), k) <==> k >= n
  {
  }

  /** Keeps the masked bits and takes the others from `fill`. */
  function Masked(b: bv8, mask: bv8, fill: bv8): bv8
  {
    (b & mask) | (fill & !mask)
  }

  lemma OneBit(b: bv8, k: int)
    ensures b & BitMask(k) == 0 || b & BitMask(k) == BitMask(k)
    ensures BitMask(k) != 0
  {
  }

  lemma Kept(b: bv8, mask: bv8, fill: bv8, m: bv8)
    requires mask & m == m
    ensures ((b & mask) | (fill & !mask)) & m == b & m
  {
  }

  lemma Filled(b: bv8, mask: bv8, fill: bv8, m: bv8)
    requires mask & m == 0
    ensures ((b & mask) | (fill & !mask)) & m == fill & m
  {
  }

  lemma MaskedBit(b: bv8, mask: bv8, fill: bv8, k: int)
    ensures Bit(Masked(b, mask, fill), k) == if Bit(mask, k) then Bit(b, k) else Bit(fill, k)
  {
    hide BitMask;
    var m := BitMask(k);
    OneBit(mask, k);
    if mask & m == 0 { Filled(b, mask, fill, m); } else { Kept(b, mask, fill, m); }
  }

  lemma AndBit(a: bv8, b: bv8, k: int)
    ensures Bit(a & b, k) == (Bit(a, k) && Bit(b, k))
  {
    hide BitMask;
    var m := BitMask(k);
    OneBit(b, k);
    assert (a & b) & m == a & (b & m);
  }

  lemma OrBit(a: bv8, b: bv8, k: int)
    ensures Bit(a | b, k) == (Bit(a, k) || Bit(b, k))
  {
    hide BitMask;
    var m := BitMask(k);
    assert (a | b) & m == (a & m) | (b & m);
  }

  lemma NotBit(a: bv8, k: int)
    ensures Bit(!a, k) == !Bit(a, k)
  {
  }

  /** What setting bit `n` to a value does, for `f` all ones or all zeros. */
  function WithBit(b: bv8, n: int, on: bool): bv8
  {
    b ^ ((-Byte(on) ^ b) & BitMask(n))
  }

  lemma SetBit(b: bv8, on: bool, n: nat, k: nat)
    requires n < 8 && k < 8
    ensures Bit(WithBit(b, n, on), k) == if k == n then on else Bit(b, k)
  {
  }

  /** The byte a flag is spread to. */
  function Spread(flag: bv8): bv8
  {
    -flag
  }

  lemma FillBit(flag: bv8, k: nat)
    requires k < 8 && flag <= 1
    ensures Bit(Spread(flag), k) == (flag == 1)
  {
  }

  lemma AllOnes(b: bv8)
    requires forall k | 0 <= k < 8 :: Bit(b, k)
    ensures b == 255
  {
    assert Bit(b, 0) && Bit(b, 1) && Bit(b, 2) && Bit(b, 3) && Bit(b, 4) && Bit(b, 5) && Bit(b, 6) && Bit(b, 7);
    EightBits(b);
  }

  lemma EightBits(b: bv8)
    requires b & 1 != 0 && b & 2 != 0 && b & 4 != 0 && b & 8 != 0 && b & 16 != 0 && b & 32 != 0 && b & 64 != 0 &&
      b & 128 != 0
    ensures b == 255
  {
  }

  /** It has the flag's value in every bit exactly for the flags 0 and 1. */
  lemma FillsEvenly(flag: bv8)
    ensures (forall k | 0 <= k < 8 :: Bit(Spread(flag), k) == (flag != 0)) <==> flag <= 1
  {
    hide Bit;
    if flag <= 1 {
      forall k | 0 <= k < 8 ensures Bit(Spread(flag), k) == (flag != 0) { FillBit(flag, k); }
    } else if forall k | 0 <= k < 8 :: Bit(Spread(flag), k) == (flag != 0) {
      AllOnes(Spread(flag));
      assert false;
    }
  }

  // ------------------------------------------------------------------ bits of a buffer

  predicate BitAt(bits: seq<bv8>, i: int)
    requires 0 <= i < 8 * |bits|
  {
    Bit(bits[i / 8], i % 8)
  }

  /** The first `n` bits. */
  function BitsOf(bits: seq<bv8>, n: nat): (s: seq<bool>)
    requires n <= 8 * |bits|
    ensures |s| == n && forall i | 0 <= i < n :: s[i] == BitAt(bits, i)
  {
    seq(n, i requires 0 <= i < n => BitAt(bits, i))
  }

  function BytesForBits(n: nat): (m: nat)
    ensures 8 * m >= n && (n > 0 ==> 8 * (m - 1) < n)
  {
    n / 8 + (if n % 8 != 0 then 1 else 0)
  }

  /** `new` is `was` with the bits from `start` up to `end` taken from the byte `fill`. */
  ghost predicate RangeFilled(was: seq<bv8>, new': seq<bv8>, start: nat, end: nat, fill: bv8)
    requires |was| == |new'|
  {
    forall i | 0 <= i < 8 * |was| :: BitAt(new', i) == if start <= i < end then Bit(fill, i % 8) else BitAt(was, i)
  }

  /** Which mask keeps the bits outside the range, in a byte of the range. */
  ghost predicate KeepsOutside(mask: bv8, q: nat, start: nat, end: nat)
  {
    forall k | 0 <= k < 8 :: Bit(mask, k) <==> !(start <= 8 * q + k < end)
  }

  lemma FirstMask(start: nat, end: nat)
    requires end >= 8 * (start / 8) + 8
    ensures KeepsOutside(Preceding(start % 8), start / 8, start, end)
  {
  }

  lemma LastMask(start: nat, end: nat)
    requires start <= 8 * (end / 8)
    ensures KeepsOutside(Trailing(end % 8), end / 8, start, end)
  {
  }

  lemma OnlyMask(start: nat, end: nat)
    requires start / 8 == end / 8
    ensures KeepsOutside(Preceding(start % 8) | Trailing(end % 8), start / 8, start, end)
  {
    hide Bit, Preceding, Trailing;
    var mask := Preceding(start % 8) | Trailing(end % 8);
    forall k | 0 <= k < 8 ensures Bit(mask, k) <==> k < start % 8 || k >= end % 8 {
      PrecedingBit(start % 8, k);
      TrailingBit(end % 8, k);
      OrBit(Preceding(start % 8), Trailing(end % 8), k);
    }
  }

  /** One byte of the range: it is outside, filled altogether, or masked. */
  ghost predicate ByteFilled(b: bv8, c: bv8, q: nat, start: nat, end: nat, fill: bv8)
  {
    || (c == b && (8 * q + 8 <= start || end <= 8 * q))
    || (c == fill && start <= 8 * q && 8 * q + 8 <= end)
    || (exists mask :: c == Masked(b, mask, fill) && KeepsOutside(mask, q, start, end))
  }

  lemma BytesFilled(was: seq<bv8>, new': seq<bv8>, start: nat, end: nat, fill: bv8)
    requires |was| == |new'| && forall q | 0 <= q < |was| :: ByteFilled(was[q], new'[q], q, start, end, fill)
    ensures RangeFilled(was, new', start, end, fill)
  {
    hide Bit, Masked, ByteFilled, Preceding, Trailing;
    forall i | 0 <= i < 8 * |was| ensures BitAt(new', i) == if start <= i < end then Bit(fill, i % 8)
      else BitAt(was, i) {
      assert ByteFilled(was[i / 8], new'[i / 8], i / 8, start, end, fill);
      BitFilled(was[i / 8], new'[i / 8], i / 8, i % 8, start, end, fill);
    }
  }

  lemma BitFilled(b: bv8, c: bv8, q: nat, k: nat, start: nat, end: nat, fill: bv8)
    requires ByteFilled(b, c, q, start, end, fill) && k < 8
    ensures Bit(c, k) == if start <= 8 * q + k < end then Bit(fill, k) else Bit(b, k)
  {
    hide Bit, Masked, Preceding, Trailing;
    if mask :| c == Masked(b, mask, fill) && KeepsOutside(mask, q, start, end) {
      MaskedBit(b, mask, fill, k);
    }
  }

  method MaskByte(bits: array<bv8>, q: nat, mask: bv8, fill: bv8)
    requires q < bits.Length
    modifies bits
    ensures bits[..] == old(bits[..])[q := Masked(old(bits[q]), mask, fill)]
  {
    bits[q] := bits[q] & mask;
    bits[q] := bits[q] | (fill & !mask);
  }

  method FillBytes(bits: array<bv8>, at: nat, n: nat, fill: bv8)
    requires at + n <= bits.Length
    modifies bits
    ensures forall q | 0 <= q < bits.Length :: bits[q] == if at <= q < at + n then fill else old(bits[q])
  {
    forall q | at <= q < at + n { bits[q] := fill; }
  }

  /** Sets the bits from `start` on to one value, in place. */
  method BitsSetTo(bits: array<bv8>, start: nat, length: nat, bitsAreSet: bv8)
    requires start + length <= 8 * bits.Length
    modifies bits
    ensures RangeFilled(old(bits[..]), bits[..], start, start + length, Spread(bitsAreSet))
    ensures bits[BytesForBits(start + length)..] == old(bits[BytesForBits(start + length)..])
  {
    hide ByteFilled, KeepsOutside, RangeFilled, Masked, Preceding, Trailing;
    ghost var was := bits[..];
    if length == 0 { NothingFilled(was, start, Spread(bitsAreSet)); return; }
    var end := start + length;
    var fill := Spread(bitsAreSet);
    var first, beyond := start / 8, end / 8 + 1;
    var firstMask, lastMask := Preceding(start % 8), Trailing(end % 8);
    if beyond == first + 1 {
      var only := if end % 8 == 0 then firstMask else firstMask | lastMask;
      MaskByte(bits, first, only, fill);
      OnlyMask(start, end);
      OneByteFilled(was, bits[..], first, only, start, end, fill);
      return;
    }
    FirstMask(start, end);
    MaskByte(bits, first, firstMask, fill);
    if beyond - first > 2 {
      FillBytes(bits, first + 1, beyond - first - 2, fill);
    }
    if end % 8 == 0 {
      MostBytesFilled(was, bits[..], firstMask, 0, start, end, fill);
      return;
    }
    LastMask(start, end);
    MaskByte(bits, beyond - 1, lastMask, fill);
    MostBytesFilled(was, bits[..], firstMask, lastMask, start, end, fill);
  }

  lemma NothingFilled(was: seq<bv8>, start: nat, fill: bv8)
    ensures RangeFilled(was, was, start, start, fill)
  {
  }

  lemma OneByteFilled(was: seq<bv8>, new': seq<bv8>, q: nat, mask: bv8, start: nat, end: nat, fill: bv8)
    requires |was| == |new'| && q < |was| && q == start / 8 == end / 8 && start < end &&
      KeepsOutside(mask, q, start, end)
    requires new' == was[q := Masked(was[q], mask, fill)]
    ensures RangeFilled(was, new', start, end, fill)
  {
    hide KeepsOutside, RangeFilled, Masked, Preceding, Trailing;
    forall p | 0 <= p < |was| ensures ByteFilled(was[p], new'[p], p, start, end, fill) {
    }
    BytesFilled(was, new', start, end, fill);
  }

  /** The first byte masked, the last one too unless the range ends with a byte, those between filled. */
  lemma MostBytesFilled(was: seq<bv8>, new': seq<bv8>, firstMask: bv8, lastMask: bv8, start: nat, end: nat, fill: bv8)
    requires |was| == |new'| && start / 8 < end / 8 && end <= 8 * |was| &&
      KeepsOutside(firstMask, start / 8, start, end)
    requires end % 8 != 0 ==>
      KeepsOutside(lastMask, end / 8, start, end) &&
      new'[end / 8] == Masked(was[end / 8], lastMask, fill)
    requires new'[start / 8] == Masked(was[start / 8], firstMask, fill)
    requires forall q | start / 8 < q < end / 8 :: new'[q] == fill
    requires forall q | 0 <= q < |was| && (q < start / 8 || end / 8 < q || (q == end / 8 && end % 8 == 0)) ::
      new'[q] == was[q]
    ensures RangeFilled(was, new', start, end, fill)
  {
    hide KeepsOutside, RangeFilled, Masked, Preceding, Trailing;
    forall q | 0 <= q < |was| ensures ByteFilled(was[q], new'[q], q, start, end, fill) {
    }
    BytesFilled(was, new', start, end, fill);
  }

  // ------------------------------------------------------------------------ counting

  /** The number of set bits from `i` up to `j`. */
  function Count(bits: seq<bv8>, i: nat, j: nat): (n: nat)
    requires i <= j <= 8 * |bits|
    ensures n <= j - i
  {
    if i == j then 0 else Count(bits, i, j - 1) + (if BitAt(bits, j - 1) then 1 else 0)
  }

  function Ones(b: bv8, lo: nat, hi: nat): (n: nat)
    requires lo <= hi <= 8
  {
    if lo == hi then 0 else Ones(b, lo, hi - 1) + (if Bit(b, hi - 1) then 1 else 0)
  }

  /** What the table of byte counts holds. */
  function Popcount(b: bv8): nat
  {
    Ones(b, 0, 8)
  }

  lemma {:induction false} CountSplit(bits: seq<bv8>, i: nat, m: nat, j: nat)
    requires i <= m <= j <= 8 * |bits|
    ensures Count(bits, i, j) == Count(bits, i, m) + Count(bits, m, j)
    decreases j
  {
    hide BitAt, Preceding, Trailing;
    if m < j { CountSplit(bits, i, m, j - 1); }
  }

  lemma {:induction false} CountInByte(bits: seq<bv8>, q: nat, lo: nat, hi: nat)
    requires q < |bits| && lo <= hi <= 8
    ensures Count(bits, 8 * q + lo, 8 * q + hi) == Ones(bits[q], lo, hi)
    decreases hi
  {
    hide Bit, Preceding, Trailing;
    if lo < hi {
      CountInByte(bits, q, lo, hi - 1);
      assert (8 * q + hi - 1) / 8 == q && (8 * q + hi - 1) % 8 == hi - 1;
    }
  }

  lemma {:induction false} OnesMasked(b: bv8, c: bv8, lo: nat, hi: nat, n: nat)
    requires lo <= hi <= 8 && n <= 8
    requires forall k | 0 <= k < 8 :: Bit(c, k) <==> Bit(b, k) && lo <= k < hi
    ensures Ones(c, 0, n) == if n <= lo then 0 else if n <= hi then Ones(b, lo, n) else Ones(b, lo, hi)
  {
    hide Bit, Preceding, Trailing;
    if n > 0 { OnesMasked(b, c, lo, hi, n - 1); }
  }

  /** A mask of the bits from `lo` up to `hi`. */
  ghost predicate Selects(mask: bv8, lo: nat, hi: nat)
  {
    forall k | 0 <= k < 8 :: Bit(mask, k) <==> lo <= k < hi
  }

  lemma PrecedingSelects(n: nat)
    requires n < 8
    ensures Selects(!Preceding(n), n, 8) && Selects(Trailing(n), n, 8) && Selects(!Trailing(n), 0, n)
  {
    hide Bit, Preceding, Trailing;
    var from, upTo := !Preceding(n), !Trailing(n);
    forall k | 0 <= k < 8 ensures (Bit(from, k) <==> n <= k) && (Bit(Trailing(n), k) <==> n <= k) &&
      (Bit(upTo, k) <==> k < n) {
      PrecedingBit(n, k);
      TrailingBit(n, k);
      NotBit(Preceding(n), k);
      NotBit(Trailing(n), k);
    }
  }

  lemma BetweenSelects(lo: nat, hi: nat)
    requires lo < 8 && hi < 8
    ensures Selects(Preceding(hi) & Trailing(lo), lo, hi)
  {
    hide Bit, Preceding, Trailing;
    var mask := Preceding(hi) & Trailing(lo);
    forall k | 0 <= k < 8 ensures Bit(mask, k) <==> lo <= k < hi {
      PrecedingBit(hi, k);
      TrailingBit(lo, k);
      AndBit(Preceding(hi), Trailing(lo), k);
    }
  }

  lemma AllSelected()
    ensures Selects(255, 0, 8)
  {
  }

  /** The masked byte counts the bits of the range. */
  lemma MaskedCount(bits: seq<bv8>, q: nat, mask: bv8, lo: nat, hi: nat)
    requires q < |bits| && lo <= hi <= 8 && Selects(mask, lo, hi)
    ensures Popcount(bits[q] & mask) == Count(bits, 8 * q + lo, 8 * q + hi)
  {
    hide Bit;
    var c := bits[q] & mask;
    forall k | 0 <= k < 8 ensures Bit(c, k) <==> Bit(bits[q], k) && lo <= k < hi { AndBit(bits[q], mask, k); }
    OnesMasked(bits[q], c, lo, hi, 8);
    CountInByte(bits, q, lo, hi);
  }

  lemma WholeCount(bits: seq<bv8>, q: nat)
    requires q < |bits|
    ensures Popcount(bits[q]) == Count(bits, 8 * q, 8 * q + 8)
  {
    hide Bit, Popcount, Count;
    AllSelected();
    assert bits[q] & 255 == bits[q];
    MaskedCount(bits, q, 255, 0, 8);
  }

  /** Counts the set bits of a range, byte by byte. */
  method BitCountSet(bits: seq<bv8>, start: nat, length: nat) returns (count: nat)
    requires start + length <= 8 * |bits|
    ensures count == Count(bits, start, start + length)
  {
    hide Popcount, Count, Preceding, Trailing;
    if length == 0 { EmptyCount(bits, start); return 0; }
    var end := start + length;
    var first, last := start / 8, (end - 1) / 8;
    if first == last {
      var only := if end % 8 == 0 then Trailing(start % 8) else Preceding(end % 8) & Trailing(start % 8);
      PrecedingSelects(start % 8);
      BetweenSelects(start % 8, end % 8);
      MaskedCount(bits, first, only, start % 8, if end % 8 == 0 then 8 else end % 8);
      return Popcount(bits[first] & only);
    }
    count := CountMany(bits, first, last, start % 8, end % 8);
  }

  /** The first byte from bit `lo` on, the bytes in between, and the last byte up to bit `hi`, or all
      of it when `hi` is 0. */
  method CountMany(bits: seq<bv8>, first: nat, last: nat, lo: nat, hi: nat) returns (count: nat)
    requires first < last < |bits| && lo < 8 && hi < 8
    ensures count == Count(bits, 8 * first + lo, if hi == 0 then 8 * last + 8 else 8 * last + hi)
  {
    hide Popcount, Count, Preceding, Trailing, Selects;
    var start := 8 * first + lo;
    var lastMask := if hi == 0 then 0 else Trailing(hi);
    PrecedingSelects(lo);
    MaskedCount(bits, first, !Preceding(lo), lo, 8);
    count := Popcount(bits[first] & !Preceding(lo));
    var i := first + 1;
    while i < last
      invariant first < i <= last && count == Count(bits, start, 8 * i)
    {
      WholeCount(bits, i);
      CountSplit(bits, start, 8 * i, 8 * i + 8);
      count := count + Popcount(bits[i]);
      i := i + 1;
    }
    LastCount(bits, last, lastMask, hi);
    CountSplit(bits, start, 8 * last, if hi == 0 then 8 * last + 8 else 8 * last + hi);
    count := count + Popcount(bits[last] & !lastMask);
  }

  lemma LastCount(bits: seq<bv8>, q: nat, mask: bv8, hi: nat)
    requires q < |bits| && hi < 8 && mask == if hi == 0 then 0 else Trailing(hi)
    ensures Popcount(bits[q] & !mask) == Count(bits, 8 * q, if hi == 0 then 8 * q + 8 else 8 * q + hi)
  {
    hide Popcount, Count, Preceding, Trailing, Selects;
    if hi == 0 {
      AllSelected();
      MaskedCount(bits, q, 255, 0, 8);
    } else {
      PrecedingSelects(hi);
      MaskedCount(bits, q, !mask, 0, hi);
    }
  }

  lemma EmptyCount(bits: seq<bv8>, i: nat)
    requires i <= 8 * |bits|
    ensures Count(bits, i, i) == 0
  {
  }

  // ----------------------------------------------------------------------- unpacking

  /** Entries `from` up to `to` of `out` are the bits from `start + from` on, as 0 or 1. */
  ghost predicate Unpacked(bits: seq<bv8>, start: nat, out: seq<bv8>, to: nat)
    requires start + to <= 8 * |bits| && to <= |out|
  {
    forall i | 0 <= i < to :: out[i] == Byte(BitAt(bits, start + i))
  }

  /** Reads `n` bits of byte `q` from position `k` on into `out`, from `at` on. */
  method UnpackByte(bits: seq<bv8>, q: nat, k: nat, n: nat, out: array<bv8>, at: nat, ghost start: nat)
    requires q < |bits| && k + n <= 8 && at + n <= out.Length && start + at == 8 * q + k
    requires Unpacked(bits, start, out[..], at)
    modifies out
    ensures Unpacked(bits, start, out[..], at + n) && out[at + n..] == old(out[at + n..])
  {
    hide Bit, BitGet;
    var i := 0;
    while i < n
      invariant 0 <= i <= n && Unpacked(bits, start, out[..], at + i) && out[at + n..] == old(out[at + n..])
    {
      assert (start + at + i) / 8 == q && (start + at + i) % 8 == k + i;
      out[at + i] := BitGet(bits[q], k + i);
      i := i + 1;
    }
  }

  /** Writes a range of bits to `out`, one entry each. */
  method UnpackInt8(bits: seq<bv8>, start: nat, length: nat, out: array<bv8>)
    requires start + length <= 8 * |bits| && length <= out.Length
    modifies out
    ensures Unpacked(bits, start, out[..], length) && out[length..] == old(out[length..])
  {
    hide Unpacked;
    NoneUnpacked(bits, start, out[..]);
    if length == 0 { return; }
    var end := start + length;
    var first, last := start / 8, (end - 1) / 8;
    if first == last {
      UnpackByte(bits, first, start % 8, length, out, 0, start);
      return;
    }
    var at := 8 - start % 8;
    UnpackByte(bits, first, start % 8, at, out, 0, start);
    var i := first + 1;
    while i < last
      invariant first < i <= last && at == 8 * i - start && Unpacked(bits, start, out[..], at)
      invariant out[length..] == old(out[length..])
    {
      UnpackByte(bits, i, 0, 8, out, at, start);
      i, at := i + 1, at + 8;
    }
    UnpackByte(bits, last, 0, if end % 8 == 0 then 8 else end % 8, out, at, start);
  }

  lemma NoneUnpacked(bits: seq<bv8>, start: nat, out: seq<bv8>)
    requires start <= 8 * |bits|
    ensures Unpacked(bits, start, out, 0)
  {
  }
}
