/** Slicing a validity bitmap out of an array and copying a slice into a new one. */
module Validity {
  import opened Bits
  import opened Wrappers

  /** The `n` bits from `from` on. */
  function BitRange(bits: seq<bv8>, from: nat, n: nat): (s: seq<bool>)
    requires from + n <= 8 * |bits|
    ensures |s| == n && forall i | 0 <= i < n :: s[i] == BitAt(bits, from + i)
  {
    seq(n, i requires 0 <= i < n => BitAt(bits, from + i))
  }

  /** `slice` holds the `count` bits of `bitmap` from `offset` on, at its own bit offset, and ends with
      the byte of the last one. */
  ghost predicate IsSlice(bitmap: seq<bv8>, offset: nat, count: nat, slice: seq<bv8>, bitOffset: nat)
    requires offset + count <= 8 * |bitmap|
  {
    && bitOffset < 8 && |slice| == BytesForBits(bitOffset + count)
    && BitRange(slice, bitOffset, count) == BitRange(bitmap, offset, count)
  }

  /** `copy` holds the `count` bits of `src` from `bitOffset` on, from its first bit, and `nullCount` of
      them are not set. */
  ghost predicate IsCopy(src: seq<bv8>, bitOffset: nat, count: nat, copy: seq<bv8>, nullCount: int)
    requires bitOffset + count <= 8 * |src|
  {
    && |copy| == BytesForBits(count) && BitRange(copy, 0, count) == BitRange(src, bitOffset, count)
    && nullCount == count - Count(src, bitOffset, bitOffset + count)
  }

  /** Whole bytes taken out of a buffer hold the bits they held there. */
  lemma BytesTaken(bits: seq<bv8>, start: nat, bytes: nat, from: nat, n: nat)
    requires start + bytes <= |bits| && from + n <= 8 * bytes
    ensures BitRange(bits[start..start + bytes], from, n) == BitRange(bits, 8 * start + from, n)
  {
  }

  /** The slice and the position of its first bit; nothing when there is no bitmap or no null. */
  method SliceValidity(bitmap: Option<seq<bv8>>, offset: nat, count: nat, nullCount: int)
    returns (slice: Option<seq<bv8>>, bitOffset: nat)
    requires bitmap.Some? ==> offset + count <= 8 * |bitmap.value|
    ensures slice.Some? <==> bitmap.Some? && nullCount != 0
    ensures slice.Some? ==> IsSlice(bitmap.value, offset, count, slice.value, bitOffset)
    ensures bitOffset == offset % 8
  {
    hide Bit;
    bitOffset := offset % 8;
    if bitmap == None || nullCount == 0 { return None, bitOffset; }
    var start := offset / 8;
    var total := (offset + count + 7) / 8 - start;
    slice := Some(bitmap.value[start..start + total]);
    BytesTaken(bitmap.value, start, total, bitOffset, count);
  }

  lemma {:induction false} SameCount(a: seq<bv8>, p: nat, b: seq<bv8>, q: nat, n: nat)
    requires p + n <= 8 * |a| && q + n <= 8 * |b| && BitRange(a, p, n) == BitRange(b, q, n)
    ensures Count(a, p, p + n) == Count(b, q, q + n)
  {
    hide BitAt;
    if n > 0 {
      assert BitRange(a, p, n - 1) == BitRange(a, p, n)[..n - 1] && BitRange(b, q, n - 1) == BitRange(b, q, n)[..n - 1];
      SameCount(a, p, b, q, n - 1);
      assert BitRange(a, p, n)[n - 1] == BitRange(b, q, n)[n - 1];
    }
  }

  /** Copying a slice is copying the original range: the same bits and the same number of nulls. */
  lemma SliceThenCopy(bitmap: seq<bv8>, offset: nat, count: nat, slice: seq<bv8>, bitOffset: nat, copy: seq<bv8>,
      nullCount: int)
    requires offset + count <= 8 * |bitmap| && IsSlice(bitmap, offset, count, slice, bitOffset)
    requires bitOffset + count <= 8 * |slice| && IsCopy(slice, bitOffset, count, copy, nullCount)
    ensures IsCopy(bitmap, offset, count, copy, nullCount)
  {
    hide BitAt;
    SameCount(slice, bitOffset, bitmap, offset, count);
  }

  /** Two copies of the same bits, however they were made, agree on the bits and on the nulls. */
  lemma CopiesAgree(a: seq<bv8>, p: nat, b: seq<bv8>, q: nat, count: nat, copyA: seq<bv8>, copyB: seq<bv8>,
      nullsA: int, nullsB: int)
    requires p + count <= 8 * |a| && IsCopy(a, p, count, copyA, nullsA)
    requires q + count <= 8 * |b| && IsCopy(b, q, count, copyB, nullsB)
    requires BitRange(a, p, count) == BitRange(b, q, count)
    ensures BitRange(copyA, 0, count) == BitRange(copyB, 0, count) && nullsA == nullsB
  {
    hide BitAt;
    SameCount(a, p, b, q, count);
  }

  lemma OrMask(b: bv8, n: nat, k: nat)
    requires n < 8 && k < 8
    ensures Bit(b | BitMask(n), k) == (Bit(b, k) || k == n)
  {
  }

  /** The first `n` bits of `b` are those of `src` from `from` on, and the others are not set. */
  ghost predicate Gathered(src: seq<bv8>, from: nat, n: nat, b: bv8)
    requires from + n <= 8 * |src| && n <= 8
  {
    forall k | 0 <= k < 8 :: Bit(b, k) <==> k < n && BitAt(src, from + k)
  }

  lemma GatherNext(src: seq<bv8>, from: nat, n: nat, b: bv8)
    requires from + n < 8 * |src| && n < 8 && Gathered(src, from, n, b)
    ensures Gathered(src, from, n + 1, if BitAt(src, from + n) then b | BitMask(n) else b)
  {
    hide Bit, BitMask;
    var c := if BitAt(src, from + n) then b | BitMask(n) else b;
    forall k | 0 <= k < 8 ensures Bit(c, k) <==> k < n + 1 && BitAt(src, from + k) {
      OrMask(b, n, k);
    }
  }

  lemma NothingGathered(src: seq<bv8>, from: nat)
    requires from <= 8 * |src|
    ensures Gathered(src, from, 0, 0)
  {
  }

  lemma CopyGrows(src: seq<bv8>, from: nat, n: nat, copy: seq<bv8>, bits: nat, byte: bv8)
    requires n == 8 * |copy| && bits <= 8 && from + n + bits <= 8 * |src|
    requires BitRange(copy, 0, n) == BitRange(src, from, n) && Gathered(src, from + n, bits, byte)
    ensures BitRange(copy + [byte], 0, n + bits) == BitRange(src, from, n + bits)
  {
    hide Bit;
    var a, b := BitRange(copy + [byte], 0, n + bits), BitRange(src, from, n + bits);
    forall i | 0 <= i < n + bits ensures a[i] == b[i] {
      if i < n {
        assert BitRange(copy, 0, n)[i] == BitRange(src, from, n)[i];
        assert (copy + [byte])[i / 8] == copy[i / 8];
      } else {
        assert (copy + [byte])[i / 8] == byte && i % 8 == i - n;
        assert Bit(byte, i - n) == BitAt(src, from + n + (i - n));
      }
    }
  }

  class WriteArray {
    var validity: seq<bv8>
    var nullCount: int

    /** Appends a copy of a range of bits, which starts with the first bit of the first byte copied. */
    method CopyValidity(src: seq<bv8>, bitOffset: nat, count: nat)
      requires bitOffset + count <= 8 * |src|
      modifies this
      ensures |validity| >= |old(validity)| && validity[..|old(validity)|] == old(validity)
      ensures IsCopy(src, bitOffset, count, validity[|old(validity)|..], nullCount)
    {
      if bitOffset % 8 == 0 { CopyBytes(src, bitOffset, count); } else { CopyBits(src, bitOffset, count); }
    }

    /** Whole bytes, when the range starts with one. */
    method CopyBytes(src: seq<bv8>, bitOffset: nat, count: nat)
      requires bitOffset + count <= 8 * |src| && bitOffset % 8 == 0
      modifies this
      ensures |validity| >= |old(validity)| && validity[..|old(validity)|] == old(validity)
      ensures IsCopy(src, bitOffset, count, validity[|old(validity)|..], nullCount)
    {
      hide Bit, Count;
      var start, bytes := bitOffset / 8, (count + 7) / 8;
      ghost var copy := src[start..start + bytes];
      validity := validity + src[start..start + bytes];
      var valid := BitCountSet(src[start..], 0, count);
      nullCount := count - valid;
      assert validity[|old(validity)|..] == copy;
      BytesTaken(src, start, bytes, 0, count);
      assert src[start..] == src[start..start + (|src| - start)];
      BytesTaken(src, start, |src| - start, 0, count);
      SameCount(src[start..], 0, src, bitOffset, count);
    }

    /** Bit by bit. The bits of the last byte beyond the range are not set. */
    method CopyBits(src: seq<bv8>, bitOffset: nat, count: nat)
      requires bitOffset + count <= 8 * |src|
      modifies this
      ensures |validity| >= |old(validity)| && validity[..|old(validity)|] == old(validity)
      ensures IsCopy(src, bitOffset, count, validity[|old(validity)|..], nullCount)
    {
      hide BitAt, Count, Gathered, BitRange;
      var bytes, srcBit, valid, d := (count + 7) / 8, bitOffset, 0, 0;
      ghost var copy: seq<bv8> := [];
      EmptyCount(src, bitOffset);
      while d < bytes
        invariant 0 <= d <= bytes && |copy| == d && validity == old(validity) + copy
        invariant srcBit == bitOffset + (if d == bytes then count else 8 * d)
        invariant valid == Count(src, bitOffset, srcBit)
        invariant BitRange(copy, 0, srcBit - bitOffset) == BitRange(src, bitOffset, srcBit - bitOffset)
      {
        var bits := if d == bytes - 1 && count % 8 != 0 then count % 8 else 8;
        var byte, more := GatherByte(src, srcBit, bits);
        CountSplit(src, bitOffset, srcBit, srcBit + bits);
        CopyGrows(src, bitOffset, 8 * d, copy, bits, byte);
        validity := validity + [byte];
        copy, valid, srcBit, d := copy + [byte], valid + more, srcBit + bits, d + 1;
      }
      nullCount := count - valid;
      assert validity[|old(validity)|..] == copy;
    }

    /** The next byte of the copy, and how many of its bits are set. */
    static method GatherByte(src: seq<bv8>, from: nat, bits: nat) returns (byte: bv8, more: nat)
      requires from + bits <= 8 * |src| && bits <= 8
      ensures Gathered(src, from, bits, byte) && more == Count(src, from, from + bits)
    {
      hide Bit, Count, Gathered, BitMask;
      byte, more := 0, 0;
      NothingGathered(src, from);
      EmptyCount(src, from);
      var b := 0;
      while b < bits
        invariant 0 <= b <= bits && Gathered(src, from, b, byte) && more == Count(src, from, from + b)
      {
        GatherNext(src, from, b, byte);
        CountNext(src, from, from + b);
        if BitGet(src[(from + b) / 8], (from + b) % 8) != 0 {
          byte, more := byte | BitMask(b), more + 1;
        }
        b := b + 1;
      }
    }

    static lemma CountNext(bits: seq<bv8>, i: nat, j: nat)
      requires i <= j < 8 * |bits|
      ensures Count(bits, i, j + 1) == Count(bits, i, j) + (if BitAt(bits, j) then 1 else 0)
    {
    }
  }
}
