/** The growing bitmap: appending runs and lists of bits to a byte buffer. */
module Bitmap {
  import opened Bits

  /** The first `start + m` bits of `now`: those that were there, then the given values. */
  ghost predicate Appended(was: seq<bv8>, now: seq<bv8>, start: nat, values: seq<bv8>, m: nat)
    requires |was| == |now| && start + m <= 8 * |now| && m <= |values|
  {
    forall i | 0 <= i < start + m :: BitAt(now, i) == if i < start then BitAt(was, i) else values[i - start] != 0
  }

  lemma NothingAppended(was: seq<bv8>, start: nat, values: seq<bv8>)
    requires start <= 8 * |was|
    ensures Appended(was, was, start, values, 0)
  {
  }

  lemma BitAppended(was: seq<bv8>, now: seq<bv8>, start: nat, values: seq<bv8>, m: nat)
    requires |was| == |now| && start + m < 8 * |now| && m < |values| && Appended(was, now, start, values, m)
    ensures var at := start + m;
      Appended(was, now[at / 8 := WithBit(now[at / 8], at % 8, values[m] != 0)], start, values, m + 1)
  {
    hide Bit, WithBit;
    var at := start + m;
    var next := now[at / 8 := WithBit(now[at / 8], at % 8, values[m] != 0)];
    forall i | 0 <= i < start + m + 1
      ensures BitAt(next, i) == if i < start then BitAt(was, i) else values[i - start] != 0
    {
      if i < at { assert BitAt(now, i) == if i < start then BitAt(was, i) else values[i - start] != 0; }
      SetBit(now[at / 8], values[m] != 0, at % 8, i % 8);
    }
  }

  /** The byte that `ArrowBitmapPackInt8` makes of eight values of 0 or 1. */
  function Pack(v: seq<bv8>): bv8
    requires |v| == 8
  {
    v[0] | ((v[1] + 1) & 2) | ((v[2] + 3) & 4) | ((v[3] + 7) & 8) |
    ((v[4] + 15) & 16) | ((v[5] + 31) & 32) | ((v[6] + 63) & 64) | ((v[7] + 127) & 128)
  }

  lemma PackedBit(v: seq<bv8>, k: nat)
    requires |v| == 8 && k < 8 && forall i | 0 <= i < 8 :: v[i] <= 1
    ensures Bit(Pack(v), k) == (v[k] != 0)
  {
  }

  lemma ByteAppended(was: seq<bv8>, now: seq<bv8>, start: nat, values: seq<bv8>, m: nat)
    requires |was| == |now| && start + m + 8 <= 8 * |now| && m + 8 <= |values| && Appended(was, now, start, values, m)
    requires (start + m) % 8 == 0 && forall i | 0 <= i < |values| :: values[i] <= 1
    ensures Appended(was, now[(start + m) / 8 := Pack(values[m..m + 8])], start, values, m + 8)
  {
    hide Bit, Pack;
    var at := start + m;
    var next := now[at / 8 := Pack(values[m..m + 8])];
    forall i | 0 <= i < start + m + 8
      ensures BitAt(next, i) == if i < start then BitAt(was, i) else values[i - start] != 0
    {
      if i < at {
        assert BitAt(now, i) == if i < start then BitAt(was, i) else values[i - start] != 0;
      } else {
        PackedBit(values[m..m + 8], i - at);
      }
    }
  }

  lemma ZeroByteAppended(was: seq<bv8>, now: seq<bv8>, start: nat, values: seq<bv8>, m: nat)
    requires |was| == |now| && start + m < 8 * |now| && m <= |values| && Appended(was, now, start, values, m) &&
      (start + m) % 8 == 0
    ensures Appended(was, now[(start + m) / 8 := 0], start, values, m)
  {
  }

  function Flags(values: seq<bv8>): (s: seq<bool>)
    ensures |s| == |values|
  {
    seq(|values|, i requires 0 <= i < |values| => values[i] != 0)
  }

  /** What was appended, as bits. */
  lemma AppendedBits(was: seq<bv8>, now: seq<bv8>, start: nat, values: seq<bv8>, m: nat, n: nat)
    requires |was| == |now| && start + m <= 8 * |now| && n <= m <= |values| && Appended(was, now, start, values, m)
    ensures BitsOf(now, start + n) == BitsOf(was, start) + Flags(values[..n])
  {
  }

  method BitSetTo(bits: array<bv8>, i: nat, flag: bv8)
    requires i < 8 * bits.Length
    modifies bits
    ensures bits[..] == old(bits[..])[i / 8 := WithBit(old(bits[i / 8]), i % 8, flag != 0)]
  {
    bits[i / 8] := bits[i / 8] ^ ((-Byte(flag != 0) ^ bits[i / 8]) & BitMask(i % 8));
  }

  /** Sets the bits of values `m` up to `m + n` one by one. */
  method SetEach(bits: array<bv8>, ghost was: seq<bv8>, start: nat, values: seq<bv8>, m: nat, n: nat)
    requires |was| == bits.Length && start + m + n <= 8 * bits.Length && m + n <= |values| &&
      Appended(was, bits[..], start, values, m)
    modifies bits
    ensures Appended(was, bits[..], start, values, m + n)
  {
    hide Appended, WithBit;
    var i := 0;
    while i < n
      invariant 0 <= i <= n && Appended(was, bits[..], start, values, m + i)
    {
      BitAppended(was, bits[..], start, values, m + i);
      BitSetTo(bits, start + m + i, values[m + i]);
      i := i + 1;
    }
  }

  /** Packs values `m` up to `m + 8 * n` into whole bytes. */
  method PackEach(bits: array<bv8>, ghost was: seq<bv8>, start: nat, values: seq<bv8>, m: nat, n: nat)
    requires |was| == bits.Length && start + m + 8 * n <= 8 * bits.Length && m + 8 * n <= |values|
    requires Appended(was, bits[..], start, values, m) && (start + m) % 8 == 0 && forall i | 0 <= i < |values| ::
      values[i] <= 1
    modifies bits
    ensures Appended(was, bits[..], start, values, m + 8 * n)
  {
    hide Appended, Pack;
    var i := 0;
    while i < n
      invariant 0 <= i <= n && Appended(was, bits[..], start, values, m + 8 * i)
    {
      ByteAppended(was, bits[..], start, values, m + 8 * i);
      ghost var before := bits[..];
      bits[(start + m) / 8 + i] := Pack(values[m + 8 * i..m + 8 * i + 8]);
      assert bits[..] == before[(start + m) / 8 + i := Pack(values[m + 8 * i..m + 8 * i + 8])];
      i := i + 1;
    }
  }

  /** How many values appending `n` of them reads: a partial byte is always filled up. */
  function ValuesRead(sizeBits: nat, n: nat): nat
  {
    var partial := (8 - sizeBits % 8) % 8;
    if n == 0 || n >= partial then n else partial
  }

  /** What appending a run of `n` bits for a flag adds after `start` bits: the flag's value for the
      flags 0 and 1, else the pattern of the byte it is spread to. */
  function Pattern(start: nat, n: nat, flag: bv8): (s: seq<bool>)
    ensures |s| == n
  {
    seq(n, i requires 0 <= i < n => Bit(Spread(flag), (start + i) % 8))
  }

  function Run(n: nat, bit: bool): (s: seq<bool>)
    ensures |s| == n && forall i | 0 <= i < n :: s[i] == bit
  {
    seq(n, _ => bit)
  }

  lemma EvenPattern(start: nat, n: nat, flag: bv8)
    requires flag <= 1
    ensures Pattern(start, n, flag) == Run(n, flag == 1)
  {
    hide Spread;
    forall i | 0 <= i < n ensures Pattern(start, n, flag)[i] == (flag == 1) { FillBit(flag, (start + i) % 8); }
  }

  /** A validity bitmap after `n` more elements that are valid or null. The first null makes a bitmap,
      with a set bit for each of the `length` elements there are. */
  function Extended(present: bool, bits: seq<bool>, length: nat, n: nat, isValid: bool): seq<bool>
  {
    if present then bits + Run(n, isValid) else if isValid then bits else Run(length, true) + Run(n, false)
  }

  class Bitmap {
    var data: array<bv8>
    var sizeBits: nat
    var sizeBytes: nat

    ghost predicate Valid()
      reads this
    {
      sizeBytes == BytesForBits(sizeBits) && sizeBytes <= data.Length
    }

    /** The bits appended so far. */
    ghost function Values(): (s: seq<bool>)
      reads this, data
      requires Valid()
    {
      BitsOf(data[..], sizeBits)
    }

    constructor ()
      ensures Valid() && Values() == [] && fresh(data)
    {
      data := new bv8[0];
      sizeBits, sizeBytes := 0, 0;
    }

    /** Makes room for more bits; a new last byte is zeroed. */
    method Reserve(additional: nat)
      requires Valid()
      modifies this`data
      ensures Valid() && Values() == old(Values()) && sizeBits + additional <= 8 * data.Length
      ensures data == old(data) || fresh(data)
    {
      var least := BytesForBits(sizeBits + additional);
      if least <= data.Length { return; }
      var capacity := if data.Length * 2 > least then data.Length * 2 else least;
      var grown := new bv8[capacity];
      forall i | 0 <= i < data.Length { grown[i] := data[i]; }
      grown[capacity - 1] := 0;
      SameBits(data[..], grown[..], sizeBits);
      data := grown;
    }

    static lemma SameBits(was: seq<bv8>, now: seq<bv8>, n: nat)
      requires n <= 8 * |was| && n <= 8 * |now| && forall q | 0 <= q < BytesForBits(n) :: now[q] == was[q]
      ensures BitsOf(now, n) == BitsOf(was, n)
    {
    }

    /** Appends a run of bits where there is room. */
    method AppendUnsafe(bitsAreSet: bv8, length: nat)
      requires Valid() && sizeBits + length <= 8 * data.Length
      modifies this`sizeBits, this`sizeBytes, data
      ensures Valid() && Values() == old(Values()) + Pattern(old(sizeBits), length, bitsAreSet)
      ensures bitsAreSet <= 1 ==> Values() == old(Values()) + Run(length, bitsAreSet == 1)
    {
      hide Pattern, BitsOf, RangeFilled;
      ghost var was := data[..];
      BitsSetTo(data, sizeBits, length, bitsAreSet);
      PatternAppended(was, data[..], sizeBits, length, bitsAreSet);
      if bitsAreSet <= 1 { EvenPattern(sizeBits, length, bitsAreSet); }
      sizeBits := sizeBits + length;
      sizeBytes := BytesForBits(sizeBits);
    }

    static lemma PatternAppended(was: seq<bv8>, now: seq<bv8>, start: nat, length: nat, bitsAreSet: bv8)
      requires |was| == |now| && start + length <= 8 * |now|
      requires RangeFilled(was, now, start, start + length, Spread(bitsAreSet))
      ensures BitsOf(now, start + length) == BitsOf(was, start) + Pattern(start, length, bitsAreSet)
    {
      hide Bit, Spread;
    }

    method Append(bitsAreSet: bv8, length: nat)
      requires Valid()
      modifies this, data
      ensures Valid() && Values() == old(Values()) + Pattern(old(sizeBits), length, bitsAreSet)
      ensures bitsAreSet <= 1 ==> Values() == old(Values()) + Run(length, bitsAreSet == 1)
      ensures data == old(data) || fresh(data)
    {
      hide Pattern;
      Reserve(length);
      AppendUnsafe(bitsAreSet, length);
    }

    /** What appending elements to an array does to its validity bitmap: nothing as long as there is
        none and no null. */
    method AppendValidity(present: bool, length: nat, n: nat, isValid: bool) returns (now: bool)
      requires Valid() && n > 0 && (!present ==> Values() == [])
      modifies this, data
      ensures Valid() && now == (present || !isValid) && (data == old(data) || fresh(data))
      ensures Values() == Extended(present, old(Values()), length, n, isValid)
    {
      hide Pattern;
      now := present;
      if !isValid && !present {
        Reserve(length + n);
        AppendUnsafe(1, length);
        AppendUnsafe(0, n);
        now := true;
      } else if present {
        Reserve(n);
        AppendUnsafe(if isValid then 1 else 0, n);
      }
    }

    /** The bit that a reader gets. */
    method Get(i: nat) returns (bit: bv8)
      requires Valid() && i < sizeBits
      ensures bit == Byte(Values()[i])
    {
      bit := BitGet(data[i / 8], i % 8);
    }

    /** Appends the first `n` of the given values where there is room. */
    method AppendInt8Unsafe(values: seq<bv8>, n: nat)
      requires Valid() && sizeBits + n <= 8 * data.Length && forall i | 0 <= i < |values| :: values[i] <= 1
      requires n <= |values| && ValuesRead(sizeBits, n) <= |values|
      modifies this`sizeBits, this`sizeBytes, data
      ensures Valid() && Values() == old(Values()) + Flags(values[..n])
    {
      hide Appended, BitsOf;
      ghost var was := data[..];
      NothingAppended(was, sizeBits, values);
      if n == 0 { AppendedBits(was, was, sizeBits, values, 0, 0); return; }
      var start, cursor, m := sizeBits, sizeBits / 8, 0;
      if start % 8 != 0 {
        m := 8 - start % 8;
        SetEach(data, was, start, values, 0, m);
        cursor := cursor + 1;
      }
      cursor := AppendRest(was, start, cursor, values, m, n);
      sizeBits, sizeBytes := start + n, cursor;
    }

    /** The values from `m` on, which start at a byte boundary: whole bytes, then the last bits. Nothing
        is left when the partial byte took more than `n`. */
    method AppendRest(ghost was: seq<bv8>, start: nat, from: nat, values: seq<bv8>, m: nat, n: nat)
        returns (cursor: nat)
      requires 0 < n <= |values| && m <= |values| && |was| == data.Length && start + n <= 8 * data.Length &&
        start + m <= 8 * data.Length
      requires forall i | 0 <= i < |values| :: values[i] <= 1
      requires Appended(was, data[..], start, values, m) && start + m == 8 * from
      modifies data
      ensures BitsOf(data[..], start + n) == BitsOf(was, start) + Flags(values[..n])
      ensures cursor == if n <= m then from else BytesForBits(start + n)
    {
      hide Appended, BitsOf;
      var remaining := n - m;
      var full := if remaining < 0 then 0 else remaining / 8;
      PackEach(data, was, start, values, m, full);
      var done := m + 8 * full;
      cursor, remaining := from + full, remaining - 8 * full;
      if remaining > 0 {
        ZeroByteAppended(was, data[..], start, values, done);
        ghost var before := data[..];
        data[cursor] := 0;
        assert data[..] == before[(start + done) / 8 := 0];
        SetEach(data, was, start, values, done, remaining);
        done, cursor := done + remaining, cursor + 1;
      }
      AppendedBits(was, data[..], start, values, done, n);
    }
  }
}
