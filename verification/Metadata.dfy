/** Schema metadata: an ordered list of key/value pairs in one buffer, with a reader and a builder. */
module Metadata {
  import opened FlatBytes
  import opened Wrappers

  const I32_END: int := 0x8000_0000

  type Bytes = seq<byte>

  datatype Pair = Pair(key: Bytes, value: Bytes)

  predicate Fits(p: Pair)
  {
    |p.key| < I32_END && |p.value| < I32_END
  }

  predicate AllFit(pairs: seq<Pair>)
  {
    |pairs| < I32_END && forall i | 0 <= i < |pairs| :: Fits(pairs[i])
  }

  // -------------------------------------------------------------------- the encoding

  function Entry(p: Pair): (b: Bytes)
    requires Fits(p)
    ensures |b| == 8 + |p.key| + |p.value|
  {
    Le32(|p.key|) + p.key + Le32(|p.value|) + p.value
  }

  function Entries(pairs: seq<Pair>): Bytes
    requires AllFit(pairs)
  {
    if pairs == [] then [] else Entries(pairs[..|pairs| - 1]) + Entry(pairs[|pairs| - 1])
  }

  function Encode(pairs: seq<Pair>): Bytes
    requires AllFit(pairs)
  {
    Le32(|pairs|) + Entries(pairs)
  }

  lemma {:induction false} EntriesFirst(pairs: seq<Pair>)
    requires AllFit(pairs) && pairs != []
    ensures Entries(pairs) == Entry(pairs[0]) + Entries(pairs[1..])
    decreases |pairs|
  {
    hide Entry;
    if |pairs| == 1 {
      assert pairs[..0] == [] && pairs[1..] == [];
    } else {
      var n := |pairs| - 1;
      EntriesFirst(pairs[..n]);
      assert pairs[..n][1..] == pairs[1..][..n - 1] && pairs[1..][n - 1] == pairs[n];
      var a, b, c := Entry(pairs[0]), Entries(pairs[1..n]), Entry(pairs[n]);
      assert pairs[1..n] == pairs[1..][..n - 1] == pairs[..n][1..];
      assert (a + b) + c == a + (b + c);
    }
  }

  /** The encoding starts with the number of pairs, and each pair with the length of its key. */
  lemma FirstWords(pairs: seq<Pair>)
    requires AllFit(pairs)
    ensures U32At(Encode(pairs), 0) == |pairs|
    ensures pairs != [] ==>
      var m, p := Encode(pairs), pairs[0];
      && |m| >= 12 + |p.key| + |p.value|
      && U32At(m, 4) == |p.key| && m[8..8 + |p.key|] == p.key
      && U32At(m, 8 + |p.key|) == |p.value| && m[12 + |p.key|..12 + |p.key| + |p.value|] == p.value
  {
    hide Le32, Entries;
    var m := Encode(pairs);
    assert m[0..4] == Le32(|pairs|);
    ReadLe32(m, 0, |pairs|);
    if pairs != [] {
      EntriesFirst(pairs);
      EntryWords(Le32(|pairs|), pairs[0], Entries(pairs[1..]));
    }
  }

  lemma EntryWords(before: Bytes, p: Pair, after: Bytes)
    requires Fits(p)
    ensures var m, at := before + (Entry(p) + after), |before|;
      && |m| >= at + 8 + |p.key| + |p.value|
      && U32At(m, at) == |p.key| && m[at + 4..at + 4 + |p.key|] == p.key
      && U32At(m, at + 4 + |p.key|) == |p.value| && m[at + 8 + |p.key|..at + 8 + |p.key| + |p.value|] == p.value
  {
    hide Le32;
    var m, at, k, n := before + (Entry(p) + after), |before|, |p.key|, |p.value|;
    var e := Entry(p);
    assert e[..4] == Le32(k) && e[4..4 + k] == p.key && e[4 + k..8 + k] == Le32(n) && e[8 + k..8 + k + n] == p.value;
    assert m[at..at + |e|] == e;
    hide Entry;
    PieceOf(m, at, e, 0, 4);
    PieceOf(m, at, e, 4, k);
    PieceOf(m, at, e, 4 + k, 4);
    PieceOf(m, at, e, 8 + k, n);
    ReadLe32(m, at, k);
    ReadLe32(m, at + 4 + k, n);
  }

  lemma PieceOf(m: Bytes, at: nat, e: Bytes, i: nat, n: nat)
    requires at + |e| <= |m| && m[at..at + |e|] == e && i + n <= |e|
    ensures m[at + i..at + i + n] == e[i..i + n]
  {
    var part := m[at + i..at + i + n];
    forall k | 0 <= k < n ensures part[k] == e[i..i + n][k] {
      assert part[k] == m[at + (i + k)] && e[i..i + n][k] == e[i + k];
    }
  }

  /** No two lists have the same encoding. */
  lemma {:induction false} EncodingUnique(a: seq<Pair>, b: seq<Pair>)
    requires AllFit(a) && AllFit(b) && Encode(a) == Encode(b)
    ensures a == b
    decreases |a|
  {
    hide Entry, Le32;
    FirstWords(a);
    FirstWords(b);
    if a != [] {
      EntriesFirst(a);
      EntriesFirst(b);
      assert Entries(a) == Encode(a)[4..] && Entries(b) == Encode(b)[4..];
      assert a[0] == b[0];
      assert Entries(a[1..]) == Entries(a)[|Entry(a[0])|..] && Entries(b[1..]) == Entries(b)[|Entry(b[0])|..];
      EncodingUnique(a[1..], b[1..]);
      assert a == [a[0]] + a[1..] && b == [b[0]] + b[1..];
    }
  }

  /** `m` holds `b` from `at` on. */
  predicate HoldsAt(m: Bytes, at: nat, b: Bytes)
  {
    at + |b| <= |m| && m[at..at + |b|] == b
  }

  lemma HoldsParts(m: Bytes, at: nat, a: Bytes, b: Bytes)
    requires HoldsAt(m, at, a + b)
    ensures HoldsAt(m, at, a) && HoldsAt(m, at + |a|, b)
  {
    assert m[at..at + |a|] == m[at..at + |a + b|][..|a|];
    assert m[at + |a|..at + |a| + |b|] == m[at..at + |a + b|][|a|..];
  }

  lemma HeldWord(m: Bytes, at: nat, v: int)
    requires 0 <= v < U32 && HoldsAt(m, at, Le32(v))
    ensures at + 4 <= |m| && U32At(m, at) == v
  {
  }

  /** A non-null metadata string for `pairs`, perhaps followed by other bytes. */
  ghost predicate Represents(m: Bytes, pairs: seq<Pair>)
  {
    AllFit(pairs) && HoldsAt(m, 0, Encode(pairs))
  }

  /** The null string and a string without entries both stand for the empty list. */
  ghost predicate MetadataIs(m: Bytes, pairs: seq<Pair>)
  {
    if m == [] then pairs == [] else Represents(m, pairs)
  }

  // ------------------------------------------------------------------------- the keys

  /** Equal lengths and `strncmp` 0: equal up to a zero byte, which ends the comparison. */
  predicate SameKey(a: Bytes, b: Bytes)
  {
    |a| == |b| && PrefixEqual(a, b)
  }

  predicate PrefixEqual(a: Bytes, b: Bytes)
    requires |a| == |b|
  {
    a == [] || (a[0] == b[0] && (a[0] == 0 || PrefixEqual(a[1..], b[1..])))
  }

  /** Comparing this way is comparing keys exactly when no byte before the last one is zero. */
  lemma KeysCompared(a: Bytes)
    ensures (forall b: Bytes :: SameKey(a, b) <==> a == b) <==> forall i | 0 <= i < |a| - 1 :: a[i] != 0
  {
    if forall i | 0 <= i < |a| - 1 :: a[i] != 0 {
      forall b: Bytes ensures SameKey(a, b) <==> a == b {
        PlainKeys(a, b);
      }
    } else {
      var i :| 0 <= i < |a| - 1 && a[i] == 0;
      var n := |a| - 1;
      var b := a[n := if a[n] == 0 then 1 else 0];
      EndsAtZero(a, b, i);
      assert b[n] != a[n];
    }
  }

  lemma {:induction false} PlainKeys(a: Bytes, b: Bytes)
    requires forall i | 0 <= i < |a| - 1 :: a[i] != 0
    ensures SameKey(a, b) <==> a == b
  {
    if |a| == |b| && a != [] {
      PlainKeys(a[1..], b[1..]);
      assert a == [a[0]] + a[1..] && b == [b[0]] + b[1..];
    }
  }

  lemma {:induction false} EndsAtZero(a: Bytes, b: Bytes, i: nat)
    requires |a| == |b| && i < |a| && a[i] == 0 && a[..i + 1] == b[..i + 1]
    ensures SameKey(a, b)
  {
    assert a[0] == a[..i + 1][0] && b[0] == b[..i + 1][0];
    if i > 0 {
      assert a[1..][..i] == a[..i + 1][1..] && b[1..][..i] == b[..i + 1][1..];
      EndsAtZero(a[1..], b[1..], i - 1);
    }
  }

  // ----------------------------------------------------------------------- the reader

  class Reader {
    const metadata: Bytes
    var offset: nat
    var remainingKeys: int

    /** The pairs still to be read. */
    ghost var rest: seq<Pair>

    ghost predicate Valid()
      reads this
    {
      remainingKeys == |rest| && AllFit(rest) && (rest != [] ==> HoldsAt(metadata, offset, Entries(rest)))
    }

    constructor (m: Bytes, ghost pairs: seq<Pair>)
      requires MetadataIs(m, pairs)
      ensures Valid() && metadata == m && rest == pairs
    {
      hide Le32;
      metadata := m;
      rest := pairs;
      if m == [] {
        offset, remainingKeys := 0, 0;
      } else {
        HoldsParts(m, 0, Le32(|pairs|), Entries(pairs));
        HeldWord(m, 0, |pairs|);
        offset, remainingKeys := 4, U32At(m, 0);
      }
    }

    /** The next pair; nothing when all have been read. */
    method Read() returns (pair: Option<Pair>)
      requires Valid()
      modifies this`offset, this`remainingKeys, this`rest
      ensures Valid()
      ensures old(rest) == [] ==> pair == None && rest == [] && offset == old(offset)
      ensures old(rest) != [] ==> pair == Some(old(rest)[0]) && rest == old(rest)[1..]
      ensures old(rest) != [] ==> offset == old(offset) + |Entry(old(rest)[0])|
    {
      hide Le32, Entries, U32At;
      if remainingKeys <= 0 { return None; }
      EntriesFirst(rest);
      HoldsParts(metadata, offset, Entry(rest[0]), Entries(rest[1..]));
      EntryRead(metadata, offset, rest[0]);
      var keySize := U32At(metadata, offset);
      var key := metadata[offset + 4..offset + 4 + keySize];
      var valueSize := U32At(metadata, offset + 4 + keySize);
      var at := offset + 8 + keySize;
      pair := Some(Pair(key, metadata[at..at + valueSize]));
      offset, remainingKeys, rest := at + valueSize, remainingKeys - 1, rest[1..];
    }
  }

  lemma EntryRead(m: Bytes, at: nat, p: Pair)
    requires Fits(p) && HoldsAt(m, at, Entry(p))
    ensures at + 8 + |p.key| + |p.value| <= |m|
    ensures U32At(m, at) == |p.key| && m[at + 4..at + 4 + |p.key|] == p.key
    ensures U32At(m, at + 4 + |p.key|) == |p.value| && m[at + 8 + |p.key|..at + 8 + |p.key| + |p.value|] == p.value
  {
    hide Le32, U32At;
    var k, v := Le32(|p.key|), Le32(|p.value|);
    assert Entry(p) == k + (p.key + (v + p.value));
    HoldsParts(m, at, k, p.key + (v + p.value));
    HoldsParts(m, at + 4, p.key, v + p.value);
    HoldsParts(m, at + 4 + |p.key|, v, p.value);
    HeldWord(m, at, |p.key|);
    HeldWord(m, at + 4 + |p.key|, |p.value|);
  }

  /** The length of the encoding, found by reading it. */
  method SizeOf(m: Bytes, ghost pairs: seq<Pair>) returns (size: nat)
    requires MetadataIs(m, pairs)
    ensures size == if m == [] then 0 else |Encode(pairs)|
  {
    hide Entries, Entry;
    if m == [] { return 0; }
    var reader := new Reader(m, pairs);
    size := 4;
    ghost var i := 0;
    assert pairs[..0] == [] && Entries([]) == [] by { NoEntries(); }
    while true
      invariant reader.Valid() && i <= |pairs| && reader.rest == pairs[i..] && size == 4 + |Entries(pairs[..i])|
      decreases |pairs| - i
    {
      var pair := reader.Read();
      if pair == None { break; }
      EntriesNext(pairs, i);
      size := size + 4 + |pair.value.key| + 4 + |pair.value.value|;
      i := i + 1;
    }
    assert pairs[..i] == pairs;
  }

  lemma NoEntries()
    ensures Entries([]) == []
  {
  }

  lemma EntriesNext(pairs: seq<Pair>, i: nat)
    requires AllFit(pairs) && i < |pairs|
    ensures Entries(pairs[..i + 1]) == Entries(pairs[..i]) + Entry(pairs[i])
  {
    assert pairs[..i + 1][..i] == pairs[..i];
  }

  /** The value of the first pair with this key. */
  function Lookup(pairs: seq<Pair>, key: Bytes): Option<Bytes>
  {
    if pairs == [] then None
    else if SameKey(key, pairs[0].key) then Some(pairs[0].value)
    else Lookup(pairs[1..], key)
  }

  method GetValue(m: Bytes, key: Bytes, ghost pairs: seq<Pair>) returns (value: Option<Bytes>)
    requires MetadataIs(m, pairs)
    ensures value == Lookup(pairs, key)
  {
    var reader := new Reader(m, pairs);
    while true
      invariant reader.Valid() && Lookup(reader.rest, key) == Lookup(pairs, key)
      decreases |reader.rest|
    {
      var pair := reader.Read();
      if pair == None { return None; }
      if SameKey(key, pair.value.key) { return Some(pair.value.value); }
    }
  }

  method HasKey(m: Bytes, key: Bytes, ghost pairs: seq<Pair>) returns (found: bool)
    requires MetadataIs(m, pairs)
    ensures found <==> exists i :: 0 <= i < |pairs| && SameKey(key, pairs[i].key)
  {
    var value := GetValue(m, key, pairs);
    found := value.Some?;
    LookupFinds(pairs, key);
  }

  lemma {:induction false} LookupFinds(pairs: seq<Pair>, key: Bytes)
    ensures Lookup(pairs, key).Some? <==> exists i :: 0 <= i < |pairs| && SameKey(key, pairs[i].key)
  {
    hide SameKey;
    if pairs != [] {
      LookupFinds(pairs[1..], key);
      if i :| 0 <= i < |pairs| - 1 && SameKey(key, pairs[1..][i].key) { assert SameKey(key, pairs[i + 1].key); }
      if i :| 0 < i < |pairs| && SameKey(key, pairs[i].key) { assert SameKey(key, pairs[1..][i - 1].key); }
    }
  }

  // ---------------------------------------------------------------------- the builder

  /** The pairs after the key has been set to a value, or removed: the first pair with the key is
      replaced, every other one dropped. */
  function Rewritten(pairs: seq<Pair>, key: Bytes, value: Option<Bytes>): seq<Pair>
  {
    if pairs == [] then []
    else if !SameKey(key, pairs[0].key) then [pairs[0]] + Rewritten(pairs[1..], key, value)
    else (if value.Some? then [Pair(key, value.value)] else []) + Rewritten(pairs[1..], key, None)
  }

  lemma {:induction false} RewrittenFits(pairs: seq<Pair>, key: Bytes, value: Option<Bytes>)
    requires AllFit(pairs) && |key| < I32_END && (value.Some? ==> |value.value| < I32_END)
    ensures |Rewritten(pairs, key, value)| <= |pairs| && AllFit(Rewritten(pairs, key, value))
  {
    hide SameKey;
    if pairs != [] {
      RewrittenFits(pairs[1..], key, value);
      RewrittenFits(pairs[1..], key, None);
    }
  }

  /** What setting a key makes of the list. */
  function WithKey(pairs: seq<Pair>, key: Bytes, value: Bytes): seq<Pair>
  {
    if Lookup(pairs, key) == None then pairs + [Pair(key, value)] else Rewritten(pairs, key, Some(value))
  }

  /** The pairs with other keys, in order. */
  function Others(pairs: seq<Pair>, key: Bytes): seq<Pair>
  {
    if pairs == [] then [] else (if SameKey(key, pairs[0].key) then [] else [pairs[0]]) + Others(pairs[1..], key)
  }

  /** How many pairs have the key. */
  function Matches(pairs: seq<Pair>, key: Bytes): nat
  {
    if pairs == [] then 0 else (if SameKey(key, pairs[0].key) then 1 else 0) + Matches(pairs[1..], key)
  }

  /** The position of the first pair with the key, or the end. */
  function First(pairs: seq<Pair>, key: Bytes): (i: nat)
    ensures i <= |pairs|
  {
    if pairs == [] || SameKey(key, pairs[0].key) then 0 else 1 + First(pairs[1..], key)
  }

  lemma {:induction false} SameKeyAsItself(key: Bytes)
    ensures SameKey(key, key)
  {
    if key != [] { SameKeyAsItself(key[1..]); }
  }

  lemma {:induction false} NoMatch(pairs: seq<Pair>, key: Bytes)
    ensures Lookup(pairs, key) == None <==> Matches(pairs, key) == 0
    ensures Lookup(pairs, key) == None <==> First(pairs, key) == |pairs|
    ensures Lookup(pairs, key) == None ==> Others(pairs, key) == pairs
  {
    hide SameKey;
    if pairs != [] { NoMatch(pairs[1..], key); }
  }

  lemma {:induction false} JoinLists(a: seq<Pair>, b: seq<Pair>, key: Bytes)
    ensures Others(a + b, key) == Others(a, key) + Others(b, key)
    ensures Matches(a + b, key) == Matches(a, key) + Matches(b, key)
    ensures First(a + b, key) == if First(a, key) < |a| then First(a, key) else |a| + First(b, key)
  {
    hide SameKey;
    if a == [] {
      assert a + b == b;
    } else {
      assert (a + b)[1..] == a[1..] + b;
      JoinLists(a[1..], b, key);
    }
  }

  lemma OnePair(p: Pair, key: Bytes)
    ensures SameKey(key, p.key) ==> Others([p], key) == [] && Matches([p], key) == 1 && First([p], key) == 0
    ensures !SameKey(key, p.key) ==> Others([p], key) == [p] && Matches([p], key) == 0 && First([p], key) == 1
  {
  }

  /** Removing deletes every pair with the key and keeps the others in order. */
  lemma {:induction false} RemoveDeletesAll(pairs: seq<Pair>, key: Bytes)
    ensures Rewritten(pairs, key, None) == Others(pairs, key)
    ensures Matches(Others(pairs, key), key) == 0 && Others(Others(pairs, key), key) == Others(pairs, key)
  {
    hide SameKey;
    if pairs != [] {
      RemoveDeletesAll(pairs[1..], key);
      assert [] + Others(pairs[1..], key) == Others(pairs[1..], key);
      OnePair(pairs[0], key);
      JoinLists([pairs[0]], Others(pairs[1..], key), key);
    }
  }

  /** Rewriting a key that is there leaves it once, where it first was. */
  lemma {:induction false} RewriteLeavesOne(pairs: seq<Pair>, key: Bytes, value: Bytes)
    requires Lookup(pairs, key).Some?
    ensures var r := Rewritten(pairs, key, Some(value));
      var i := First(pairs, key);
      && Matches(r, key) == 1 && Others(r, key) == Others(pairs, key)
      && First(r, key) == i < |r| && r[i] == Pair(key, value)
  {
    hide SameKey;
    var p, rest := pairs[0], pairs[1..];
    var r := Rewritten(pairs, key, Some(value));
    if SameKey(key, p.key) {
      RemoveDeletesAll(rest, key);
      SameKeyAsItself(key);
      OnePair(Pair(key, value), key);
      JoinLists([Pair(key, value)], Rewritten(rest, key, None), key);
    } else {
      RewriteLeavesOne(rest, key, value);
      OnePair(p, key);
      JoinLists([p], Rewritten(rest, key, Some(value)), key);
    }
  }

  /** Setting a key leaves exactly one pair for it, at its first position or at the end if it is new,
      and does not touch the others. */
  lemma SetLeavesOne(pairs: seq<Pair>, key: Bytes, value: Bytes)
    ensures var r := WithKey(pairs, key, value);
      var i := First(pairs, key);
      && Matches(r, key) == 1 && Others(r, key) == Others(pairs, key)
      && First(r, key) == i < |r| && r[i] == Pair(key, value)
  {
    hide SameKey, Rewritten;
    NoMatch(pairs, key);
    if Lookup(pairs, key) == None {
      SameKeyAsItself(key);
      OnePair(Pair(key, value), key);
      JoinLists(pairs, [Pair(key, value)], key);
    } else {
      RewriteLeavesOne(pairs, key, value);
    }
  }

  lemma {:induction false} LookupIsFirst(pairs: seq<Pair>, key: Bytes)
    ensures Lookup(pairs, key) == if First(pairs, key) < |pairs| then Some(pairs[First(pairs, key)].value) else None
  {
    hide SameKey;
    if pairs != [] { LookupIsFirst(pairs[1..], key); }
  }

  /** The value set is the value found. */
  lemma SetThenGet(pairs: seq<Pair>, key: Bytes, value: Bytes)
    ensures Lookup(WithKey(pairs, key, value), key) == Some(value)
  {
    SetLeavesOne(pairs, key, value);
    LookupIsFirst(WithKey(pairs, key, value), key);
  }

  class Builder {
    /** The bytes written so far; none before the first pair. */
    var buffer: Bytes
    ghost var pairs: seq<Pair>

    ghost predicate Valid()
      reads this
    {
      if buffer == [] then pairs == [] else AllFit(pairs) && buffer == Encode(pairs)
    }

    /** A copy of existing metadata, or nothing for the null string. */
    constructor (m: Bytes, ghost initial: seq<Pair>)
      requires MetadataIs(m, initial)
      ensures Valid() && pairs == initial
    {
      var size := SizeOf(m, initial);
      buffer := m[..size];
      pairs := initial;
    }

    lemma Reads()
      requires Valid()
      ensures MetadataIs(buffer, pairs) && AllFit(pairs)
    {
    }

    /** Appends a pair, and counts it in the first word. */
    method Append(key: Bytes, value: Bytes)
      requires Valid() && AllFit(pairs + [Pair(key, value)])
      modifies this
      ensures Valid() && pairs == old(pairs) + [Pair(key, value)]
    {
      hide Le32, U32At, Entries;
      LastFits(pairs, Pair(key, value));
      if buffer == [] {
        buffer := buffer + Le32(0);
        NoEntries();
      }
      assert buffer == Encode(pairs);
      FirstWord(pairs);
      var n := U32At(buffer, 0);
      buffer := buffer + Le32(|key|) + key + Le32(|value|) + value;
      buffer := Le32(n + 1) + buffer[4..];
      EncodeNext(pairs, Pair(key, value));
      pairs := pairs + [Pair(key, value)];
    }

    static lemma LastFits(pairs: seq<Pair>, p: Pair)
      requires AllFit(pairs + [p])
      ensures AllFit(pairs) && Fits(p)
    {
      forall i | 0 <= i < |pairs| ensures Fits(pairs[i]) { assert (pairs + [p])[i] == pairs[i]; }
      assert (pairs + [p])[|pairs|] == p;
    }

    static lemma FirstWord(pairs: seq<Pair>)
      requires AllFit(pairs)
      ensures U32At(Encode(pairs), 0) == |pairs|
    {
    }

    static lemma EncodeNext(pairs: seq<Pair>, p: Pair)
      requires AllFit(pairs) && Fits(p) && AllFit(pairs + [p])
      ensures Encode(pairs + [p])
        == Le32(|pairs| + 1) + (Encode(pairs) + Le32(|p.key|) + p.key + Le32(|p.value|) + p.value)[4..]
    {
      hide Le32;
      assert (pairs + [p])[..|pairs|] == pairs;
      assert Encode(pairs + [p]) == Le32(|pairs| + 1) + (Entries(pairs) + Entry(p));
    }

    /** Sets a key. */
    method Set(key: Bytes, value: Bytes)
      requires Valid() && |key| < I32_END && |value| < I32_END && |pairs| + 1 < I32_END
      modifies this
      ensures Valid() && pairs == WithKey(old(pairs), key, value)
    {
      SetInternal(key, Some(value));
    }

    /** Removes a key. */
    method Remove(key: Bytes)
      requires Valid() && |key| < I32_END && |pairs| + 1 < I32_END
      modifies this
      ensures Valid() && pairs == Others(old(pairs), key)
    {
      RemoveDeletesAll(pairs, key);
      SetInternal(key, None);
    }

    /** Sets or removes a key by copying the pairs one by one. */
    method SetInternal(key: Bytes, value: Option<Bytes>)
      requires Valid() && |key| < I32_END && (value.Some? ==> |value.value| < I32_END) && |pairs| + 1 < I32_END
      modifies this
      ensures Valid()
      ensures pairs == if value.Some? && Lookup(old(pairs), key) == None then old(pairs) + [Pair(key, value.value)]
                       else Rewritten(old(pairs), key, value)
    {
      Reads();
      var current := GetValue(buffer, key, pairs);
      if value == None && current == None {
        NothingRewritten(pairs, key, value);
        return;
      }
      if value != None && current == None {
        Append(key, value.value);
        return;
      }
      var copy := CopyRewritten(key, value);
      buffer, pairs := copy.buffer, copy.pairs;
    }

    /** Copies the pairs one by one, the first one with the key changed and the others with it left out. */
    method CopyRewritten(key: Bytes, value: Option<Bytes>) returns (copy: Builder)
      requires Valid() && |key| < I32_END && (value.Some? ==> |value.value| < I32_END)
      ensures fresh(copy) && copy.Valid() && copy.pairs == Rewritten(pairs, key, value)
    {
      hide Rewritten, AllFit, SameKey, Encode, MetadataIs;
      Reads();
      RewrittenFits(pairs, key, value);
      var reader := new Reader(buffer, pairs);
      NullIsEmpty();
      copy := new Builder([], []);
      var left := value;
      while reader.remainingKeys > 0
        invariant reader.Valid() && copy.Valid() && fresh(copy)
        invariant copy.pairs + Rewritten(reader.rest, key, left) == Rewritten(pairs, key, value)
        decreases |reader.rest|
      {
        ghost var rest := reader.rest;
        var pair := reader.Read();
        left := copy.Take(pair.value, key, left, rest, Rewritten(pairs, key, value));
      }
      RewrittenNext(reader.rest, key, left);
    }

    static lemma NullIsEmpty()
      ensures MetadataIs([], [])
    {
    }

    /** Takes over one pair; what is left is the value still to be written. */
    method Take(pair: Pair, key: Bytes, value: Option<Bytes>, ghost rest: seq<Pair>, ghost all: seq<Pair>)
        returns (left: Option<Bytes>)
      requires Valid() && rest != [] && pair == rest[0] && pairs + Rewritten(rest, key, value) == all && AllFit(all)
      modifies this
      ensures Valid() && pairs + Rewritten(rest[1..], key, left) == all
    {
      hide Rewritten, AllFit, SameKey, Encode, Fits;
      RewrittenNext(rest, key, value);
      if SameKey(key, pair.key) {
        if value.Some? {
          RoomFor(pairs, [Pair(key, value.value)], Rewritten(rest[1..], key, None), all);
          Append(key, value.value);
        }
        return None;
      }
      RoomFor(pairs, [pair], Rewritten(rest[1..], key, value), all);
      assert pair == Pair(pair.key, pair.value);
      Append(pair.key, pair.value);
      return value;
    }

    static lemma RewrittenNext(rest: seq<Pair>, key: Bytes, value: Option<Bytes>)
      ensures rest == [] ==> Rewritten(rest, key, value) == []
      ensures rest != [] && !SameKey(key, rest[0].key) ==>
        Rewritten(rest, key, value) == [rest[0]] + Rewritten(rest[1..], key, value)
      ensures rest != [] && SameKey(key, rest[0].key) ==>
        Rewritten(rest, key, value) ==
          (if value.Some? then [Pair(key, value.value)] else []) + Rewritten(rest[1..], key, None)
    {
    }

    static lemma RoomFor(a: seq<Pair>, b: seq<Pair>, c: seq<Pair>, all: seq<Pair>)
      requires a + (b + c) == all && AllFit(all)
      ensures AllFit(a + b) && (a + b) + c == all
    {
      assert (a + b) + c == all;
      forall i | 0 <= i < |a + b| ensures Fits((a + b)[i]) { assert (a + b)[i] == all[i]; }
    }

    static lemma {:induction false} NothingRewritten(pairs: seq<Pair>, key: Bytes, value: Option<Bytes>)
      requires Lookup(pairs, key) == None
      ensures Rewritten(pairs, key, value) == pairs
    {
      hide SameKey;
      if pairs != [] { NothingRewritten(pairs[1..], key, value); }
    }
  }
}
