/** The address map: an open-addressing hash table from source addresses to builder references.
    The hash is a parameter; addresses are numbers, with 0 for null. */
module RefMap {
  import opened FlatBytes

  const MIN_BUCKETS: nat := 8
  const NOT_FOUND: int := 0

  datatype Item = Item(src: nat, ref: int)

  /** The load factor 0.7 in 256ths, rounded down. */
  function Threshold(buckets: nat): (n: nat)
    ensures buckets > 0 ==> n < buckets
  {
    buckets * 179 / 256
  }

  predicate AboveLoadFactor(count: nat, buckets: nat)
  {
    count >= Threshold(buckets)
  }

  /** A table that is not above it is less than 0.7 full; one entry more than an overfull table has is
      more than 179/256 of it. */
  lemma LoadFactor(count: nat, buckets: nat)
    ensures buckets > 0 && !AboveLoadFactor(count, buckets) ==> 10 * count < 7 * buckets
    ensures AboveLoadFactor(count, buckets) ==> 256 * (count + 1) > 179 * buckets
  {
  }

  /** `(k + i) & (buckets - 1)` for a power of two. */
  function Probe(k: nat, i: nat, buckets: nat): (j: nat)
    requires buckets > 0
    ensures j < buckets
  {
    (k + i) % buckets
  }

  // ------------------------------------------------------------- the table as a map

  /** The first `i` probes from `k` meet only occupied slots. */
  ghost predicate Occupied(t: seq<Item>, k: nat, i: nat)
    requires |t| > 0
  {
    forall x: nat | x < i :: t[Probe(k, x, |t|)].src != 0
  }

  ghost predicate PathTo(t: seq<Item>, k: nat, i: nat, src: nat)
    requires |t| > 0
  {
    t[Probe(k, i, |t|)].src == src && Occupied(t, k, i)
  }

  /** The occupied slots hold the entries of `m`, each once and where probing for it leads. */
  ghost predicate Represents(t: seq<Item>, hash: nat -> nat, m: map<nat, int>)
  {
    && |t| > 0
    && (forall j | 0 <= j < |t| && t[j].src != 0 :: t[j].src in m && m[t[j].src] == t[j].ref)
    && (forall i, j | 0 <= i < j < |t| && t[i].src != 0 :: t[i].src != t[j].src)
    && (forall src | src in m :: src != 0 && exists i: nat :: PathTo(t, hash(src), i, src))
  }

  /** From any start some probe reaches slot `e`. */
  lemma ProbeReaches(k: nat, e: nat, buckets: nat) returns (i: nat)
    requires e < buckets
    ensures Probe(k, i, buckets) == e
  {
    i := (e - k) % buckets;
    var q := (e - k) / buckets;
    assert k + i == e - buckets * q;
    MultipleOf(k + i - e, buckets, -q);
    RemainderIs(k + i, e, buckets);
  }

  lemma RemainderIs(x: int, r: int, b: int)
    requires 0 <= r < b && (x - r) % b == 0
    ensures x % b == r
  {
    var p := (x - r) / b;
    assert x == b * p + r;
    OneRemainder(x, r, p, b);
  }

  lemma OneRemainder(x: int, r: int, p: int, b: int)
    requires 0 <= r < b && x == b * p + r
    ensures x % b == r
  {
    var q := x / b;
    assert b * (p - q) == x % b - r;
    if p - q >= 0 { NoSmallMultiple(b, p - q); } else { NoSmallMultiple(b, q - p); }
  }

  ghost function Sources(t: seq<Item>, n: nat): set<nat>
    requires n <= |t|
  {
    set j | 0 <= j < n :: t[j].src
  }

  lemma {:induction false} SourcesCount(t: seq<Item>, n: nat)
    requires n <= |t|
    requires forall i, j | 0 <= i < j < |t| :: t[i].src != t[j].src
    ensures |Sources(t, n)| == n
  {
    if n > 0 {
      SourcesCount(t, n - 1);
      assert Sources(t, n) == Sources(t, n - 1) + {t[n - 1].src};
      assert t[n - 1].src !in Sources(t, n - 1);
    }
  }

  lemma SubsetSize<T>(a: set<T>, b: set<T>)
    requires a <= b
    ensures |a| <= |b|
  {
    assert b == a + (b - a);
  }

  /** Fewer entries than slots leave a slot empty. */
  lemma EmptySlot(t: seq<Item>, hash: nat -> nat, m: map<nat, int>) returns (e: nat)
    requires Represents(t, hash, m) && |m| < |t|
    ensures e < |t| && t[e].src == 0
  {
    assert |m.Keys| == |m|;
    if forall j | 0 <= j < |t| :: t[j].src != 0 {
      SourcesCount(t, |t|);
      SubsetSize(Sources(t, |t|), m.Keys);
      assert false;
    }
    e :| 0 <= e < |t| && t[e].src == 0;
  }

  lemma PathOf(t: seq<Item>, hash: nat -> nat, m: map<nat, int>, src: nat) returns (i: nat)
    requires Represents(t, hash, m) && src in m
    ensures src != 0 && PathTo(t, hash(src), i, src)
  {
    i :| PathTo(t, hash(src), i, src);
  }

  /** An empty slot at the end of a path of occupied ones: the address is not in the map. */
  lemma NotInMap(t: seq<Item>, hash: nat -> nat, m: map<nat, int>, src: nat, i: nat)
    requires Represents(t, hash, m) && Occupied(t, hash(src), i) && t[Probe(hash(src), i, |t|)].src == 0
    requires forall x: nat | x < i :: t[Probe(hash(src), x, |t|)].src != src
    ensures src !in m
  {
  }

  /** Storing a new address in the empty slot its probing leads to. */
  lemma Stored(t: seq<Item>, hash: nat -> nat, m: map<nat, int>, src: nat, ref: int, i: nat)
    requires Represents(t, hash, m) && src != 0 && src !in m
    requires Occupied(t, hash(src), i) && t[Probe(hash(src), i, |t|)].src == 0
    ensures Represents(t[Probe(hash(src), i, |t|) := Item(src, ref)], hash, m[src := ref])
  {
    var j := Probe(hash(src), i, |t|);
    var t' := t[j := Item(src, ref)];
    forall s | s in m[src := ref] ensures s != 0 && exists x: nat :: PathTo(t', hash(s), x, s) {
      if s == src {
        assert PathTo(t', hash(s), i, s);
      } else {
        var x := PathOf(t, hash, m, s);
        assert PathTo(t', hash(s), x, s);
      }
    }
  }

  /** Replacing the reference of an address that is there. */
  lemma Replaced(t: seq<Item>, hash: nat -> nat, m: map<nat, int>, src: nat, ref: int, j: nat)
    requires Represents(t, hash, m) && j < |t| && t[j].src == src && src != 0
    ensures src in m && Represents(t[j := Item(src, ref)], hash, m[src := ref])
  {
    var t' := t[j := Item(src, ref)];
    forall s | s in m[src := ref] ensures s != 0 && exists x: nat :: PathTo(t', hash(s), x, s) {
      var x := PathOf(t, hash, m, s);
      assert PathTo(t', hash(s), x, s);
    }
  }

  lemma NothingStored(t: seq<Item>, hash: nat -> nat)
    requires |t| > 0 && forall j | 0 <= j < |t| :: t[j].src == 0
    ensures Represents(t, hash, map[])
  {
  }

  // ------------------------------------------------------------------------ growing

  /** Some doubling of the least size is large enough. */
  method BucketsFor(count: nat) returns (buckets: nat)
    ensures buckets >= MIN_BUCKETS && IsPow2(buckets) && !AboveLoadFactor(count, buckets)
    ensures buckets > MIN_BUCKETS ==> AboveLoadFactor(count, buckets / 2)
  {
    hide IsPow2;
    SmallPowers();
    buckets := MIN_BUCKETS;
    while AboveLoadFactor(count, buckets)
      invariant buckets >= MIN_BUCKETS && IsPow2(buckets)
      invariant buckets > MIN_BUCKETS ==> AboveLoadFactor(count, buckets / 2)
      decreases 2 * count + 2 - buckets
    {
      Doubled(buckets);
      buckets := buckets * 2;
    }
  }

  lemma Doubled(b: nat)
    requires IsPow2(b)
    ensures IsPow2(b * 2)
  {
  }

  /** `part` holds the entries of the first `n` slots. */
  ghost predicate Reinserted(t: seq<Item>, n: nat, m: map<nat, int>, part: map<nat, int>)
    requires n <= |t|
  {
    && (forall src | src in part :: src in m && part[src] == m[src])
    && (forall j | 0 <= j < n && t[j].src != 0 :: t[j].src in part)
    && (forall j | n <= j < |t| :: t[j].src !in part)
  }

  lemma ReinsertSkips(t: seq<Item>, n: nat, m: map<nat, int>, part: map<nat, int>)
    requires n < |t| && Reinserted(t, n, m, part) && t[n].src == 0
    ensures Reinserted(t, n + 1, m, part)
  {
  }

  lemma ReinsertTakes(t: seq<Item>, hash: nat -> nat, n: nat, m: map<nat, int>, part: map<nat, int>)
    requires Represents(t, hash, m) && n < |t| && Reinserted(t, n, m, part) && t[n].src != 0
    ensures Reinserted(t, n + 1, m, part[t[n].src := t[n].ref]) && |part| < |m|
  {
    hide Represents;
    SlotFacts(t, hash, m, n);
    SmallerMap(part, m, t[n].src) by { assert t[n].src !in part && part.Keys <= m.Keys; }
    TakesSlot(t, n, m, part);
  }

  lemma TakesSlot(t: seq<Item>, n: nat, m: map<nat, int>, part: map<nat, int>)
    requires n < |t| && Reinserted(t, n, m, part) && t[n].src in m && m[t[n].src] == t[n].ref
    requires forall j | n < j < |t| :: t[j].src != t[n].src
    ensures Reinserted(t, n + 1, m, part[t[n].src := t[n].ref])
  {
  }

  lemma SmallerMap(part: map<nat, int>, m: map<nat, int>, src: nat)
    requires part.Keys <= m.Keys && src in m && src !in part
    ensures |part| < |m|
  {
    SubsetSize(part.Keys + {src}, m.Keys);
    assert |part.Keys| == |part| && |m.Keys| == |m|;
  }

  lemma SlotFacts(t: seq<Item>, hash: nat -> nat, m: map<nat, int>, n: nat)
    requires Represents(t, hash, m) && n < |t|
    ensures 0 !in m
    ensures t[n].src != 0 ==> t[n].src in m && m[t[n].src] == t[n].ref
    ensures t[n].src != 0 ==> forall j | n < j < |t| :: t[j].src != t[n].src
  {
  }

  lemma AllReinserted(t: seq<Item>, hash: nat -> nat, m: map<nat, int>, part: map<nat, int>)
    requires Represents(t, hash, m) && Reinserted(t, |t|, m, part)
    ensures part == m
  {
    forall src | src in m ensures src in part {
      var i := PathOf(t, hash, m, src);
      assert t[Probe(hash(src), i, |t|)].src == src;
    }
  }

  class Map {
    const hash: nat -> nat
    const minTable: array<Item>
    var count: nat
    var buckets: nat
    var table: array?<Item>

    /** The references inserted so far, by address. */
    ghost var entries: map<nat, int>

    ghost predicate Valid()
      reads this, minTable, table
    {
      && minTable.Length == MIN_BUCKETS && count == |entries|
      && if table == null then buckets == 0 && entries == map[] else Tabled(table[..])
    }

    ghost predicate Tabled(t: seq<Item>)
      reads this
    {
      && |t| == buckets && MIN_BUCKETS <= buckets && IsPow2(buckets) && count <= Threshold(buckets)
      && (table == minTable <==> buckets == MIN_BUCKETS) && Represents(t, hash, entries)
    }

    constructor (h: nat -> nat)
      ensures Valid() && entries == map[] && hash == h && fresh(minTable) && table == null
    {
      hash, count, buckets, table, entries := h, 0, 0, null, map[];
      minTable := new Item[MIN_BUCKETS];
    }

    /** The probe loop of insertion and lookup: the slot that holds `src`, or the empty slot where it
        belongs. It ends because a slot is empty. */
    method Slot(src: nat) returns (j: nat, ghost i: nat)
      requires Valid() && table != null
      ensures j < table.Length && (table[j].src == src || table[j].src == 0)
      ensures src in entries <==> src != 0 && table[j].src == src
      ensures |table[..]| > 0 && j == Probe(hash(src), i, |table[..]|) && Occupied(table[..], hash(src), i)
    {
      var k := hash(src);
      ghost var e := EmptySlot(table[..], hash, entries);
      ghost var end := ProbeReaches(k, e, buckets);
      var n := 0;
      j := Probe(k, n, buckets);
      while table[j].src != 0
        invariant n <= end && j == Probe(k, n, buckets) && Occupied(table[..], k, n)
        invariant forall x: nat | x < n :: table[..][Probe(k, x, buckets)].src != src
        decreases end - n
      {
        if table[j].src == src { return j, n; }
        n := n + 1;
        j := Probe(k, n, buckets);
      }
      NotInMap(table[..], hash, entries, src, n);
      i := n;
    }

    method Find(src: nat) returns (ref: int)
      requires Valid()
      ensures ref == if src in entries then entries[src] else NOT_FOUND
    {
      if count == 0 { return NOT_FOUND; }
      var j, _ := Slot(src);
      ref := if table[j].src == 0 then NOT_FOUND else table[j].ref;
    }

    /** What the map may write to: the table it has, and the built-in one. */
    ghost function Repr(): set<object>
      reads this
    {
      {this, minTable} + if table == null then {} else {table}
    }

    /** Inserts or replaces. A null address is not stored. */
    method Insert(src: nat, ref: int) returns (r: int)
      requires Valid()
      modifies Repr()
      ensures Valid() && fresh(Repr() - old(Repr())) && r == ref
      ensures entries == if src == 0 then old(entries) else old(entries)[src := ref]
      ensures !AboveLoadFactor(old(count), old(buckets)) ==> table == old(table) && buckets == old(buckets)
      ensures !AboveLoadFactor(old(count), old(buckets)) && old(table) != minTable ==> minTable[..] == old(minTable[..])
      decreases if AboveLoadFactor(count, buckets) then 3 else 0
    {
      if src == 0 { return ref; }
      if AboveLoadFactor(count, buckets) {
        Resize(count * 2);
      }
      Put(src, ref);
      r := ref;
    }

    /** Makes the table large enough for `request` entries and for those it has, growing or shrinking it.
        Each entry is inserted again, which never makes the table grow once more. */
    method Resize(request: nat)
      requires Valid()
      modifies Repr()
      ensures Valid() && fresh(Repr() - old(Repr())) && entries == old(entries)
      ensures !AboveLoadFactor(Max(request, count), buckets) && table != null
      ensures buckets > MIN_BUCKETS ==> AboveLoadFactor(Max(request, count), buckets / 2)
      decreases 2
    {
      hide Represents, Threshold, IsPow2;
      var n: nat := if request < count then count else request;
      var wanted := BucketsFor(n);
      if buckets == wanted {
        assert table != null by { NoTable(); }
        return;
      }
      var tOld, bucketsOld := table, buckets;
      ghost var all, t := entries, if table == null then [] else table[..];
      EmptyTable(wanted);
      if tOld == null { return; }
      Reinsert(tOld, bucketsOld, all, t, n);
    }

    lemma NoTable()
      requires Valid()
      ensures table == null ==> buckets == 0 && count == 0
    {
    }

    /** An empty table of another size. */
    method EmptyTable(wanted: nat)
      requires Valid() && wanted >= MIN_BUCKETS && IsPow2(wanted) && wanted != buckets
      modifies this, minTable
      ensures Valid() && entries == map[] && buckets == wanted && table != null && table != old(table)
      ensures table == minTable || fresh(table)
      ensures old(table) == minTable ==> minTable[..] == old(minTable[..])
    {
      if wanted == MIN_BUCKETS {
        forall j | 0 <= j < minTable.Length { minTable[j] := Item(0, 0); }
        table := minTable;
      } else {
        table := new Item[wanted](_ => Item(0, 0));
      }
      buckets, count, entries := wanted, 0, map[];
      NothingStored(table[..], hash);
    }

    /** Inserts the entries of the old table. */
    method Reinsert(tOld: array<Item>, bucketsOld: nat, ghost all: map<nat, int>, ghost t: seq<Item>, ghost n: nat)
      requires Valid() && entries == map[] && table != null && tOld != table && bucketsOld == tOld.Length &&
        tOld[..] == t
      requires Represents(t, hash, all) && |all| <= n && !AboveLoadFactor(n, buckets)
      modifies Repr()
      ensures Valid() && Repr() == old(Repr()) && entries == all && buckets == old(buckets) && table != null
      decreases 1
    {
      hide Represents, Reinserted, Threshold, Valid;
      var i := 0;
      assert Reinserted(t, 0, all, entries) by { StartReinserting(t, all); }
      while i < bucketsOld
        invariant 0 <= i <= |t| == bucketsOld && Valid() && table == old(table) != null && buckets == old(buckets)
        invariant tOld[..] == t && Reinserted(t, i, all, entries)
      {
        if tOld[i].src != 0 {
          ReinsertTakes(t, hash, i, all, entries);
          NotYetFull(|all|, n);
          var _ := Insert(tOld[i].src, tOld[i].ref);
        } else {
          ReinsertSkips(t, i, all, entries);
        }
        i := i + 1;
      }
      AllReinserted(t, hash, all, entries);
    }

    lemma NotYetFull(size: nat, n: nat)
      requires Valid() && |entries| < size <= n && !AboveLoadFactor(n, buckets)
      ensures !AboveLoadFactor(count, buckets)
    {
    }

    static lemma StartReinserting(t: seq<Item>, all: map<nat, int>)
      ensures Reinserted(t, 0, all, map[])
    {
    }

    /** Stores in a table that is not too full. */
    method Put(src: nat, ref: int)
      requires Valid() && src != 0 && table != null && !AboveLoadFactor(count, buckets)
      modifies this`count, this`entries, table
      ensures Valid() && entries == old(entries)[src := ref]
    {
      var j, i := Slot(src);
      if table[j].src == 0 {
        Stored(table[..], hash, entries, src, ref, i);
        count := count + 1;
      } else {
        Replaced(table[..], hash, entries, src, ref, j);
      }
      ghost var t := table[..][j := Item(src, ref)];
      table[j] := Item(src, ref);
      assert table[..] == t;
      entries := entries[src := ref];
    }

    /** Removes all entries and keeps the table. */
    method Reset()
      requires Valid()
      modifies this`count, this`entries, table
      ensures Valid() && entries == map[] && table == old(table) && buckets == old(buckets)
    {
      hide Represents, Threshold, IsPow2;
      if count != 0 {
        forall j | 0 <= j < table.Length { table[j] := Item(0, 0); }
        NothingStored(table[..], hash);
      }
      count, entries := 0, map[];
    }

    /** Removes all entries and the table. */
    method Clear()
      requires Valid()
      modifies this`count, this`buckets, this`table, this`entries
      ensures Valid() && entries == map[] && table == null
    {
      count, buckets, table, entries := 0, 0, null, map[];
    }
  }
}
