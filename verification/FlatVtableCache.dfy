/** The builder's cache of emitted vtables: hash chains with move-to-front over descriptors that
    share stored copies of the vtables. Descriptors and copies are named by index, since the
    buffers holding them may move when they grow. */
module FlatVtableCache {
  import opened FlatBytes
  import opened FlatTables

  /** `vtRef` is one above the vtable's address, `vbStart` the place of its copy. */
  datatype Descriptor = Descriptor(vtRef: int, nestId: int, vbStart: nat, next: nat)

  /** What identifies a cached vtable: its hash bucket, its entries and the buffer it belongs to. */
  datatype Key = Key(bucket: nat, vt: seq<int>, nestId: int)

  const MIN_HASH_COUNT: nat := 64

  // ------------------------------------------------------------------------ chains

  /** Following `next` from `head` visits exactly `chain`. */
  ghost predicate Linked(head: nat, vd: seq<Descriptor>, chain: seq<nat>)
  {
    && head == (if chain == [] then 0 else chain[0])
    && (forall k | 0 <= k < |chain| :: 1 <= chain[k] < |vd|)
    && (forall k | 0 <= k < |chain| :: vd[chain[k]].next == if k + 1 < |chain| then chain[k + 1] else 0)
  }

  ghost predicate Distinct(chain: seq<nat>)
  {
    forall j, k | 0 <= j < k < |chain| :: chain[j] != chain[k]
  }

  ghost function ToFront(chain: seq<nat>, k: nat): (c: seq<nat>)
    requires k < |chain|
    ensures |c| == |chain|
  {
    [chain[k]] + chain[..k] + chain[k + 1..]
  }

  /** Where the `i`-th descriptor of the new chain was before. */
  function FrontIndex(k: nat, i: nat): nat
  {
    if i == 0 then k else if i <= k then i - 1 else i
  }

  lemma ToFrontElements(chain: seq<nat>, k: nat)
    requires k < |chain|
    ensures forall x :: x in ToFront(chain, k) <==> x in chain
  {
  }

  lemma ToFrontDistinct(chain: seq<nat>, k: nat)
    requires k < |chain| && Distinct(chain)
    ensures Distinct(ToFront(chain, k))
  {
  }

  /** Unlinking the `k`-th descriptor and linking it in front. */
  lemma MoveToFront(head: nat, vd: seq<Descriptor>, chain: seq<nat>, k: nat, moved: seq<Descriptor>)
    requires Linked(head, vd, chain) && Distinct(chain) && 0 < k < |chain|
    requires var unlinked := vd[chain[k - 1] := vd[chain[k - 1]].(next := vd[chain[k]].next)];
      moved == unlinked[chain[k] := unlinked[chain[k]].(next := head)]
    ensures Linked(chain[k], moved, ToFront(chain, k))
    ensures |moved| == |vd|
    ensures forall i | 0 <= i < |vd| && i !in chain :: moved[i] == vd[i]
    ensures forall i | 0 <= i < |vd| :: moved[i] == vd[i].(next := moved[i].next)
  {
    var c := ToFront(chain, k);
    forall i | 0 <= i < |c| ensures c[i] == chain[FrontIndex(k, i)] && 1 <= c[i] < |vd| {}
    forall i | 0 <= i < |c| ensures moved[c[i]].next == if i + 1 < |c| then c[i + 1] else 0 {
      var p := FrontIndex(k, i);
      assert c[i] == chain[p] && (p != k ==> chain[p] != chain[k]) && (p != k - 1 ==> chain[p] != chain[k - 1]);
      if i + 1 < |c| { assert c[i + 1] == chain[FrontIndex(k, i + 1)]; }
    }
  }

  // -------------------------------------------------------------- stored copies

  /** A stored copy starts with its own size in bytes. */
  predicate Copied(vb: seq<int>, start: nat)
  {
    start < |vb| && 4 <= vb[start] && vb[start] % 2 == 0 && start + vb[start] / 2 <= |vb|
  }

  function Copy(vb: seq<int>, start: nat): seq<int>
    requires Copied(vb, start)
  {
    vb[start..start + vb[start] / 2]
  }

  /** The descriptor `i` stands for `vt` in the buffer `nestId`. */
  ghost predicate Describes(vd: seq<Descriptor>, vb: seq<int>, i: nat, vt: seq<int>, nestId: int)
  {
    i < |vd| && Copied(vb, vd[i].vbStart) && Copy(vb, vd[i].vbStart) == vt && vd[i].nestId == nestId
  }

  lemma AppendKeepsCopy(vb: seq<int>, more: seq<int>, start: nat)
    requires Copied(vb, start)
    ensures Copied(vb + more, start) && Copy(vb + more, start) == Copy(vb, start)
  {
  }

  lemma NewCopy(vb: seq<int>, vt: seq<int>)
    requires ValidVt(vt)
    ensures Copied(vb + vt, |vb|) && Copy(vb + vt, |vb|) == vt
  {
  }

  /** What a descriptor in bucket `b` says is known. */
  ghost predicate KnownAt(vd: seq<Descriptor>, vb: seq<int>, known: map<Key, int>, b: nat, i: nat)
  {
    i < |vd| && Copied(vb, vd[i].vbStart) &&
    var key := Key(b, Copy(vb, vd[i].vbStart), vd[i].nestId);
    key in known && known[key] == vd[i].vtRef
  }

  ghost predicate InChain(vd: seq<Descriptor>, vb: seq<int>, chain: seq<nat>, vt: seq<int>, nestId: int)
  {
    exists k :: 0 <= k < |chain| && Describes(vd, vb, chain[k], vt, nestId)
  }

  /** The chain of bucket `b` is well linked, its descriptors belong to it and say what is known. */
  ghost predicate BucketOk(head: nat, vd: seq<Descriptor>, vb: seq<int>, chain: seq<nat>, bucketOf: seq<nat>,
      known: map<Key, int>, b: nat)
  {
    && Linked(head, vd, chain) && Distinct(chain) && |bucketOf| == |vd|
    && (forall k | 0 <= k < |chain| :: bucketOf[chain[k]] == b && KnownAt(vd, vb, known, b, chain[k]))
    && (forall key | key in known && key.bucket == b :: InChain(vd, vb, chain, key.vt, key.nestId))
  }

  /** Changing only links outside the chain, and adding copies, keeps a bucket. */
  lemma BucketKept(head: nat, vd: seq<Descriptor>, vb: seq<int>, chain: seq<nat>, bucketOf: seq<nat>,
      known: map<Key, int>, b: nat, vd': seq<Descriptor>, more: seq<int>, bucketOf': seq<nat>, known': map<Key, int>)
    requires BucketOk(head, vd, vb, chain, bucketOf, known, b)
    requires |vd| <= |vd'| == |bucketOf'| && bucketOf'[..|vd|] == bucketOf
    requires forall i | 0 <= i < |vd| && bucketOf[i] == b :: vd'[i] == vd[i]
    requires forall key: Key | key.bucket == b ::
      (key in known <==> key in known') &&
      (key in known ==> known'[key] == known[key])
    ensures BucketOk(head, vd', vb + more, chain, bucketOf', known', b)
  {
    forall k | 0 <= k < |chain| ensures bucketOf'[chain[k]] == b && KnownAt(vd', vb + more, known', b, chain[k]) {
      assert KnownAt(vd, vb, known, b, chain[k]);
      assert bucketOf'[chain[k]] == bucketOf'[..|vd|][chain[k]];
      AppendKeepsCopy(vb, more, vd[chain[k]].vbStart);
    }
    forall key | key in known' && key.bucket == b ensures InChain(vd', vb + more, chain, key.vt, key.nestId) {
      assert InChain(vd, vb, chain, key.vt, key.nestId);
      var k :| 0 <= k < |chain| && Describes(vd, vb, chain[k], key.vt, key.nestId);
      assert bucketOf[chain[k]] == b;
      AppendKeepsCopy(vb, more, vd[chain[k]].vbStart);
      assert Describes(vd', vb + more, chain[k], key.vt, key.nestId);
    }
  }

  /** Moving a descriptor to the front keeps what its bucket knows. */
  lemma FrontKeepsBucket(head: nat, vd: seq<Descriptor>, vb: seq<int>, chain: seq<nat>, bucketOf: seq<nat>,
      known: map<Key, int>, b: nat, k: nat, moved: seq<Descriptor>)
    requires BucketOk(head, vd, vb, chain, bucketOf, known, b) && k < |chain|
    requires Linked(chain[k], moved, ToFront(chain, k)) && |moved| == |vd|
    requires forall i | 0 <= i < |vd| :: moved[i] == vd[i].(next := moved[i].next)
    ensures BucketOk(chain[k], moved, vb, ToFront(chain, k), bucketOf, known, b)
  {
    var c := ToFront(chain, k);
    ToFrontElements(chain, k);
    ToFrontDistinct(chain, k);
    forall j | 0 <= j < |c| ensures bucketOf[c[j]] == b && KnownAt(moved, vb, known, b, c[j]) {
      assert c[j] in chain;
      assert KnownAt(vd, vb, known, b, c[j]);
    }
    forall key | key in known && key.bucket == b ensures InChain(moved, vb, c, key.vt, key.nestId) {
      assert InChain(vd, vb, chain, key.vt, key.nestId);
      var j :| 0 <= j < |chain| && Describes(vd, vb, chain[j], key.vt, key.nestId);
      assert chain[j] in c;
      var i :| 0 <= i < |c| && c[i] == chain[j];
      assert Describes(moved, vb, c[i], key.vt, key.nestId);
    }
  }

  /** Linking a new descriptor in front makes exactly its own key known. */
  lemma InsertIntoBucket(head: nat, vd: seq<Descriptor>, vb: seq<int>, chain: seq<nat>, bucketOf: seq<nat>,
      known: map<Key, int>, b: nat, d: Descriptor, more: seq<int>, vt: seq<int>)
    requires BucketOk(head, vd, vb, chain, bucketOf, known, b) && |vd| >= 1
    requires d.next == head && Copied(vb + more, d.vbStart) && Copy(vb + more, d.vbStart) == vt
    requires Key(b, vt, d.nestId) !in known
    ensures BucketOk(|vd|, vd + [d], vb + more, [|vd|] + chain, bucketOf + [b], known[Key(b, vt, d.nestId) := d.vtRef],
      b)
  {
    var vd', chain', known' := vd + [d], [|vd|] + chain, known[Key(b, vt, d.nestId) := d.vtRef];
    LinkInFront(head, vd, chain, d);
    forall k | 0 <= k < |chain'| ensures (bucketOf + [b])[chain'[k]] == b &&
      KnownAt(vd', vb + more, known', b, chain'[k]) {
      if k > 0 {
        BucketStep(head, vd, vb, chain, bucketOf, known, b, k - 1);
        AppendKeepsCopy(vb, more, vd[chain[k - 1]].vbStart);
      }
    }
    forall key | key in known' && key.bucket == b ensures InChain(vd', vb + more, chain', key.vt, key.nestId) {
      if key == Key(b, vt, d.nestId) {
        assert Describes(vd', vb + more, chain'[0], key.vt, key.nestId);
      } else {
        assert InChain(vd, vb, chain, key.vt, key.nestId);
        StillInChain(vd, vb, chain, d, more, key.vt, key.nestId);
      }
    }
  }

  lemma LinkInFront(head: nat, vd: seq<Descriptor>, chain: seq<nat>, d: Descriptor)
    requires Linked(head, vd, chain) && Distinct(chain) && d.next == head && |vd| >= 1
    ensures Linked(|vd|, vd + [d], [|vd|] + chain) && Distinct([|vd|] + chain)
  {
  }

  lemma StillInChain(vd: seq<Descriptor>, vb: seq<int>, chain: seq<nat>, d: Descriptor, more: seq<int>, vt: seq<int>,
      nestId: int)
    requires InChain(vd, vb, chain, vt, nestId)
    ensures InChain(vd + [d], vb + more, [|vd|] + chain, vt, nestId)
  {
    var k :| 0 <= k < |chain| && Describes(vd, vb, chain[k], vt, nestId);
    AppendKeepsCopy(vb, more, vd[chain[k]].vbStart);
    assert ([|vd|] + chain)[k + 1] == chain[k];
    assert Describes(vd + [d], vb + more, ([|vd|] + chain)[k + 1], vt, nestId);
  }

  /** What following a chain meets. */
  lemma BucketStep(head: nat, vd: seq<Descriptor>, vb: seq<int>, chain: seq<nat>, bucketOf: seq<nat>,
      known: map<Key, int>, b: nat, k: nat)
    requires BucketOk(head, vd, vb, chain, bucketOf, known, b) && k < |chain|
    ensures 1 <= chain[k] < |vd| == |bucketOf| && bucketOf[chain[k]] == b && KnownAt(vd, vb, known, b, chain[k])
    ensures vd[chain[k]].next == if k + 1 < |chain| then chain[k + 1] else 0
    ensures k + 1 < |chain| ==> chain[k + 1] >= 1
  {
  }

  lemma BucketLinks(head: nat, vd: seq<Descriptor>, vb: seq<int>, chain: seq<nat>, bucketOf: seq<nat>,
      known: map<Key, int>, b: nat)
    requires BucketOk(head, vd, vb, chain, bucketOf, known, b)
    ensures Linked(head, vd, chain) && Distinct(chain)
    ensures forall i | i in chain :: i < |bucketOf| && bucketOf[i] == b
  {
  }

  lemma BucketHead(head: nat, vd: seq<Descriptor>, vb: seq<int>, chain: seq<nat>, bucketOf: seq<nat>,
      known: map<Key, int>, b: nat)
    requires BucketOk(head, vd, vb, chain, bucketOf, known, b)
    ensures head == if chain == [] then 0 else chain[0]
    ensures chain != [] ==> chain[0] >= 1
  {
  }

  lemma HitIsKnown(vd: seq<Descriptor>, vb: seq<int>, known: map<Key, int>, b: nat, i: nat, vt: seq<int>, nestId: int)
    requires KnownAt(vd, vb, known, b, i) && Describes(vd, vb, i, vt, nestId)
    ensures Key(b, vt, nestId) in known && known[Key(b, vt, nestId)] == vd[i].vtRef
  {
  }

  lemma BucketComplete(head: nat, vd: seq<Descriptor>, vb: seq<int>, chain: seq<nat>, bucketOf: seq<nat>,
      known: map<Key, int>, b: nat, key: Key)
    requires BucketOk(head, vd, vb, chain, bucketOf, known, b) && key in known && key.bucket == b
    ensures InChain(vd, vb, chain, key.vt, key.nestId)
  {
  }

  /** Whether a copy of these entries is stored, for whatever buffer. */
  ghost predicate KnownElsewhere(known: map<Key, int>, b: nat, vt: seq<int>)
  {
    exists nestId: int :: Key(b, vt, nestId) in known
  }

  predicate HasCopy(vd: seq<Descriptor>, vb: seq<int>, i: nat, vt: seq<int>)
  {
    i < |vd| && Copied(vb, vd[i].vbStart) && Copy(vb, vd[i].vbStart) == vt
  }

  /** A chain has a copy of exactly the entries that are known. */
  lemma CopiesKnown(head: nat, vd: seq<Descriptor>, vb: seq<int>, chain: seq<nat>, bucketOf: seq<nat>,
      known: map<Key, int>, b: nat, vt: seq<int>)
    requires BucketOk(head, vd, vb, chain, bucketOf, known, b)
    ensures (exists k :: 0 <= k < |chain| && HasCopy(vd, vb, chain[k], vt)) <==> KnownElsewhere(known, b, vt)
  {
    if k :| 0 <= k < |chain| && HasCopy(vd, vb, chain[k], vt) {
      assert KnownAt(vd, vb, known, b, chain[k]);
      assert Key(b, vt, vd[chain[k]].nestId) in known;
    }
    if KnownElsewhere(known, b, vt) {
      var nestId: int :| Key(b, vt, nestId) in known;
      assert InChain(vd, vb, chain, vt, nestId);
      var k :| 0 <= k < |chain| && Describes(vd, vb, chain[k], vt, nestId);
      assert HasCopy(vd, vb, chain[k], vt);
    }
  }

  lemma CopyDescribes(vd: seq<Descriptor>, vb: seq<int>, i: nat, vt: seq<int>, nestId: int)
    requires i < |vd|
    ensures Describes(vd, vb, i, vt, nestId) <==> HasCopy(vd, vb, i, vt) && vd[i].nestId == nestId
  {
  }

  lemma CopyInside(vd: seq<Descriptor>, vb: seq<int>, i: nat, vt: seq<int>)
    requires HasCopy(vd, vb, i, vt)
    ensures i < |vd| && Copied(vb, vd[i].vbStart) && Copy(vb, vd[i].vbStart) == vt
  {
  }

  // ------------------------------------------------------------------------- cache

  class VtableCache {
    var ht: seq<nat>
    var vd: seq<Descriptor>
    var vb: seq<int>
    var vbFlushLimit: nat

    /** The descriptors of each bucket in chain order, and the bucket of each descriptor. */
    ghost var chains: seq<seq<nat>>
    ghost var bucketOf: seq<nat>
    /** What the cache holds: the reference of each vtable known in each buffer. */
    ghost var known: map<Key, int>

    ghost predicate Valid()
      reads this
    {
      && |chains| == |ht| && |bucketOf| == |vd| && (ht != [] ==> |vd| >= 1)
      && (forall b | 0 <= b < |ht| :: BucketOk(ht[b], vd, vb, chains[b], bucketOf, known, b))
      && (forall key | key in known :: key.bucket < |ht| && known[key] != 0)
    }

    constructor (limit: nat)
      ensures Valid() && known == map[] && vbFlushLimit == limit && ht == []
    {
      ht, vd, vb, vbFlushLimit := [], [], [], limit;
      chains, bucketOf, known := [], [], map[];
    }

    /** The hash table and the null descriptor are allocated on first use. */
    method Prepare()
      requires Valid()
      modifies this
      ensures Valid() && known == old(known) && vbFlushLimit == old(vbFlushLimit) && vb == old(vb) && ht != []
      ensures if old(ht) == [] then |ht| == MIN_HASH_COUNT else ht == old(ht) && vd == old(vd)
    {
      if ht == [] {
        ht, vd := seq(MIN_HASH_COUNT, _ => 0), [Descriptor(0, 0, 0, 0)];
        chains, bucketOf := seq(MIN_HASH_COUNT, _ => []), [0];
      }
    }

    function Bucket(hash: int): (b: nat)
      requires ht != []
      reads this
      ensures b < |ht|
    {
      hash % |ht|
    }

    ghost function KeyOf(vt: seq<int>, hash: int, nestId: int): Key
      requires ht != []
      reads this
    {
      Key(Bucket(hash), vt, nestId)
    }

    /** Empties the cache; vtables emitted before will be emitted again. */
    method Flush()
      requires Valid()
      modifies this
      ensures Valid() && known == map[] && vbFlushLimit == old(vbFlushLimit) && |ht| == |old(ht)| &&
        (ht != [] ==> vb == [])
    {
      if ht == [] { return; }
      ht := seq(|ht|, _ => 0);
      vd, vb := vd[..1], [];
      chains, bucketOf, known := seq(|ht|, _ => []), bucketOf[..1], map[];
    }

    /** Searches the chain of the hash's bucket. A hit is moved to the front and its reference
        returned; otherwise `twin` is a descriptor of another buffer with the same entries, or 0. */
    method Lookup(vt: seq<int>, hash: int, nestId: int) returns (ref: int, twin: nat)
      requires Valid() && ht != [] && ValidVt(vt)
      modifies this
      ensures Valid() && known == old(known) && vb == old(vb) && vbFlushLimit == old(vbFlushLimit)
      ensures |ht| == |old(ht)| && |vd| == |old(vd)|
      ensures KeyOf(vt, hash, nestId) in known <==> ref != 0
      ensures ref != 0 ==> ref == known[KeyOf(vt, hash, nestId)]
      ensures twin != 0 ==> twin < |vd| && Copied(vb, vd[twin].vbStart) && Copy(vb, vd[twin].vbStart) == vt
      ensures ref == 0 ==> (twin != 0 <==> KnownElsewhere(known, Bucket(hash), vt))
    {
      hide BucketOk, Describes, InChain, KnownElsewhere;
      var b := Bucket(hash);
      var prev, next;
      ghost var k;
      prev, next, twin, k := Search(b, vt, nestId);
      if twin != 0 { CopyInside(vd, vb, twin, vt); }
      if next != 0 {
        HitIsKnown(vd, vb, known, b, next, vt, nestId);
        ref, twin := vd[next].vtRef, 0;
        if prev != 0 { Promote(b, prev, next, k); }
      } else {
        ref := 0;
        if Key(b, vt, nestId) in known {
          BucketComplete(ht[b], vd, vb, chains[b], bucketOf, known, b, Key(b, vt, nestId));
        }
      }
    }

    /** Compares a descriptor's stored copy with these entries, sizes first. */
    method SameEntries(next: nat, vt: seq<int>) returns (same: bool)
      requires next < |vd| && Copied(vb, vd[next].vbStart) && ValidVt(vt)
      ensures same <==> HasCopy(vd, vb, next, vt)
    {
      var d := vd[next];
      same := vb[d.vbStart] == vt[0] && vb[d.vbStart..d.vbStart + vb[d.vbStart] / 2] == vt;
    }

    /** The first descriptor of the chain for these entries in this buffer and the one before it. */
    method Search(b: nat, vt: seq<int>, nestId: int) returns (prev: nat, next: nat, twin: nat, ghost k: nat)
      requires Valid() && b < |ht| && ValidVt(vt)
      ensures next == 0 ==> !InChain(vd, vb, chains[b], vt, nestId)
      ensures next != 0 ==> k < |chains[b]| && next == chains[b][k] && prev == (if k > 0 then chains[b][k - 1] else 0)
      ensures next != 0 ==>
        Describes(vd, vb, next, vt, nestId) && KnownAt(vd, vb, known, b, next) &&
        (k > 0 ==> prev != 0)
      ensures twin != 0 ==> HasCopy(vd, vb, twin, vt)
      ensures next == 0 ==> (twin != 0 <==> KnownElsewhere(known, b, vt))
    {
      hide BucketOk, KnownElsewhere, HasCopy, Copied, Copy, Describes;
      ghost var chain, at := chains[b], 0;
      k := 0;
      prev, next, twin := 0, ht[b], 0;
      BucketHead(ht[b], vd, vb, chain, bucketOf, known, b);
      while next != 0
        invariant 0 <= k <= |chain| && next == (if k < |chain| then chain[k] else 0) &&
          prev == (if k > 0 then chain[k - 1] else 0)
        invariant forall j | 0 <= j < k :: !Describes(vd, vb, chain[j], vt, nestId)
        invariant forall j | 0 <= j < k :: HasCopy(vd, vb, chain[j], vt) ==> twin != 0
        invariant twin != 0 ==> at < k && twin == chain[at] && HasCopy(vd, vb, twin, vt)
        invariant (k > 0 ==> prev != 0) && (k < |chain| ==> next != 0)
        decreases |chain| - k
      {
        BucketStep(ht[b], vd, vb, chain, bucketOf, known, b, k);
        var same := SameEntries(next, vt);
        var d := vd[next];
        CopyDescribes(vd, vb, next, vt, nestId);
        if same && d.nestId == nestId { return; }
        if same { twin, at := next, k; }
        prev, next, k := next, d.next, k + 1;
      }
      CopiesKnown(ht[b], vd, vb, chain, bucketOf, known, b, vt);
    }

    /** Unlinks the descriptor after `prev` and links it in front. */
    method Promote(b: nat, prev: nat, next: nat, ghost k: nat)
      requires Valid() && b < |ht| && 0 < k < |chains[b]| && prev == chains[b][k - 1] && next == chains[b][k]
      modifies this
      ensures Valid() && known == old(known) && vb == old(vb) && vbFlushLimit == old(vbFlushLimit)
      ensures |ht| == |old(ht)| && |vd| == |old(vd)|
    {
      hide BucketOk, Linked, Distinct, ToFront;
      ghost var was, chain := vd, chains[b];
      BucketStep(ht[b], was, vb, chain, bucketOf, known, b, k);
      BucketStep(ht[b], was, vb, chain, bucketOf, known, b, k - 1);
      BucketLinks(ht[b], was, vb, chain, bucketOf, known, b);
      vd := vd[prev := vd[prev].(next := vd[next].next)];
      vd := vd[next := vd[next].(next := ht[b])];
      MoveToFront(ht[b], was, chain, k, vd);
      FrontKeepsBucket(ht[b], was, vb, chain, bucketOf, known, b, k, vd);
      KeepOthers(was, b);
      ht, chains := ht[b := next], chains[b := ToFront(chain, k)];
    }

    /** Every bucket but `b` survives a change of the links of bucket `b` alone. */
    lemma KeepOthers(was: seq<Descriptor>, b: nat)
      requires |bucketOf| == |vd| == |was| && |chains| == |ht|
      requires forall c | 0 <= c < |ht| :: BucketOk(ht[c], was, vb, chains[c], bucketOf, known, c)
      requires forall i | 0 <= i < |vd| && bucketOf[i] != b :: vd[i] == was[i]
      ensures forall c | 0 <= c < |ht| && c != b :: BucketOk(ht[c], vd, vb, chains[c], bucketOf, known, c)
    {
      hide BucketOk;
      forall c | 0 <= c < |ht| && c != b ensures BucketOk(ht[c], vd, vb, chains[c], bucketOf, known, c) {
        BucketKept(ht[c], was, vb, chains[c], bucketOf, known, c, vd, [], bucketOf, known);
        assert vb + [] == vb;
      }
    }

    /** Remembers the reference of a vtable just emitted, sharing the twin's copy if there is one.
        When the copies, two bytes an entry, would outgrow the limit the cache is emptied instead; a
        limit of 0 is none. */
    method Insert(vt: seq<int>, hash: int, nestId: int, ref: int, twin: nat) returns (flushed: bool)
      requires Valid() && ht != [] && ValidVt(vt) && ref != 0 && KeyOf(vt, hash, nestId) !in known
      requires twin != 0 ==> twin < |vd| && Copied(vb, vd[twin].vbStart) && Copy(vb, vd[twin].vbStart) == vt
      modifies this
      ensures Valid() && vbFlushLimit == old(vbFlushLimit) && |ht| == |old(ht)|
      ensures known == if flushed then map[] else old(known)[KeyOf(vt, hash, nestId) := ref]
      ensures flushed <==> twin == 0 && vbFlushLimit != 0 && 2 * |old(vb)| + 2 * |vt| > vbFlushLimit
      ensures |vb| == if flushed then 0 else if twin != 0 then |old(vb)| else |old(vb)| + |vt|
    {
      hide BucketOk, Copied, Copy;
      var b := Bucket(hash);
      flushed := twin == 0 && vbFlushLimit != 0 && vbFlushLimit < 2 * |vb| + 2 * |vt|;
      if flushed {
        Flush();
        return;
      }
      var start := if twin != 0 then vd[twin].vbStart else |vb|;
      ghost var more := if twin != 0 then [] else vt;
      ghost var key := Key(b, vt, nestId);
      var d := Descriptor(ref, nestId, start, ht[b]);
      if twin != 0 { AppendKeepsCopy(vb, more, start); } else { NewCopy(vb, vt); }
      InsertIntoBucket(ht[b], vd, vb, chains[b], bucketOf, known, b, d, more, vt);
      forall c | 0 <= c < |ht| && c != b
        ensures BucketOk(ht[c], vd + [d], vb + more, chains[c], bucketOf + [b], known[key := ref], c)
      {
        BucketKept(ht[c], vd, vb, chains[c], bucketOf, known, c, vd + [d], more, bucketOf + [b], known[key := ref]);
      }
      ghost var n := |vd|;
      vd, ht := vd + [d], ht[b := |vd|];
      vb := if twin != 0 then vb else vb + vt;
      assert vb == old(vb) + more;
      chains, bucketOf, known := chains[b := [n] + chains[b]], bucketOf + [b], known[key := ref];
    }
  }
}
