/** Whole runs of the builder, from an empty one to an ended buffer: a run whose objects fit the
    address range never fails, and leaves a finished buffer, which reads back as what was built. */
module FlatRuns {
  import opened FlatBytes
  import opened FlatSchema
  import opened FlatGraph
  import opened FlatEmission
  import opened FlatTables
  import opened FlatVtableCache
  import opened FlatRoundTrip
  import opened FlatStacks
  import opened FlatBuilderState
  import opened FlatVerifier
  import FlatBuilder

  /** A field of a table to be built; objects are named by their place in the run. */
  datatype FieldSpec = Plain(id: nat, data: seq<byte>, align: int) | Object(id: nat, index: nat)

  datatype Call =
    | Text(chars: seq<byte>)
    | Elements(count: nat, elemSize: nat, data: seq<byte>, align: int)
    | Objects(indices: seq<nat>)
    | Record(fields: seq<FieldSpec>, hash: int)

  /** The data of a table after its first `k` fields, in bytes, each field aligned. */
  function DataSize(fields: seq<FieldSpec>, k: nat): nat
    requires k <= |fields| && forall i | 0 <= i < k :: fields[i].Plain? ==> fields[i].align > 0
  {
    if k == 0 then 0 else
    match fields[k - 1]
    case Plain(_, data, align) => AlignUp(DataSize(fields, k - 1), align) + |data|
    case Object(_, _) => AlignUp(DataSize(fields, k - 1), 4) + 4
  }

  /** The number of its vtable's entries. */
  function Entries(fields: seq<FieldSpec>, k: nat): nat
    requires k <= |fields|
  {
    if k == 0 then 0 else Max(Entries(fields, k - 1), fields[k - 1].id + 1)
  }

  predicate ValidSpec(f: FieldSpec, objects: nat)
  {
    f.id <= ID_MAX && if f.Plain? then ValidAlign(f.align) && f.align > 0 else f.index < objects
  }

  /** What the source asks of its caller: sizes and alignments of the format, no field set twice, and
      only objects that are there. */
  predicate ValidRecord(fields: seq<FieldSpec>, objects: nat)
  {
    && (forall i | 0 <= i < |fields| :: ValidSpec(fields[i], objects))
    && (forall i, j | 0 <= i < j < |fields| :: fields[i].id != fields[j].id)
    && forall k: nat | k <= |fields| :: DataSize(fields, k) + 4 < U16
  }

  predicate ValidCall(c: Call, objects: nat)
  {
    match c
    case Text(_) => true
    case Elements(count, elemSize, data, align) =>
      ValidAlign(align) && align > 0 && |data| == count * elemSize && count <= CountMax(elemSize)
    case Objects(indices) => forall i | 0 <= i < |indices| :: indices[i] < objects
    case Record(fields, _) => ValidRecord(fields, objects)
  }

  predicate ValidRun(calls: seq<Call>)
  {
    forall i | 0 <= i < |calls| :: ValidCall(calls[i], i)
  }

  /** The most that a call can take in front of the buffer: header word, contents and padding. */
  function Front(c: Call, objects: nat): nat
    requires ValidCall(c, objects)
  {
    match c
    case Text(chars) => |chars| + 8
    case Elements(_, _, data, align) => |data| + 3 + Max(align, 4)
    case Objects(indices) => 4 * |indices| + 7
    case Record(fields, _) => DataSize(fields, |fields|) + 259
  }

  /** And behind it: a vtable, if its entries are new. */
  function Behind(c: Call): nat
  {
    if c.Record? then 2 * Entries(c.fields, |c.fields|) + 4 else 0
  }

  function Fronts(calls: seq<Call>, n: nat): nat
    requires ValidRun(calls) && n <= |calls|
  {
    if n == 0 then 0 else Fronts(calls, n - 1) + Front(calls[n - 1], n - 1)
  }

  function Behinds(calls: seq<Call>, n: nat): nat
    requires n <= |calls|
  {
    if n == 0 then 0 else Behinds(calls, n - 1) + Behind(calls[n - 1])
  }

  lemma {:induction false} SumsGrow(calls: seq<Call>, n: nat, m: nat)
    requires ValidRun(calls) && n <= m <= |calls|
    ensures Fronts(calls, n) <= Fronts(calls, m) && Behinds(calls, n) <= Behinds(calls, m)
    decreases m
  {
    if n < m { SumsGrow(calls, n, m - 1); }
  }

  /** Both ends of the address range have room for all of it, and for the buffer's header and padding. */
  predicate FitsRange(calls: seq<Call>)
    requires ValidRun(calls)
  {
    Fronts(calls, |calls|) + 263 <= U32 / 2 && Behinds(calls, |calls|) + 255 < U32 / 2
  }

  /** The object that a call asks for, given the references of the ones before it. */
  function FieldOf(f: FieldSpec, refs: seq<int>): Field
    requires ValidSpec(f, |refs|)
  {
    match f
    case Plain(_, data, align) => Inline(data, align)
    case Object(_, index) => Ref(refs[index])
  }

  predicate Asked(node: Node, c: Call, refs: seq<int>)
    requires ValidCall(c, |refs|)
  {
    match c
    case Text(chars) => node == StringNode(chars)
    case Elements(count, elemSize, data, align) => node == VectorNode(elemSize, align, count, data)
    case Objects(indices) => node == OffsetsNode(Named(indices, refs))
    case Record(fields, _) => node.TableNode? && FieldsAre(node.fields, fields, |fields|, refs)
  }

  function Named(indices: seq<nat>, refs: seq<int>): (r: seq<int>)
    requires forall i | 0 <= i < |indices| :: indices[i] < |refs|
    ensures |r| == |indices| && forall i | 0 <= i < |r| :: r[i] == refs[indices[i]]
  {
    seq(|indices|, i requires 0 <= i < |indices| => refs[indices[i]])
  }

  /** The first `k` fields, and no others. */
  predicate FieldsAre(fields: map<int, Field>, specs: seq<FieldSpec>, k: nat, refs: seq<int>)
    requires k <= |specs| && forall i | 0 <= i < |specs| :: ValidSpec(specs[i], |refs|)
  {
    && (forall i | 0 <= i < k :: specs[i].id in fields && fields[specs[i].id] == FieldOf(specs[i], refs))
    && forall id | id in fields :: exists i :: 0 <= i < k && specs[i].id == id
  }

  /** Every object of the first `n` calls has its own reference, and is what was asked for. */
  ghost predicate BuiltBy(g: Graph, calls: seq<Call>, refs: seq<int>)
  {
    && ValidRun(calls) && |refs| <= |calls|
    && forall i | 0 <= i < |refs| :: refs[i] in g && Asked(g[refs[i]], calls[i], refs[..i])
  }

  lemma {:induction false} BuiltMore(g: Graph, calls: seq<Call>, refs: seq<int>, ref: int, node: Node)
    requires BuiltBy(g, calls, refs) && |refs| < |calls| && ref !in g && Asked(node, calls[|refs|], refs)
    ensures BuiltBy(g[ref := node], calls, refs + [ref])
  {
    hide Asked;
    var now := refs + [ref];
    forall i | 0 <= i < |now| ensures now[i] in g[ref := node] && Asked(g[ref := node][now[i]], calls[i], now[..i]) {
      if i < |refs| {
        assert refs[i] in g && Asked(g[refs[i]], calls[i], refs[..i]) && now[..i] == refs[..i];
      } else {
        assert now[..i] == refs;
      }
    }
  }

  lemma DownTo(x: int, a: int)
    requires a > 0
    ensures x - a < AlignDown(x, a) <= x
  {
  }

  /** Adds one more field of a table. */
  method AddField(b: FlatBuilder.Builder, fields: seq<FieldSpec>, k: nat, refs: seq<int>)
    requires b.Valid() && ValidRecord(fields, |refs|) && k < |fields| && forall r | r in refs :: r in b.graph
    requires Adding(b.open, fields, k, refs)
    modifies b`align, b`open, b.ds, b.ts
    ensures b.Valid() && |b.open| == |old(b.open)| && b.open[..|b.open| - 1] == old(b.open)[..|b.open| - 1]
    ensures Adding(b.open, fields, k + 1, refs)
  {
    hide FlatBuilder.Builder.Valid, IsPow2, AlignUp, DataSize, Entries, FieldsAre;
    var f := fields[k];
    EntriesInside(fields, k, |fields|);
    FieldRoom(fields, |refs|, k);
    NotYet(Top(b.open).table.fields, fields, k, refs);
    if f.Plain? {
      var ok := b.TableAdd(f.id, f.data, f.align);
    } else {
      var ok := b.TableAddOffset(f.id, refs[f.index]);
    }
  }

  /** The innermost frame is a table that has the first `k` fields. */
  ghost predicate Adding(open: seq<Open>, fields: seq<FieldSpec>, k: nat, refs: seq<int>)
    requires ValidRecord(fields, |refs|) && k <= |fields|
  {
    && open != [] && Top(open).OpenTableFrame? && Top(open).count == Entries(fields, |fields|)
    && FieldsAre(Top(open).table.fields, fields, k, refs)
    && |Top(open).table.data| == DataSize(fields, k) && |Top(open).table.vs| == Entries(fields, k)
  }

  lemma NothingAdded(open: seq<Open>, fields: seq<FieldSpec>, refs: seq<int>)
    requires ValidRecord(fields, |refs|) && open != []
    requires Top(open) == OpenTableFrame(FlatBuilder.Builder.NoFields(), Entries(fields, |fields|))
    ensures Adding(open, fields, 0, refs)
  {
  }

  lemma TableAligned(b: FlatBuilder.Builder, t: OpenTable)
    requires b.Valid() && b.open != [] && Top(b.open).OpenTableFrame? && Top(b.open).table == t
    ensures 0 < t.align <= 256 && ValidSpace(b.sp)
  {
    hide IsPow2;
    b.InnermostTable();
    OpenBounds(t);
    b.EvenEnd();
  }

  /** Adds the fields of a table. */
  method AddFields(b: FlatBuilder.Builder, fields: seq<FieldSpec>, refs: seq<int>)
    requires b.Valid() && ValidRecord(fields, |refs|) && forall r | r in refs :: r in b.graph
    requires b.open != [] && Top(b.open) == OpenTableFrame(FlatBuilder.Builder.NoFields(), Entries(fields, |fields|))
    modifies b`align, b`open, b.ds, b.ts
    ensures b.Valid() && |b.open| == |old(b.open)| && b.open[..|b.open| - 1] == old(b.open)[..|b.open| - 1]
    ensures Adding(b.open, fields, |fields|, refs)
  {
    hide FlatBuilder.Builder.Valid, IsPow2;
    var k := 0;
    assert Adding(b.open, fields, k, refs);
    hide Adding, ValidRecord;
    while k < |fields|
      invariant 0 <= k <= |fields|
      invariant b.Valid() && |b.open| == |old(b.open)| > 0 && b.open[..|b.open| - 1] == old(b.open)[..|b.open| - 1]
      invariant Adding(b.open, fields, k, refs)
    {
      AddField(b, fields, k, refs);
      k := k + 1;
    }
  }

  lemma {:induction false} EntriesInside(fields: seq<FieldSpec>, k: nat, n: nat)
    requires k < n <= |fields|
    ensures fields[k].id < Entries(fields, n)
    decreases n
  {
    if k < n - 1 { EntriesInside(fields, k, n - 1); }
  }

  lemma FieldRoom(fields: seq<FieldSpec>, objects: nat, k: nat)
    requires ValidRecord(fields, objects) && k < |fields|
    ensures ValidSpec(fields[k], objects) && DataSize(fields, k + 1) + 4 < U16
    ensures Entries(fields, k + 1) == Max(Entries(fields, k), fields[k].id + 1)
    ensures DataSize(fields, k + 1) ==
      (if fields[k].Plain? then AlignUp(DataSize(fields, k), fields[k].align) + |fields[k].data|
       else AlignUp(DataSize(fields, k), 4) + 4)
  {
  }

  lemma NotYet(added: map<int, Field>, fields: seq<FieldSpec>, k: nat, refs: seq<int>)
    requires ValidRecord(fields, |refs|) && k < |fields| && FieldsAre(added, fields, k, refs)
    ensures fields[k].id !in added
    ensures FieldsAre(added[fields[k].id := FieldOf(fields[k], refs)], fields, k + 1, refs)
  {
    var now := added[fields[k].id := FieldOf(fields[k], refs)];
    forall id | id in now ensures exists i :: 0 <= i < k + 1 && fields[i].id == id {
      if id in added {
        var i :| 0 <= i < k && fields[i].id == id;
      } else {
        assert fields[k].id == id;
      }
    }
  }

  /** Nothing below 0 and nothing above it that has been used is more than these. */
  predicate Within(sp: Space, front: int, behind: int)
  {
    sp.start >= -front && sp.End() <= behind
  }

  /** Builds a table. It cannot fail where both ends have room for it. */
  method AddRecord(b: FlatBuilder.Builder, fields: seq<FieldSpec>, hash: int, refs: seq<int>, ghost front: int,
      ghost behind: int) returns (ref: int)
    requires b.Valid() && ValidRecord(fields, |refs|) && forall i | 0 <= i < |refs| :: refs[i] in b.graph
    requires Within(b.sp, front, behind)
    requires front + Front(Record(fields, hash), |refs|) <= U32 / 2 && behind + Behind(Record(fields, hash)) < U32 / 2
    modifies b`sp, b`minAlign, b`graph, b`frames, b`align, b`open, b.ds, b.ts, b.cache
    ensures b.Valid() && b.open == old(b.open) && b.minAlign >= old(b.minAlign)
    ensures ref != 0 && ref !in old(b.graph) && ref in b.graph && b.graph == old(b.graph)[ref := b.graph[ref]]
    ensures Asked(b.graph[ref], Record(fields, hash), refs)
    ensures Within(b.sp, front + Front(Record(fields, hash), |refs|), behind + Behind(Record(fields, hash)))
  {
    hide FlatBuilder.Builder.Valid, IsPow2, VtableStep, TableEmitted, DataSize, Entries, AlignDown, FieldsAre;
    b.StartTable(Entries(fields, |fields|));
    assert Adding(b.open, fields, 0, refs) by { NothingAdded(b.open, fields, refs); }
    AddFields(b, fields, refs);
    ghost var t, was, known, stored := Top(b.open).table, b.sp, b.cache.known, 2 * |b.cache.vb|;
    TableAligned(b, t);
    ghost var vtRef, mid, flushed;
    ref, vtRef, mid, flushed := b.EndTable(hash, 0, true);
    ghost var key := b.cache.KeyOf(VtOf(t), hash, 0);
    StepSpan(VtableCall(was, known, stored, key, true, mid, b.cache.known, 2 * |b.cache.vb|, vtRef, flushed),
      b.cache.vbFlushLimit);
    DownTo(mid.start - |t.data|, t.align);
  }

  lemma StringRoom(sp: Space, chars: seq<byte>)
    requires |chars| + 8 <= U32 / 2
    ensures StringFits(sp, chars)
  {
  }

  lemma VectorRoom(sp: Space, count: nat, elemSize: nat, data: seq<byte>, align: int)
    requires |data| + 3 + Max(align, 4) <= U32 / 2 && align > 0 && count <= CountMax(elemSize)
    ensures count < U32 && VectorFits(sp, count, data, align, CountMax(elemSize))
  {
    PaddedLength(sp, count, data, Max(align, 4));
  }

  /** Builds one object. */
  method AddObject(b: FlatBuilder.Builder, c: Call, refs: seq<int>, ghost front: int, ghost behind: int)
    returns (ref: int)
    requires b.Valid() && ValidCall(c, |refs|) && forall i | 0 <= i < |refs| :: refs[i] in b.graph
    requires Within(b.sp, front, behind)
    requires front + Front(c, |refs|) <= U32 / 2 && behind + Behind(c) < U32 / 2
    modifies b`sp, b`minAlign, b`graph, b`frames, b`align, b`open, b.ds, b.ts, b.cache
    ensures b.Valid() && b.open == old(b.open) && b.minAlign >= old(b.minAlign)
    ensures ref != 0 && ref !in old(b.graph) && ref in b.graph && b.graph == old(b.graph)[ref := b.graph[ref]]
    ensures Asked(b.graph[ref], c, refs)
    ensures Within(b.sp, front + Front(c, |refs|), behind + Behind(c))
  {
    hide FlatBuilder.Builder.Valid, IsPow2, AlignDown, Padded, StringBytes, ValidRecord, FieldsAre;
    b.EvenEnd();
    match c
    case Text(chars) =>
      StringRoom(b.sp, chars);
      DownTo(b.sp.start - |chars| - 1, 4);
      ref := b.CreateString(chars);
    case Elements(count, elemSize, data, align) =>
      VectorRoom(b.sp, count, elemSize, data, align);
      DownTo(b.sp.start - |data|, Max(align, 4));
      ref := b.CreateVector(count, elemSize, data, align, CountMax(elemSize));
    case Objects(indices) =>
      DownTo(b.sp.start - 4 * |indices|, 4);
      ref := b.CreateOffsetVector(Named(indices, refs));
    case Record(fields, hash) =>
      ref := AddRecord(b, fields, hash, refs, front, behind);
  }

  /** Builds all objects of a run, one after the other. */
  method BuildAll(b: FlatBuilder.Builder, calls: seq<Call>) returns (refs: seq<int>)
    requires b.Valid() && ValidRun(calls) && FitsRange(calls) && b.sp == Space(0, []) && b.minAlign >= 1
    modifies b`sp, b`minAlign, b`graph, b`frames, b`align, b`open, b.ds, b.ts, b.cache
    ensures b.Valid() && b.open == old(b.open) && b.minAlign >= old(b.minAlign)
    ensures |refs| == |calls| && BuiltBy(b.graph, calls, refs)
    ensures Within(b.sp, Fronts(calls, |calls|), Behinds(calls, |calls|))
  {
    hide FlatBuilder.Builder.Valid, IsPow2, AlignDown, Front, Behind, Asked;
    refs := [];
    while |refs| < |calls|
      invariant b.Valid() && b.open == old(b.open) && b.minAlign >= old(b.minAlign)
      invariant |refs| <= |calls| && BuiltBy(b.graph, calls, refs)
      invariant Within(b.sp, Fronts(calls, |refs|), Behinds(calls, |refs|))
    {
      var i := |refs|;
      SumsGrow(calls, i + 1, |calls|);
      ghost var was := b.graph;
      var a := AddObject(b, calls[i], refs, Fronts(calls, i), Behinds(calls, i));
      BuiltMore(was, calls, refs, a, b.graph[a]);
      refs := refs + [a];
    }
  }

  /** A whole run: an empty builder, a buffer started, objects built one after the other, and the
      buffer ended with one of them as its root. If the objects fit the address range, it succeeds. */
  method Run(calls: seq<Call>, root: nat, identifier: int, blockAlign: int, vbFlushLimit: nat)
    returns (b: FlatBuilder.Builder, refs: seq<int>, ref: int, al: int)
    requires ValidRun(calls) && root < |calls| && FitsRange(calls)
    requires 0 <= identifier < U32 && (blockAlign == 0 || ValidAlign(blockAlign))
    ensures fresh(b) && b.Valid() && b.open == [] && |refs| == |calls| && BuiltBy(b.graph, calls, refs)
    ensures ref != 0 && ref == b.sp.start && al > 0 && HeaderAt(b.sp, refs[root], identifier, al)
    ensures ValidBuf(b.sp.bytes) && InReach(b.sp, b.graph) ==> FinishedAnywhere(b.sp, b.graph, al)
    ensures |b.sp.bytes| <= U32 / 2 ==> InReach(b.sp, b.graph)
  {
    hide FlatBuilder.Builder.Valid, IsPow2, AlignDown, Fronts, Behinds, Asked, HeaderAt, FinishedAnywhere, InReach;
    b := new FlatBuilder.Builder(vbFlushLimit);
    b.StartBuffer(identifier, blockAlign);
    refs := BuildAll(b, calls);
    b.EvenEnd();
    ghost var was := b.sp;
    ref, al := b.EndBuffer(refs[root]);
    EndFits(was, al);
  }

  lemma EndFits(sp: Space, al: int)
    requires ValidAlign(al) && al > 0 && sp.start <= 0 && Within(sp, U32 / 2 - 263, U32 / 2 - 256)
    ensures sp.End() + sp.End() % al < U32 / 2
    ensures -U32 / 2 <= AlignDown(sp.start - 8, al) < 0 && -U32 / 2 <= AlignDown(sp.start - 4, al) < 0
  {
    hide IsPow2;
  }
}
