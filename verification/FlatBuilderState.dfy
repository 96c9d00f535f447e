/** What holds of the builder between calls: about what it has emitted, and about its open frames. */
module FlatBuilderState {
  import opened FlatBytes
  import opened FlatSchema
  import opened FlatGraph
  import opened FlatEmission
  import opened FlatTables
  import opened FlatVtableCache
  import opened FlatRoundTrip
  import opened FlatStacks

  // ----------------------------------------------------------------- emitted objects

  /** Everything emitted is laid out as the graph says, no object needs more than `minAlign`, and
      every cached vtable lies where its reference says. */
  ghost predicate EmissionOk(sp: Space, g: Graph, minAlign: int, known: map<Key, int>)
  {
    && ValidSpace(sp) && EvenEnds(sp) && 0 <= minAlign <= 256 && (minAlign == 0 || IsPow2(minAlign)) && GraphAt(sp, g)
    && (forall a | a in g :: a < 0 && NodeAligned(g[a], minAlign))
    && (forall key | key in known :: CachedAt(sp, key.vt, known[key]))
  }

  predicate EvenEnds(sp: Space)
  {
    sp.start % 2 == 0 && sp.End() % 2 == 0
  }

  ghost predicate CachedAt(sp: Space, vt: seq<int>, ref: int)
  {
    ValidVt(vt) && VtStored(sp, ref - 1, vt) && (ref - 1) % 2 == 0
  }

  /** One call that creates a cached vtable, with the space, what is known, and the bytes of the stored
      copies before and after it. */
  datatype VtableCall = VtableCall(was: Space, known: map<Key, int>, stored: nat, key: Key, clustered: bool, now: Space,
    known': map<Key, int>, stored': nat, ref: int, flushed: bool)

  /** What creating a cached vtable does: entries known for the buffer give their reference and emit
      nothing; others are emitted and become known, beside all that is known. Entries not yet known for
      any buffer are copied; if the copies then exceed the limit, everything is forgotten instead. */
  ghost predicate VtableStep(c: VtableCall, limit: nat)
  {
    && ValidSpace(c.was) && ValidVt(c.key.vt)
    && (c.flushed <==> !KnownElsewhere(c.known, c.key.bucket, c.key.vt) && 0 < limit < c.stored + 2 * |c.key.vt|)
    && (KnownElsewhere(c.known, c.key.bucket, c.key.vt) ==> c.stored' == c.stored)
    && (!KnownElsewhere(c.known, c.key.bucket, c.key.vt) ==>
          c.stored' == if c.flushed then 0 else c.stored + 2 * |c.key.vt|)
    && if c.key in c.known then
         c.now == c.was && c.ref == c.known[c.key] && c.known' == c.known && !c.flushed
       else
         && CreateVtable(c.was, c.key.vt, c.clustered) == Emitted(c.now, c.ref)
         && c.known' == if c.flushed then map[] else c.known[c.key := c.ref]
  }

  lemma HitStep(sp: Space, known: map<Key, int>, stored: nat, key: Key, clustered: bool, limit: nat)
    requires ValidSpace(sp) && ValidVt(key.vt) && key in known
    ensures KnownElsewhere(known, key.bucket, key.vt)
    ensures VtableStep(VtableCall(sp, known, stored, key, clustered, sp, known, stored, known[key], false), limit)
  {
    assert Key(key.bucket, key.vt, key.nestId) in known;
  }

  lemma MissStep(c: VtableCall, limit: nat)
    requires ValidSpace(c.was) && ValidVt(c.key.vt) && c.key !in c.known
    requires CreateVtable(c.was, c.key.vt, c.clustered) == Emitted(c.now, c.ref)
    requires c.known' == if c.flushed then map[] else c.known[c.key := c.ref]
    requires c.flushed <==> !KnownElsewhere(c.known, c.key.bucket, c.key.vt) && 0 < limit < c.stored + 2 * |c.key.vt|
    requires c.stored' == if c.flushed then 0 else
      c.stored + if KnownElsewhere(c.known, c.key.bucket, c.key.vt) then 0 else 2 * |c.key.vt|
    ensures VtableStep(c, limit)
  {
    hide CreateVtable, KnownElsewhere;
  }

  /** What a call takes of the address range. */
  lemma StepSpan(c: VtableCall, limit: nat)
    requires VtableStep(c, limit)
    ensures ValidSpace(c.now) && c.was.start - (if c.clustered then 0 else 2 * |c.key.vt|) <= c.now.start <= c.was.start
    ensures c.was.End() <= c.now.End() <= c.was.End() + (if c.clustered then 2 * |c.key.vt| else 0)
  {
    hide KnownElsewhere, CreateVtable, ValidVt;
    if c.key !in c.known { VtableCreated(c.was, c.key.vt, c.clustered); }
  }

  /** Calls one after the other, with any other emissions in between. */
  ghost predicate VtableRun(calls: seq<VtableCall>, limit: nat)
  {
    && (forall i | 0 <= i < |calls| :: VtableStep(calls[i], limit))
    && forall i | 0 < i < |calls| :: calls[i].known == calls[i - 1].known' && calls[i].stored == calls[i - 1].stored'
  }

  /** Unless the cache is flushed in between, repeated entries give the same reference and emit nothing,
      whatever other vtables are created between them. */
  lemma {:induction false} RepeatedVtable(calls: seq<VtableCall>, limit: nat, i: nat, j: nat)
    requires VtableRun(calls, limit) && i < j < |calls| && calls[i].key == calls[j].key
    requires forall k | i <= k < j :: !calls[k].flushed
    ensures calls[j].ref == calls[i].ref && calls[j].now == calls[j].was
  {
    StaysKnown(calls, limit, i, j);
  }

  lemma {:induction false} StaysKnown(calls: seq<VtableCall>, limit: nat, i: nat, j: nat)
    requires VtableRun(calls, limit) && i < j < |calls| && forall k | i <= k < j :: !calls[k].flushed
    ensures calls[i].key in calls[j].known && calls[j].known[calls[i].key] == calls[i].ref
    decreases j
  {
    hide CreateVtable, KnownElsewhere;
    if i + 1 < j { StaysKnown(calls, limit, i, j - 1); }
    assert VtableStep(calls[j - 1], limit) && calls[j].known == calls[j - 1].known';
  }

  /** Without a limit nothing is ever flushed, so in every run repeated entries give the same reference. */
  lemma {:induction false} WithoutLimit(calls: seq<VtableCall>, i: nat, j: nat)
    requires VtableRun(calls, 0) && i < j < |calls| && calls[i].key == calls[j].key
    ensures calls[j].ref == calls[i].ref && calls[j].now == calls[j].was
    ensures forall k | 0 <= k < |calls| :: !calls[k].flushed
  {
    hide CreateVtable, KnownElsewhere;
    forall k | 0 <= k < |calls| ensures !calls[k].flushed { assert VtableStep(calls[k], 0); }
    RepeatedVtable(calls, 0, i, j);
  }

  /** The bytes of all vtables asked for by the calls up to `j`. */
  function AskedFor(calls: seq<VtableCall>, i: nat, j: nat): nat
    requires i <= j <= |calls|
    decreases j
  {
    if i == j then 0 else AskedFor(calls, i, j - 1) + 2 * |calls[j - 1].key.vt|
  }

  /** With a limit nothing is flushed as long as all that was asked for stays within it. */
  lemma {:induction false} WithinLimit(calls: seq<VtableCall>, limit: nat, i: nat, j: nat)
    requires VtableRun(calls, limit) && i <= j <= |calls|
    requires i < |calls| ==> calls[i].stored + AskedFor(calls, i, j) <= limit
    ensures forall k | i <= k < j :: !calls[k].flushed
    ensures j < |calls| ==> calls[j].stored <= calls[i].stored + AskedFor(calls, i, j)
    decreases j
  {
    hide CreateVtable, KnownElsewhere;
    if i < j {
      WithinLimit(calls, limit, i, j - 1);
      assert VtableStep(calls[j - 1], limit);
    }
  }

  /** The reference that a call returns was given to exactly these entries when they were emitted into
      the same buffer, by this call or one before. */
  lemma {:induction false} VtableEmittedBy(calls: seq<VtableCall>, limit: nat, j: nat) returns (i: nat)
    requires VtableRun(calls, limit) && j < |calls| && calls[0].known == map[]
    ensures i <= j && calls[i].key == calls[j].key && ValidSpace(calls[i].was) && ValidVt(calls[i].key.vt)
    ensures CreateVtable(calls[i].was, calls[i].key.vt, calls[i].clustered) == Emitted(calls[i].now, calls[j].ref)
  {
    hide CreateVtable, KnownElsewhere;
    assert VtableStep(calls[j], limit);
    if calls[j].key in calls[j].known { i := KnownSince(calls, limit, j, calls[j].key); } else { i := j; }
  }

  lemma {:induction false} KnownSince(calls: seq<VtableCall>, limit: nat, j: nat, key: Key) returns (i: nat)
    requires VtableRun(calls, limit) && j < |calls| && calls[0].known == map[] && key in calls[j].known
    ensures i < j && calls[i].key == key && ValidSpace(calls[i].was) && ValidVt(key.vt)
    ensures CreateVtable(calls[i].was, key.vt, calls[i].clustered) == Emitted(calls[i].now, calls[j].known[key])
    decreases j
  {
    hide CreateVtable, KnownElsewhere;
    var c := calls[j - 1];
    assert VtableStep(c, limit) && calls[j].known == c.known';
    if key in c.known && (c.key in c.known || key != c.key) {
      i := KnownSince(calls, limit, j - 1, key);
    } else {
      i := j - 1;
    }
  }

  lemma NodeAlignedMore(node: Node, al: int, al': int)
    requires NodeAligned(node, al) && al <= al'
    ensures NodeAligned(node, al')
  {
  }

  lemma EmissionGrows(sp: Space, g: Graph, minAlign: int, known: map<Key, int>, sp': Space, minAlign': int)
    requires EmissionOk(sp, g, minAlign, known) && Grown(sp, sp') && EvenEnds(sp')
    requires minAlign <= minAlign' <= 256 && (minAlign' == 0 || IsPow2(minAlign'))
    ensures EmissionOk(sp', g, minAlign', known)
  {
    hide VtStored, NodeAt, Extends;
    GraphKept(sp, sp', g);
    forall a | a in g ensures NodeAligned(g[a], minAlign') { NodeAlignedMore(g[a], minAlign, minAlign'); }
    forall key | key in known ensures CachedAt(sp', key.vt, known[key]) {
      assert CachedAt(sp, key.vt, known[key]);
      VtKept(sp, sp', known[key] - 1, key.vt);
    }
  }

  lemma EmissionAdds(sp: Space, g: Graph, minAlign: int, known: map<Key, int>, a: int, node: Node)
    requires EmissionOk(sp, g, minAlign, known) && a !in g && a < 0 && NodeAt(sp, a, node) && TargetsIn(g, a, node)
    requires NodeAligned(node, minAlign)
    ensures EmissionOk(sp, g[a := node], minAlign, known)
  {
    GraphGrows(sp, g, a, node);
  }

  /** A newly emitted object: the usual way the emission side changes. */
  lemma EmissionCreates(sp: Space, g: Graph, minAlign: int, known: map<Key, int>, sp': Space, a: int, node: Node,
      minAlign': int)
    requires EmissionOk(sp, g, minAlign, known) && Grown(sp, sp') && sp'.End() % 2 == 0
    requires minAlign <= minAlign' <= 256 && (minAlign' == 0 || IsPow2(minAlign'))
    requires a == sp'.start < sp.start && NodeAt(sp', a, node) && TargetsIn(g, a, node) && NodeAligned(node, minAlign')
    ensures a !in g && EmissionOk(sp', g[a := node], minAlign', known)
  {
    hide EmissionOk, NodeAt, VtStored, Extends, NodeAligned, TargetsIn, IsPow2;
    assert a % 2 == 0 by {
      WordAddress(sp', a, node);
      WordIsEven(a);
    }
    EmissionGrows(sp, g, minAlign, known, sp', minAlign');
    SpaceOk(sp, g, minAlign, known);
    if a in g { BelowObjects(sp, g, minAlign, known, a); }
    EmissionAdds(sp', g, minAlign', known, a, node);
  }

  lemma SpaceOk(sp: Space, g: Graph, minAlign: int, known: map<Key, int>)
    requires EmissionOk(sp, g, minAlign, known)
    ensures ValidSpace(sp) && EvenEnds(sp)
  {
  }

  lemma WordAddress(sp: Space, a: int, node: Node)
    requires NodeAt(sp, a, node)
    ensures a % 4 == 0
  {
  }

  lemma WordIsEven(a: int)
    requires a % 4 == 0
    ensures a % 2 == 0
  {
    assert a == 2 * (2 * (a / 4));
  }

  lemma BelowObjects(sp: Space, g: Graph, minAlign: int, known: map<Key, int>, a: int)
    requires EmissionOk(sp, g, minAlign, known) && a in g
    ensures sp.start <= a < 0 <= sp.End()
  {
  }

  /** The buffer is finished wherever in memory it is placed, at a multiple of its alignment. */
  ghost predicate FinishedAnywhere(sp: Space, g: Graph, al: int)
    requires al > 0
  {
    forall mem | mem % al == 0 :: Finished(sp, g, al, mem)
  }

  lemma CacheAdds(sp: Space, g: Graph, minAlign: int, known: map<Key, int>, key: Key, ref: int)
    requires EmissionOk(sp, g, minAlign, known) && CachedAt(sp, key.vt, ref)
    ensures EmissionOk(sp, g, minAlign, known[key := ref])
    ensures EmissionOk(sp, g, minAlign, map[])
  {
  }

  // --------------------------------------------------------------------- open frames

  datatype Kind = BufferFrame | VectorFrame | OffsetVectorFrame | StringFrame | TableFrame

  /** `align` is what the parent's alignment was; a buffer frame also saves two of its settings. */
  datatype Frame = Frame(kind: Kind, align: int, elemSize: nat, count: int, maxCount: int, identifier: int,
    blockAlign: int)

  /** What an open frame stands for: what the user has put into it so far. */
  datatype Open =
    | OpenBuffer(parentMinAlign: int)
    | OpenString(chars: seq<byte>)
    | OpenVector(elemSize: nat, align: int, maxCount: int, count: nat, data: seq<byte>)
    | OpenOffsets(refs: seq<int>)
    | OpenTableFrame(table: OpenTable, count: nat)

  /** References as the user stores them: signed 32-bit words. */
  function RefBytes(refs: seq<int>): (b: seq<byte>)
    ensures |b| == 4 * |refs|
  {
    if refs == [] then [] else RefBytes(refs[..|refs| - 1]) + Le32(refs[|refs| - 1] % U32)
  }

  function DataOf(o: Open): seq<byte>
  {
    match o
    case OpenBuffer(_) => []
    case OpenString(chars) => chars
    case OpenVector(_, _, _, _, data) => data
    case OpenOffsets(refs) => RefBytes(refs)
    case OpenTableFrame(t, _) => t.data
  }

  function AlignOf(o: Open): int
  {
    match o
    case OpenBuffer(parent) => parent
    case OpenString(_) => 1
    case OpenVector(_, align, _, _, _) => align
    case OpenOffsets(_) => 4
    case OpenTableFrame(t, _) => t.align
  }

  function TablesIn(open: seq<Open>): seq<Open>
  {
    if open == [] then [] else
    var n := |open| - 1;
    TablesIn(open[..n]) + if open[n].OpenTableFrame? then [open[n]] else []
  }

  predicate RefsIn(t: OpenTable, g: Graph)
  {
    forall id | id in t.fields :: t.fields[id].Ref? ==> t.fields[id].target in g
  }

  /** `count` elements of `elemSize` bytes. */
  predicate Elements(data: seq<byte>, count: int, elemSize: nat)
  {
    |data| == count * elemSize
  }

  ghost predicate OpenOk(o: Open, g: Graph)
  {
    match o
    case OpenBuffer(parent) => 0 <= parent <= 256 && (parent == 0 || IsPow2(parent))
    case OpenString(_) => true
    case OpenVector(elemSize, align, maxCount, count, data) =>
      Elements(data, count, elemSize) && ValidAlign(align) && 4 <= align && 0 <= count <= maxCount + 1 &&
      0 <= maxCount <= (U32 - 1) / (if elemSize == 0 then 1 else elemSize)
    case OpenOffsets(refs) => |refs| <= (U32 - 1) / 4 && forall i | 0 <= i < |refs| :: refs[i] in g
    case OpenTableFrame(t, count) => ValidOpen(t) && RefsIn(t, g)
  }

  predicate KindOk(f: Frame, o: Open)
  {
    match o
    case OpenBuffer(_) => f.kind.BufferFrame?
    case OpenString(chars) => f.kind.StringFrame? && f.count == |chars| && f.elemSize == 1
    case OpenVector(elemSize, _, maxCount, count, _) =>
      f.kind.VectorFrame? && f.count == count && f.elemSize == elemSize && f.maxCount == maxCount
    case OpenOffsets(refs) => f.kind.OffsetVectorFrame? && f.count == |refs| && f.elemSize == 4
    case OpenTableFrame(_, _) => f.kind.TableFrame?
  }

  /** The alignment in force below frame `k`. */
  function AlignBelow(open: seq<Open>, k: nat): int
    requires k <= |open|
  {
    if k == 0 then 0 else AlignOf(open[k - 1])
  }

  ghost predicate FrameOk(f: Frame, o: Open, data: seq<byte>, below: int, g: Graph)
  {
    data == DataOf(o) && OpenOk(o, g) && KindOk(f, o) && f.align == below
  }

  ghost predicate TableOk(o: Open, vs: seq<int>, pl: seq<int>, count: nat)
  {
    o.OpenTableFrame? && o.table.vs == vs && o.table.pl == pl && o.count == count
  }

  /** The stacks hold exactly what the open frames stand for. */
  ghost predicate FramesOk(frames: seq<Frame>, open: seq<Open>, align: int, data: seq<seq<byte>>, g: Graph)
  {
    && |frames| == |open| == |data|
    && (forall k | 0 <= k < |open| :: FrameOk(frames[k], open[k], data[k], AlignBelow(open, k), g))
    && align == AlignBelow(open, |open|)
  }

  ghost predicate TablesOk(open: seq<Open>, tables: seq<seq<int>>, logs: seq<seq<int>>, counts: seq<nat>)
  {
    var ts := TablesIn(open);
    && |ts| == |tables| == |logs| == |counts|
    && forall k | 0 <= k < |ts| :: TableOk(ts[k], tables[k], logs[k], counts[k])
  }

  lemma OpenStillOk(o: Open, g: Graph, g': Graph)
    requires OpenOk(o, g) && forall a | a in g :: a in g'
    ensures OpenOk(o, g')
  {
    hide Elements, ValidOpen;
    if o.OpenOffsets? {
      forall i | 0 <= i < |o.refs| ensures o.refs[i] in g' {
        var a := o.refs[i];
        assert a in g;
      }
    }
  }

  lemma FramesKept(frames: seq<Frame>, open: seq<Open>, align: int, data: seq<seq<byte>>, g: Graph, g': Graph)
    requires FramesOk(frames, open, align, data, g) && forall a | a in g :: a in g'
    ensures FramesOk(frames, open, align, data, g')
  {
    hide OpenOk, KindOk, DataOf;
    forall k | 0 <= k < |open| ensures FrameOk(frames[k], open[k], data[k], AlignBelow(open, k), g') {
      assert FrameOk(frames[k], open[k], data[k], AlignBelow(open, k), g);
      OpenStillOk(open[k], g, g');
    }
  }

  lemma FramesPush(frames: seq<Frame>, open: seq<Open>, align: int, data: seq<seq<byte>>, g: Graph, f: Frame, o: Open)
    requires FramesOk(frames, open, align, data, g) && FrameOk(f, o, [], align, g)
    ensures FramesOk(frames + [f], open + [o], AlignOf(o), data + [[]], g)
  {
    hide OpenOk, KindOk, DataOf;
    forall k | 0 <= k < |open| + 1
      ensures FrameOk((frames + [f])[k], (open + [o])[k], (data + [[]])[k], AlignBelow(open + [o], k), g)
    {
      if k < |open| { assert FrameOk(frames[k], open[k], data[k], AlignBelow(open, k), g); }
      assert AlignBelow(open + [o], k) == AlignBelow(open, k);
    }
  }

  lemma FramesTop(frames: seq<Frame>, open: seq<Open>, align: int, data: seq<seq<byte>>, g: Graph)
    requires FramesOk(frames, open, align, data, g) && open != []
    ensures |frames| == |open| == |data|
    ensures FrameOk(Top(frames), Top(open), Top(data), AlignBelow(open, |open| - 1), g) && align == AlignOf(Top(open))
  {
  }

  lemma FramesReplace(frames: seq<Frame>, open: seq<Open>, align: int, data: seq<seq<byte>>, g: Graph, f: Frame,
      o: Open, d: seq<byte>)
    requires FramesOk(frames, open, align, data, g) && open != [] && FrameOk(f, o, d, Top(frames).align, g)
    ensures FramesOk(WithTop(frames, f), WithTop(open, o), AlignOf(o), WithTop(data, d), g)
  {
    hide OpenOk, KindOk, DataOf;
    var n := |open| - 1;
    assert FrameOk(frames[n], open[n], data[n], AlignBelow(open, n), g);
    forall k | 0 <= k <= n
      ensures FrameOk(WithTop(frames, f)[k], WithTop(open, o)[k], WithTop(data, d)[k], AlignBelow(WithTop(open, o), k),
        g)
    {
      assert FrameOk(frames[k], open[k], data[k], AlignBelow(open, k), g);
      assert AlignBelow(WithTop(open, o), k) == AlignBelow(open, k);
    }
  }

  lemma FramesPop(frames: seq<Frame>, open: seq<Open>, align: int, data: seq<seq<byte>>, g: Graph)
    requires FramesOk(frames, open, align, data, g) && open != []
    ensures var n := |open| - 1;
      |frames| == |data| == |open| && FramesOk(frames[..n], open[..n], frames[n].align, data[..n], g)
  {
    hide OpenOk, KindOk, DataOf;
    var n := |open| - 1;
    assert FrameOk(frames[n], open[n], data[n], AlignBelow(open, n), g);
    forall k | 0 <= k < n ensures FrameOk(frames[..n][k], open[..n][k], data[..n][k], AlignBelow(open[..n], k), g) {
      assert FrameOk(frames[k], open[k], data[k], AlignBelow(open, k), g);
    }
  }

  // -------------------------------------------------- tables among the open frames

  lemma TablesOkPush(open: seq<Open>, tables: seq<seq<int>>, logs: seq<seq<int>>, counts: seq<nat>, o: Open)
    requires TablesOk(open, tables, logs, counts)
    ensures !o.OpenTableFrame? ==> TablesOk(open + [o], tables, logs, counts)
    ensures o.OpenTableFrame? && o.table.vs == [] && o.table.pl == [] ==>
      TablesOk(open + [o], tables + [[]], logs + [[]], counts + [o.count])
  {
  }

  lemma TablesOkReplace(open: seq<Open>, tables: seq<seq<int>>, logs: seq<seq<int>>, counts: seq<nat>, o: Open)
    requires TablesOk(open, tables, logs, counts) && open != [] && (o.OpenTableFrame? <==> Top(open).OpenTableFrame?)
    ensures !o.OpenTableFrame? ==> TablesOk(WithTop(open, o), tables, logs, counts)
    ensures o.OpenTableFrame? ==>
      tables != [] && logs != [] && counts != [] &&
      TableOk(Top(open), Top(tables), Top(logs), Top(counts))
    ensures o.OpenTableFrame? && o.count == Top(open).count ==>
      TablesOk(WithTop(open, o), WithTop(tables, o.table.vs), WithTop(logs, o.table.pl), counts)
  {
  }

  lemma TablesOkPop(open: seq<Open>, tables: seq<seq<int>>, logs: seq<seq<int>>, counts: seq<nat>)
    requires TablesOk(open, tables, logs, counts) && open != []
    ensures var n := |open| - 1;
      if Top(open).OpenTableFrame? then
        tables != [] && |tables| == |logs| == |counts| && TableOk(Top(open), Top(tables), Top(logs), Top(counts)) &&
        TablesOk(open[..n], tables[..|tables| - 1], logs[..|tables| - 1], counts[..|tables| - 1])
      else TablesOk(open[..n], tables, logs, counts)
  {
  }

  // ------------------------------------------------------------ adding table fields

  /** `t` after a field of bytes or a reference word has been pushed at `at`. */
  function TableWith(t: OpenTable, id: nat, at: nat, bytes: seq<byte>, align: int, f: Field): OpenTable
  {
    OpenTable(t.data + Fill(at - |t.data|, 0 as byte) + bytes, SetEntry(t.vs, id, at + 4),
      if f.Ref? then t.pl + [at] else t.pl, align, t.fields[id := f])
  }

  lemma SetEntryAt(entries: seq<int>, id: nat, v: int)
    ensures |SetEntry(entries, id, v)| == Max(|entries|, id + 1) && SetEntry(entries, id, v)[id] == v
    ensures forall i | 0 <= i < Max(|entries|, id + 1) && i != id ::
      SetEntry(entries, id, v)[i] == if i < |entries| then entries[i] else 0
  {
  }

  /** A field laid out before stays as it is when the table grows. */
  lemma FieldStays(t: OpenTable, t': OpenTable, id: int)
    requires 0 <= id < |t.vs| && id in t.fields && FieldLaidOut(t, id)
    requires |t.data| <= |t'.data| && t'.data[..|t.data|] == t.data && id < |t'.vs| && t'.vs[id] == t.vs[id]
    requires id in t'.fields && t'.fields[id] == t.fields[id] && t.align <= t'.align
    ensures FieldLaidOut(t', id)
  {
  }

  lemma OpenEntries(t: OpenTable, i: int)
    requires ValidOpen(t) && i in t.fields
    ensures 0 <= i < |t.vs| && 4 <= t.vs[i] && t.vs[i] - 4 + FieldSize(t.fields[i]) <= |t.data| && FieldLaidOut(t, i)
  {
  }

  /** Adding a field of its own keeps an open table in order. */
  lemma TableAdds(t: OpenTable, id: nat, at: nat, bytes: seq<byte>, align: int, f: Field)
    requires ValidOpen(t) && id !in t.fields && id <= ID_MAX && t.align <= align && ValidAlign(align)
    requires |t.data| <= at && at + |bytes| + 4 < U16 && |bytes| == FieldSize(f)
    requires match f
      case Inline(data, al) => data == bytes && ValidAlign(al) && al <= align && at % al == 0
      case Ref(target) => bytes == Le32(target % U32) && at % 4 == 0
    ensures ValidOpen(TableWith(t, id, at, bytes, align, f))
    ensures var t' := TableWith(t, id, at, bytes, align, f);
      |t'.data| == at + |bytes| && |t'.vs| == Max(|t.vs|, id + 1)
  {
    hide Le32, ValidOpen;
    var t' := TableWith(t, id, at, bytes, align, f);
    SetEntryAt(t.vs, id, at + 4);
    OpenBounds(t);
    assert t'.data[..|t.data|] == t.data;
    assert t'.data[at..at + |bytes|] == bytes;
    NewFieldLaidOut(t', id, at, bytes);
    forall i | i in t'.fields ensures 0 <= i < |t'.vs| && FieldLaidOut(t', i) {
      if i != id { OpenEntries(t, i); FieldStays(t, t', i); }
    }
    forall i, j | i in t'.fields && j in t'.fields && i != j ensures FieldsApart(t', i, j) {
      if i != id { OpenEntries(t, i); }
      if j != id { OpenEntries(t, j); }
      if i != id && j != id { OpenApart(t, i, j); }
    }
    EntriesMatch(t, t', id, at);
    LogGrows(t, t', id, at);
    AllTogether(t');
  }

  lemma NewFieldLaidOut(t: OpenTable, id: nat, at: nat, bytes: seq<byte>)
    requires id < |t.vs| && t.vs[id] == at + 4 && id in t.fields && |bytes| == FieldSize(t.fields[id])
    requires at + |bytes| <= |t.data| && t.data[at..at + |bytes|] == bytes
    requires match t.fields[id]
      case Inline(data, al) => data == bytes && ValidAlign(al) && al <= t.align && at % al == 0
      case Ref(target) => bytes == Le32(target % U32) && at % 4 == 0
    ensures FieldLaidOut(t, id)
  {
    hide Le32;
    if t.fields[id].Ref? { ReadLe32(t.data, at, t.fields[id].target % U32); }
  }

  lemma OpenApart(t: OpenTable, i: int, j: int)
    requires ValidOpen(t) && i in t.fields && j in t.fields && i != j
    ensures 0 <= i < |t.vs| && 0 <= j < |t.vs| && FieldsApart(t, i, j)
  {
  }

  lemma EntriesMatch(t: OpenTable, t': OpenTable, id: nat, at: nat)
    requires ValidOpen(t) && id !in t.fields && id <= ID_MAX && at + 4 < U16
    requires t'.vs == SetEntry(t.vs, id, at + 4) && t'.fields.Keys == t.fields.Keys + {id as int}
    ensures |t'.vs| <= ID_MAX + 1 && forall i | 0 <= i < |t'.vs| :: 0 <= t'.vs[i] < U16
    ensures forall i: int :: i in t'.fields <==> 0 <= i < |t'.vs| && t'.vs[i] != 0
  {
    SetEntryAt(t.vs, id, at + 4);
    forall i: int ensures i in t'.fields <==> 0 <= i < |t'.vs| && t'.vs[i] != 0 {
      assert i in t'.fields <==> i in t.fields || i == id;
    }
  }

  lemma LogGrows(t: OpenTable, t': OpenTable, id: nat, at: nat)
    requires ValidOpen(t) && id !in t.fields && at >= |t.data|
    requires t'.vs == SetEntry(t.vs, id, at + 4) && id in t'.fields && t'.fields == t.fields[id := t'.fields[id]]
    requires t'.pl == if t'.fields[id].Ref? then t.pl + [at] else t.pl
    requires t'.fields[id].Ref? ==> at % 4 == 0
    ensures DistinctWords(t'.pl) && (forall i | 0 <= i < |t'.pl| :: LoggedPlace(t', t'.pl[i]))
    ensures forall i | i in t'.fields && t'.fields[i].Ref? :: 0 <= i < |t'.vs| && t'.vs[i] - 4 in t'.pl
  {
    hide ValidOpen, SetEntry, DistinctWords, LoggedPlace;
    SetEntryAt(t.vs, id, at + 4);
    assert DistinctWords(t'.pl) by { LogStaysDistinct(t, at); }
    forall i | 0 <= i < |t'.pl| ensures LoggedPlace(t', t'.pl[i]) {
      if i < |t.pl| { PlaceStays(t, t', id, at, t.pl[i]); } else { PlaceLogged(t', id, at); }
    }
    forall i | i in t'.fields && t'.fields[i].Ref? ensures 0 <= i < |t'.vs| && t'.vs[i] - 4 in t'.pl {
      if i == id { assert t'.pl[|t.pl|] == at; } else { OpenEntries(t, i); FieldFacts(t, i); }
    }
  }

  lemma LogStaysDistinct(t: OpenTable, at: nat)
    requires ValidOpen(t) && at >= |t.data|
    ensures DistinctWords(t.pl) && (at % 4 == 0 ==> DistinctWords(t.pl + [at]))
  {
  }

  lemma PlaceStays(t: OpenTable, t': OpenTable, id: nat, at: nat, p: int)
    requires ValidOpen(t) && id !in t.fields && p in t.pl
    requires t'.vs == SetEntry(t.vs, id, at + 4) && id in t'.fields && t'.fields == t.fields[id := t'.fields[id]]
    ensures LoggedPlace(t', p)
  {
    hide ValidOpen;
    var j := LoggedBy(t, p);
    SetEntryAt(t.vs, id, at + 4);
    OpenEntries(t, j);
    assert t'.vs[j] == p + 4;
  }

  lemma PlaceLogged(t: OpenTable, id: nat, at: nat)
    requires id < |t.vs| && t.vs[id] == at + 4 && id in t.fields && t.fields[id].Ref?
    ensures LoggedPlace(t, at)
  {
  }

  lemma LoggedBy(t: OpenTable, p: int) returns (id: int)
    requires ValidOpen(t) && p in t.pl
    ensures id in t.fields && 0 <= id < |t.vs| && t.fields[id].Ref? && t.vs[id] == p + 4
  {
    assert LoggedPlace(t, p);
    id :| 0 <= id < |t.vs| && id in t.fields && t.fields[id].Ref? && t.vs[id] == p + 4;
  }

  lemma AllTogether(t: OpenTable)
    requires |t.data| + 4 < U16 && |t.vs| <= ID_MAX + 1 && ValidAlign(t.align) && 4 <= t.align
    requires forall i | 0 <= i < |t.vs| :: 0 <= t.vs[i] < U16
    requires forall id: int :: id in t.fields <==> 0 <= id < |t.vs| && t.vs[id] != 0
    requires forall id | id in t.fields :: FieldLaidOut(t, id)
    requires forall i, j | i in t.fields && j in t.fields && i != j :: FieldsApart(t, i, j)
    requires DistinctWords(t.pl) && (forall i | 0 <= i < |t.pl| :: LoggedPlace(t, t.pl[i]))
    requires forall id | id in t.fields && t.fields[id].Ref? :: t.vs[id] - 4 in t.pl
    ensures ValidOpen(t)
  {
  }
}
