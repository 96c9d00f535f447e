/** The builder of a top-level buffer with clustered vtables: a stack of open frames above a
    virtual address space that finished objects are emitted into. */
module FlatBuilder {
  import opened FlatBytes
  import opened FlatSchema
  import opened Wrappers
  import opened FlatGraph
  import opened FlatEmission
  import opened FlatTables
  import opened FlatVtableCache
  import opened FlatRoundTrip
  import opened FlatStacks
  import opened FlatBuilderState
  import opened FlatReader
  import opened FlatVerifier
  import opened FlatAcceptance

  lemma NothingYet()
    ensures EmissionOk(Space(0, []), map[], 0, map[])
    ensures FramesOk([], [], 0, [], map[]) && TablesOk([], [], [], [])
  {
  }

  class Builder {
    /** `emit_start`, and what the emitter has received from there on. */
    var sp: Space
    var minAlign: int
    var align: int
    var frames: seq<Frame>
    var identifier: int
    var blockAlign: int
    const ds: DataStack
    const ts: TableStack
    const cache: VtableCache

    /** The finished objects by reference, and the contents of the open frames. */
    ghost var graph: Graph
    ghost var open: seq<Open>

    ghost predicate Valid()
      reads this, ds, ts, cache
    {
      && ds.Valid() && ts.Valid() && cache.Valid()
      && EmissionOk(sp, graph, minAlign, cache.known)
      && FramesOk(frames, open, align, ds.contents, graph)
      && TablesOk(open, ts.tables, ts.logs, ts.counts)
    }

    constructor (vbFlushLimit: nat)
      ensures Valid() && fresh(ds) && fresh(ts) && fresh(cache)
      ensures sp == Space(0, []) && graph == map[] && open == []
    {
      hide EmissionOk, FramesOk, TablesOk, DataOk, EntriesOk, LogsOk, BucketOk;
      sp, minAlign, align, frames, identifier, blockAlign := Space(0, []), 0, 0, [], 0, 0;
      ds := new DataStack();
      ts := new TableStack();
      cache := new VtableCache(vbFlushLimit);
      graph, open := map[], [];
      NothingYet();
    }

    // ------------------------------------------------------------- direct creation

    /** Emits a string; reference 0 means that it does not fit and nothing was done. */
    method CreateString(chars: seq<byte>) returns (ref: int)
      requires Valid() && StringFits(sp, chars)
      modifies this`sp, this`minAlign, this`graph
      ensures Valid() && minAlign == old(minAlign)
      ensures var a := AlignDown(old(sp).start - |chars| - 1, 4) - 4;
        ref == if |chars| < U32 && a >= -U32 / 2 then a else 0
      ensures ref == 0 ==> sp == old(sp) && graph == old(graph)
      ensures ref != 0 ==> sp.End() == old(sp).End()
      ensures ref != 0 ==> ref == sp.start && FlatEmission.CreateString(old(sp), chars) == Emitted(sp, ref)
      ensures ref != 0 ==> ref !in old(graph) && graph == old(graph)[ref := StringNode(chars)]
    {
      hide StringBytes, EmitFront, Valid, StringAt, Extends;
      EvenEnd();
      StringCreated(sp, chars);
      var r := FlatEmission.CreateString(sp, chars);
      if r.Failed? { return 0; }
      AddObject(r, StringNode(chars), minAlign);
      ref := r.ref;
    }

    /** Takes a freshly emitted object into the graph. */
    method AddObject(r: Emitted, ghost node: Node, newMinAlign: int)
      requires Valid() && r.Emitted? && Grown(sp, r.sp) && r.ref == r.sp.start < sp.start && r.sp.End() == sp.End()
      requires NodeAt(r.sp, r.ref, node) && TargetsIn(graph, r.ref, node) && NodeAligned(node, newMinAlign)
      requires minAlign <= newMinAlign <= 256 && (newMinAlign == 0 || IsPow2(newMinAlign))
      modifies this`sp, this`minAlign, this`graph
      ensures Valid() && sp == r.sp && minAlign == newMinAlign
      ensures r.ref !in old(graph) && graph == old(graph)[r.ref := node]
    {
      hide EmissionOk, FramesOk, TablesOk, NodeAt, TargetsIn, NodeAligned;
      EmissionCreates(sp, graph, minAlign, cache.known, r.sp, r.ref, node, newMinAlign) by { EvenEnd(); }
      FramesKept(frames, open, align, ds.contents, graph, graph[r.ref := node]);
      sp, minAlign, graph := r.sp, newMinAlign, graph[r.ref := node];
    }

    lemma EvenEnd()
      requires Valid()
      ensures ValidSpace(sp) && EvenEnds(sp) && 0 <= minAlign <= 256 && (minAlign == 0 || IsPow2(minAlign))
    {
    }

    /** Emits a vector of plain elements. */
    method CreateVector(count: nat, elemSize: nat, data: seq<byte>, al: int, maxCount: int) returns (ref: int)
      requires Valid() && ValidAlign(al) && count < U32 && |data| == count * elemSize &&
        VectorFits(sp, count, data, al, maxCount)
      requires maxCount <= (U32 - 1) / (if elemSize == 0 then 1 else elemSize)
      modifies this`sp, this`minAlign, this`graph
      ensures Valid()
      ensures minAlign == if count > maxCount then old(minAlign) else Max(old(minAlign), Max(al, 4))
      ensures var a := AlignDown(old(sp).start - |data|, Max(al, 4)) - 4;
        ref == if count <= maxCount && a >= -U32 / 2 then a else 0
      ensures ref == 0 ==> sp == old(sp) && graph == old(graph)
      ensures ref != 0 ==> sp.End() == old(sp).End()
      ensures ref != 0 ==>
        ref == sp.start && FlatEmission.CreateVector(old(sp), count, elemSize, data, al, maxCount)
        == Emitted(sp, ref)
      ensures ref != 0 ==> ref !in old(graph) && graph == old(graph)[ref := VectorNode(elemSize, al, count, data)]
    {
      hide Padded, EmitFront, Valid, VectorAt, Extends;
      EvenEnd();
      SmallPowers();
      VectorCreated(sp, count, elemSize, data, al, maxCount);
      if count > maxCount { return 0; }
      SetMinAlign(Max(al, 4));
      var r := FlatEmission.CreateVector(sp, count, elemSize, data, al, maxCount);
      if r.Failed? { return 0; }
      AddObject(r, VectorNode(elemSize, al, count, data), minAlign);
      ref := r.ref;
    }

    /** Emits a vector of offsets to objects emitted before. */
    method CreateOffsetVector(refs: seq<int>) returns (ref: int)
      requires Valid() && OffsetsFit(sp, refs) && forall i | 0 <= i < |refs| :: refs[i] in graph
      modifies this`sp, this`minAlign, this`graph
      ensures Valid()
      ensures minAlign == if |refs| > (U32 - 1) / 4 then old(minAlign) else Max(old(minAlign), 4)
      ensures var a := AlignDown(old(sp).start - 4 * |refs|, 4) - 4;
        ref == if 4 * |refs| < U32 && a >= -U32 / 2 then a else 0
      ensures ref == 0 ==> sp == old(sp) && graph == old(graph)
      ensures ref != 0 ==> sp.End() == old(sp).End()
      ensures ref != 0 ==> ref == sp.start && FlatEmission.CreateOffsetVector(old(sp), refs) == Emitted(sp, ref)
      ensures ref != 0 ==> ref !in old(graph) && graph == old(graph)[ref := OffsetsNode(refs)]
    {
      hide Padded, EmitFront, Valid, OffsetsAt, Extends;
      EvenEnd();
      SmallPowers();
      RefsInside(refs);
      OffsetVectorCreated(sp, refs);
      if |refs| > (U32 - 1) / 4 { return 0; }
      SetMinAlign(4);
      var r := FlatEmission.CreateOffsetVector(sp, refs);
      if r.Failed? { return 0; }
      AddObject(r, OffsetsNode(refs), minAlign);
      ref := r.ref;
    }

    lemma RefsInside(refs: seq<int>)
      requires Valid() && forall i | 0 <= i < |refs| :: refs[i] in graph
      ensures forall i | 0 <= i < |refs| :: sp.start <= refs[i] < 0 <= sp.End()
    {
      forall i | 0 <= i < |refs| ensures sp.start <= refs[i] < 0 <= sp.End() {
        var a := refs[i];
        BelowObjects(sp, graph, minAlign, cache.known, a);
      }
    }

    // ---------------------------------------------------------------- open frames

    /** Opens a frame for anything but a table. */
    method EnterFrame(f: Frame, al: int, typeLimit: nat, ghost o: Open)
      requires Valid() && !o.OpenTableFrame? && DataOf(o) == [] && OpenOk(o, graph) && KindOk(f, o) && AlignOf(o) == al
      requires f.align == align
      modifies this`frames, this`align, this`open, ds
      ensures Valid() && open == old(open) + [o]
    {
      hide EmissionOk, FramesOk, TablesOk, OpenOk, KindOk, DataOk, EntriesOk, LogsOk, BucketOk, DataOf;
      FramesPush(frames, open, align, ds.contents, graph, f, o);
      TablesOkPush(open, ts.tables, ts.logs, ts.counts, o);
      ds.Enter(typeLimit);
      frames, align, open := frames + [f], al, open + [o];
    }

    /** Leaves a frame for anything but a table. */
    method ExitFrame()
      requires Valid() && open != [] && !Top(open).OpenTableFrame?
      modifies this`frames, this`align, this`minAlign, this`open, ds
      ensures Valid() && open == old(open)[..|old(open)| - 1] && minAlign == Max(old(minAlign), old(align))
    {
      hide EmissionOk, FramesOk, TablesOk, OpenOk, KindOk, DataOk, EntriesOk, LogsOk, BucketOk, DataOf;
      AlignInForce();
      SetMinAlign(align);
      FramesPop(frames, open, align, ds.contents, graph);
      TablesOkPop(open, ts.tables, ts.logs, ts.counts);
      ds.Exit();
      var n := |frames| - 1;
      frames, align, open := frames[..n], frames[n].align, open[..n];
    }

    lemma AlignInForce()
      requires Valid()
      ensures 0 <= align <= 256 && (align == 0 || IsPow2(align))
    {
      hide IsPow2, EmissionOk, FramesOk, TablesOk, DataOk, EntriesOk, LogsOk, BucketOk, ValidOpen, Elements;
      SmallPowers();
      if open == [] {
        NoFrames(frames, align, ds.contents, graph);
      } else {
        FramesTop(frames, open, align, ds.contents, graph);
        if Top(open).OpenTableFrame? { OpenBounds(Top(open).table); }
      }
    }

    static lemma NoFrames(frames: seq<Frame>, align: int, data: seq<seq<byte>>, g: Graph)
      requires FramesOk(frames, [], align, data, g)
      ensures align == 0
    {
    }

    lemma RaiseMinAlign(m: int)
      requires Valid() && minAlign <= m <= 256 && (m == 0 || IsPow2(m))
      ensures EmissionOk(sp, graph, m, cache.known)
    {
      EvenEnd();
      assert Extends(sp, sp);
      EmissionGrows(sp, graph, minAlign, cache.known, sp, m);
    }

    /** The largest alignment asked for so far. */
    method SetMinAlign(al: int)
      requires Valid() && 0 <= al <= 256 && (al == 0 || IsPow2(al))
      modifies this`minAlign
      ensures Valid() && minAlign == Max(old(minAlign), al)
    {
      hide EmissionOk, FramesOk, TablesOk, DataOk, EntriesOk, LogsOk, BucketOk, IsPow2;
      EvenEnd();
      RaiseMinAlign(Max(minAlign, al));
      if minAlign < al { minAlign := al; }
    }

    /** What the innermost frame is known to hold. */
    lemma Innermost()
      requires Valid() && open != []
      ensures |frames| == |open| == |ds.contents| && Top(ds.contents) == DataOf(Top(open))
      ensures KindOk(Top(frames), Top(open)) && OpenOk(Top(open), graph) && align == AlignOf(Top(open))
    {
      FramesTop(frames, open, align, ds.contents, graph);
    }

    /** The innermost frame now stands for `o`, the stack having been changed to match. */
    ghost method Became(o: Open, was: seq<seq<byte>>, f: Frame, wasFrames: seq<Frame>)
      requires open != [] && !o.OpenTableFrame? && !Top(open).OpenTableFrame? && AlignOf(o) == align
      requires ds.Valid() && ts.Valid() && cache.Valid() && EmissionOk(sp, graph, minAlign, cache.known)
      requires FramesOk(wasFrames, open, align, was, graph) && TablesOk(open, ts.tables, ts.logs, ts.counts)
      requires wasFrames != [] && was != [] && ds.contents == WithTop(was, DataOf(o)) && frames == WithTop(wasFrames, f)
      requires KindOk(f, o) && OpenOk(o, graph) && f.align == Top(wasFrames).align
      modifies this`open
      ensures Valid() && open == WithTop(old(open), o)
    {
      hide EmissionOk, FramesOk, TablesOk, OpenOk, KindOk, DataOk, EntriesOk, LogsOk, BucketOk, DataOf;
      FramesReplace(wasFrames, open, align, was, graph, f, o, DataOf(o));
      TablesOkReplace(open, ts.tables, ts.logs, ts.counts, o);
      open := WithTop(open, o);
    }

    /** The innermost frame's bytes, as the data stack holds them. */
    method FrameData() returns (data: seq<byte>)
      requires Valid() && open != []
      ensures data == DataOf(Top(open))
    {
      hide EmissionOk, FramesOk, TablesOk, OpenOk, KindOk, DataOk, EntriesOk, LogsOk, BucketOk, DataOf;
      Innermost();
      ds.FrameHolds();
      FrameBytes(ds.mem, ds.first, ds.offset, ds.limit, ds.saved, ds.firsts, ds.contents);
      data := ds.mem[ds.first..ds.first + ds.offset];
      assert data == ds.mem[ds.first..][..ds.offset];
    }

    lemma OffsetIsLength()
      requires Valid() && open != []
      ensures ds.offset == |DataOf(Top(open))|
    {
      hide EmissionOk, FramesOk, TablesOk, OpenOk, KindOk, DataOk, EntriesOk, LogsOk, BucketOk, DataOf;
      Innermost();
      ds.FrameHolds();
      FrameBytes(ds.mem, ds.first, ds.offset, ds.limit, ds.saved, ds.firsts, ds.contents);
    }

    // -------------------------------------------------------------------- strings

    method StartString()
      requires Valid()
      modifies this`frames, this`align, this`open, ds
      ensures Valid() && open == old(open) + [OpenString([])]
    {
      EnterFrame(Frame(StringFrame, align, 1, 0, 0, 0, 0), 1, DATA_LIMIT, OpenString([]));
    }

    /** The count after adding `count` elements, if it can be represented. */
    static function CountAdd(n: nat, count: nat, maxCount: int): Option<nat>
      requires n < U32 && count < U32
    {
      var n1 := (n + count) % U32;
      if n <= n1 && n1 <= maxCount then Some(n1) else None
    }

    method AppendString(s: seq<byte>) returns (ok: bool)
      requires Valid() && open != [] && Top(open).OpenString? && |Top(open).chars| < U32 && |s| < U32
      modifies this`frames, this`open, ds
      ensures Valid() && ok == (|Top(old(open)).chars| + |s| < U32)
      ensures open == if ok then WithTop(old(open), OpenString(Top(old(open)).chars + s)) else old(open)
    {
      hide EmissionOk, FramesOk, TablesOk, OpenOk, DataOk, EntriesOk, LogsOk, BucketOk;
      Innermost();
      var f := Top(frames);
      var n1 := CountAdd(f.count, |s|, U32 - 1);
      if n1 == None { return false; }
      ghost var was, wasFrames, o := ds.contents, frames, OpenString(Top(open).chars + s);
      var _ := ds.PushCopy(s);
      frames := WithTop(frames, f.(count := n1.value));
      assert OpenOk(o, graph) by { TextIsOk(o, graph); }
      Became(o, was, f.(count := n1.value), wasFrames);
      ok := true;
    }

    static lemma TextIsOk(o: Open, g: Graph)
      requires o.OpenString?
      ensures OpenOk(o, g)
    {
    }

    method TruncateString(len: nat) returns (ok: bool)
      requires Valid() && open != [] && Top(open).OpenString?
      modifies this`frames, this`open, ds
      ensures Valid() && ok == (len <= |Top(old(open)).chars|)
      ensures var chars := Top(old(open)).chars;
        open == if ok then WithTop(old(open), OpenString(chars[..|chars| - len])) else old(open)
    {
      hide EmissionOk, FramesOk, TablesOk, OpenOk, DataOk, EntriesOk, LogsOk, BucketOk;
      Innermost();
      var f := Top(frames);
      if f.count < len { return false; }
      ghost var was, wasFrames, chars := ds.contents, frames, Top(open).chars;
      ghost var o := OpenString(chars[..|chars| - len]);
      ds.Unpush(len);
      frames := WithTop(frames, f.(count := f.count - len));
      TextIsOk(o, graph);
      Became(o, was, f.(count := f.count - len), wasFrames);
      ok := true;
    }

    /** Emits the string built so far, exactly as a direct call with its characters would. */
    method EndString() returns (ref: int)
      requires Valid() && open != [] && Top(open).OpenString? && StringFits(sp, Top(open).chars)
      modifies this`sp, this`minAlign, this`graph, this`frames, this`align, this`open, ds
      ensures Valid() && minAlign == if ref == 0 then old(minAlign) else Max(old(minAlign), 1)
      ensures var chars := Top(old(open)).chars;
        var a := AlignDown(old(sp).start - |chars| - 1, 4) - 4;
        ref == if |chars| < U32 && a >= -U32 / 2 then a else 0
      ensures ref == 0 ==> sp == old(sp) && graph == old(graph) && open == old(open)
      ensures ref != 0 ==> FlatEmission.CreateString(old(sp), Top(old(open)).chars) == Emitted(sp, ref)
      ensures ref != 0 ==> graph == old(graph)[ref := StringNode(Top(old(open)).chars)] && ref !in old(graph)
      ensures ref != 0 ==> open == old(open)[..|old(open)| - 1]
    {
      hide EmissionOk, FramesOk, TablesOk, OpenOk, DataOk, EntriesOk, LogsOk, BucketOk, StringBytes;
      var data := FrameData();
      Innermost();
      ref := CreateString(data);
      if ref != 0 { ExitFrame(); }
    }

    // -------------------------------------------------------------------- vectors

    method StartVector(elemSize: nat, al: int, maxCount: int)
      requires Valid() && ValidAlign(al) && 0 <= maxCount <= (U32 - 1) / (if elemSize == 0 then 1 else elemSize)
      modifies this`frames, this`align, this`open, ds
      ensures Valid() && open == old(open) + [OpenVector(elemSize, Max(al, 4), maxCount, 0, [])]
    {
      SmallPowers();
      EnterFrame(Frame(VectorFrame, align, elemSize, 0, maxCount, 0, 0), Max(al, 4), DATA_LIMIT,
        OpenVector(elemSize, Max(al, 4), maxCount, 0, []));
    }

    static lemma MoreElements(data: seq<byte>, count: nat, elemSize: nat, more: seq<byte>, n: nat)
      requires Elements(data, count, elemSize) && |more| == n * elemSize
      ensures Elements(data + more, count + n, elemSize)
    {
    }

    static lemma FewerElements(data: seq<byte>, count: nat, elemSize: nat, n: nat)
      requires Elements(data, count, elemSize) && n <= count
      ensures 0 <= n * elemSize <= |data| && Elements(data[..|data| - n * elemSize], count - n, elemSize)
    {
    }

    /** The innermost vector frame after its contents and count have changed. */
    method UpdateVector(ghost data: seq<byte>, n: nat, ghost was: seq<seq<byte>>)
      requires ds.Valid() && ts.Valid() && cache.Valid() && EmissionOk(sp, graph, minAlign, cache.known)
      requires FramesOk(frames, open, align, was, graph) && TablesOk(open, ts.tables, ts.logs, ts.counts)
      requires open != [] && Top(open).OpenVector? && was != [] && ds.contents == WithTop(was, data)
      requires Elements(data, n, Top(open).elemSize) && n <= Top(open).maxCount + 1
      modifies this`frames, this`open
      ensures Valid() && open == WithTop(old(open), Top(old(open)).(count := n, data := data))
    {
      hide EmissionOk, FramesOk, TablesOk, DataOk, EntriesOk, LogsOk, BucketOk;
      FramesTop(frames, open, align, was, graph);
      ghost var o, wasFrames := Top(open).(count := n, data := data), frames;
      var f := Top(frames).(count := n);
      frames := WithTop(frames, f);
      Became(o, was, f, wasFrames);
    }

    method AppendVector(data: seq<byte>, count: nat) returns (ok: bool)
      requires Valid() && open != [] && Top(open).OpenVector? && |data| == count * Top(open).elemSize
      requires count < U32 && Top(open).count < U32
      modifies this`frames, this`open, ds
      ensures Valid() && ok == (Top(old(open)).count + count <= Top(old(open)).maxCount)
      ensures var o := Top(old(open));
        open == if ok then WithTop(old(open), o.(count := o.count + count, data := o.data + data)) else old(open)
    {
      hide EmissionOk, FramesOk, TablesOk, DataOk, EntriesOk, LogsOk, BucketOk, Elements;
      Innermost();
      VectorLimit();
      var f := Top(frames);
      var n1 := CountAdd(f.count, count, f.maxCount);
      if n1 == None { return false; }
      MoreElements(Top(open).data, Top(open).count, Top(open).elemSize, data, count);
      ghost var was := ds.contents;
      var _ := ds.PushCopy(data);
      UpdateVector(Top(open).data + data, n1.value, was);
      ok := true;
    }

    static lemma DivisionShrinks(x: nat, d: nat)
      requires d >= 1
      ensures 0 <= x / d <= x
    {
    }

    lemma VectorLimit()
      requires Valid() && open != [] && Top(open).OpenVector?
      ensures Elements(Top(open).data, Top(open).count, Top(open).elemSize)
      ensures 0 <= Top(open).maxCount < U32 && Top(open).count <= Top(open).maxCount + 1
    {
      hide EmissionOk, FramesOk, TablesOk, DataOk, EntriesOk, LogsOk, BucketOk, Elements;
      Innermost();
      DivisionShrinks(U32 - 1, if Top(open).elemSize == 0 then 1 else Top(open).elemSize);
    }

    /** Extends by zero elements, for the caller to fill in. */
    method ExtendVector(count: nat) returns (ok: bool)
      requires Valid() && open != [] && Top(open).OpenVector? && count < U32 && Top(open).count < U32
      modifies this`frames, this`open, ds
      ensures Valid() && ok == (Top(old(open)).count + count <= Top(old(open)).maxCount)
      ensures var o := Top(old(open));
        open == if ok then WithTop(old(open), o.(count := o.count + count, data :=
          o.data + Fill(count * o.elemSize, 0)))
                else old(open)
    {
      hide EmissionOk, FramesOk, TablesOk, DataOk, EntriesOk, LogsOk, BucketOk, Elements;
      Innermost();
      VectorLimit();
      var f := Top(frames);
      var n1 := CountAdd(f.count, count, f.maxCount);
      if n1 == None { return false; }
      var size := f.elemSize * count;
      assert size == count * Top(open).elemSize;
      MoreElements(Top(open).data, Top(open).count, Top(open).elemSize, Fill(size, 0), count);
      ghost var was := ds.contents;
      var _ := ds.Push(size);
      UpdateVector(Top(open).data + Fill(size, 0), n1.value, was);
      ok := true;
    }

    /** Pushes one element. The limit is checked before the count goes up, so a full vector takes one
        element more than `maxCount`; ending it then fails. */
    method VectorPush(data: seq<byte>) returns (ok: bool)
      requires Valid() && open != [] && Top(open).OpenVector? && |data| == Top(open).elemSize
      modifies this`frames, this`open, ds
      ensures Valid() && ok == (Top(old(open)).count <= Top(old(open)).maxCount)
      ensures var o := Top(old(open));
        open == if ok then WithTop(old(open), o.(count := o.count + 1, data := o.data + data)) else old(open)
    {
      hide EmissionOk, FramesOk, TablesOk, DataOk, EntriesOk, LogsOk, BucketOk, Elements;
      Innermost();
      VectorLimit();
      var f := Top(frames);
      if f.count > f.maxCount { return false; }
      MoreElements(Top(open).data, Top(open).count, Top(open).elemSize, data, 1);
      ghost var was := ds.contents;
      var _ := ds.PushCopy(data);
      UpdateVector(Top(open).data + data, f.count + 1, was);
      ok := true;
    }

    method TruncateVector(count: nat) returns (ok: bool)
      requires Valid() && open != [] && Top(open).OpenVector?
      modifies this`frames, this`open, ds
      ensures Valid() && ok == (count <= Top(old(open)).count)
      ensures !ok ==> open == old(open)
      ensures var o := Top(old(open)); ok ==> 0 <= count * o.elemSize <= |o.data|
      ensures var o := Top(old(open));
        ok ==> open == WithTop(old(open), o.(count := o.count - count, data := o.data[..|o.data| - count * o.elemSize]))
    {
      hide EmissionOk, FramesOk, TablesOk, DataOk, EntriesOk, LogsOk, BucketOk, Elements;
      Innermost();
      VectorLimit();
      var f := Top(frames);
      if f.count < count { return false; }
      var size := f.elemSize * count;
      assert size == count * Top(open).elemSize;
      FewerElements(Top(open).data, Top(open).count, Top(open).elemSize, count);
      ghost var was := ds.contents;
      ds.Unpush(size);
      UpdateVector(Top(open).data[..|Top(open).data| - size], f.count - count, was);
      ok := true;
    }

    /** Emits the vector built so far, exactly as a direct call with its elements would. */
    method EndVector() returns (ref: int)
      requires Valid() && open != [] && Top(open).OpenVector? && Top(open).count < U32
      requires var o := Top(open); o.align > 0 && VectorFits(sp, o.count, o.data, o.align, o.maxCount)
      modifies this`sp, this`minAlign, this`graph, this`frames, this`align, this`open, ds
      ensures var o := Top(old(open));
        Valid() && minAlign == if o.count > o.maxCount then old(minAlign) else Max(old(minAlign), Max(o.align, 4))
      ensures var o := Top(old(open));
        var a := AlignDown(old(sp).start - |o.data|, Max(o.align, 4)) - 4;
        ref == if o.count <= o.maxCount && a >= -U32 / 2 then a else 0
      ensures ref == 0 ==> sp == old(sp) && graph == old(graph) && open == old(open)
      ensures var o := Top(old(open));
        ref != 0 ==>
          FlatEmission.CreateVector(old(sp), o.count, o.elemSize, o.data, o.align, o.maxCount)
          == Emitted(sp, ref)
      ensures var o := Top(old(open));
        ref != 0 ==> graph == old(graph)[ref := VectorNode(o.elemSize, o.align, o.count, o.data)] && ref !in old(graph)
      ensures ref != 0 ==> open == old(open)[..|old(open)| - 1]
    {
      hide EmissionOk, FramesOk, TablesOk, DataOk, EntriesOk, LogsOk, BucketOk;
      var data := FrameData();
      Innermost();
      var f := Top(frames);
      ref := CreateVector(f.count, f.elemSize, data, align, f.maxCount);
      if ref != 0 { ExitFrame(); }
    }

    // -------------------------------------------------------------- offset vectors

    method StartOffsetVector()
      requires Valid()
      modifies this`frames, this`align, this`open, ds
      ensures Valid() && open == old(open) + [OpenOffsets([])]
    {
      EnterFrame(Frame(OffsetVectorFrame, align, 4, 0, 0, 0, 0), 4, DATA_LIMIT, OpenOffsets([]));
    }

    static lemma RefBytesPush(refs: seq<int>, ref: int)
      ensures RefBytes(refs + [ref]) == RefBytes(refs) + Le32(ref % U32)
    {
    }

    method OffsetVectorPush(ref: int) returns (ok: bool)
      requires Valid() && open != [] && Top(open).OpenOffsets? && ref in graph
      modifies this`frames, this`open, ds
      ensures Valid() && ok == (|Top(old(open)).refs| != (U32 - 1) / 4)
      ensures open == if ok then WithTop(old(open), OpenOffsets(Top(old(open)).refs + [ref])) else old(open)
    {
      hide EmissionOk, FramesOk, TablesOk, DataOk, EntriesOk, LogsOk, BucketOk, RefBytes;
      Innermost();
      var f := Top(frames);
      if f.count == (U32 - 1) / 4 { return false; }
      ghost var was, wasFrames, o := ds.contents, frames, OpenOffsets(Top(open).refs + [ref]);
      RefBytesPush(Top(open).refs, ref);
      var _ := ds.PushCopy(Le32(ref % U32));
      frames := WithTop(frames, f.(count := f.count + 1));
      Became(o, was, f.(count := f.count + 1), wasFrames);
      ok := true;
    }

    static lemma {:induction false} RefBytesTake(refs: seq<int>, n: nat)
      requires n <= |refs|
      ensures RefBytes(refs)[..4 * n] == RefBytes(refs[..n])
      decreases |refs|
    {
      hide Le32;
      if n < |refs| {
        RefBytesTake(refs[..|refs| - 1], n);
        assert refs[..|refs| - 1][..n] == refs[..n];
      } else {
        assert refs[..n] == refs;
      }
    }

    method TruncateOffsetVector(count: nat) returns (ok: bool)
      requires Valid() && open != [] && Top(open).OpenOffsets?
      modifies this`frames, this`open, ds
      ensures Valid() && ok == (count <= |Top(old(open)).refs|)
      ensures var refs := Top(old(open)).refs;
        open == if ok then WithTop(old(open), OpenOffsets(refs[..|refs| - count])) else old(open)
    {
      hide EmissionOk, FramesOk, TablesOk, DataOk, EntriesOk, LogsOk, BucketOk, RefBytes;
      Innermost();
      var f := Top(frames);
      if f.count < count { return false; }
      ghost var was, wasFrames, refs := ds.contents, frames, Top(open).refs;
      ghost var o := OpenOffsets(refs[..|refs| - count]);
      RefBytesTake(refs, |refs| - count);
      ds.Unpush(f.elemSize * count);
      frames := WithTop(frames, f.(count := f.count - count));
      Became(o, was, f.(count := f.count - count), wasFrames);
      ok := true;
    }

    /** The references held by the frame, read back as signed words. */
    method ReadRefs(data: seq<byte>, ghost refs: seq<int>) returns (read: seq<int>)
      requires data == RefBytes(refs) && forall i | 0 <= i < |refs| :: -U32 / 2 <= refs[i] < U32 / 2
      ensures read == refs
    {
      hide Le32, RefBytes, U32At;
      read := [];
      var i := 0;
      while 4 * i < |data|
        invariant 0 <= i <= |refs| && |data| == 4 * |refs| && read == refs[..i]
      {
        RefWord(refs, i);
        read := read + [Int32(U32At(data, 4 * i))];
        i := i + 1;
      }
    }

    static lemma RefWord(refs: seq<int>, i: nat)
      requires i < |refs| && -U32 / 2 <= refs[i] < U32 / 2
      ensures Int32(U32At(RefBytes(refs), 4 * i)) == refs[i]
    {
      hide Le32, U32At, RefBytes;
      RefBytesTake(refs, i + 1);
      assert refs[..i + 1] == refs[..i] + [refs[i]];
      RefBytesPush(refs[..i], refs[i]);
      LastWord(RefBytes(refs), RefBytes(refs[..i]), refs[i] % U32);
      SignedWord(refs[i]);
    }

    static lemma LastWord(b: seq<byte>, before: seq<byte>, v: int)
      requires 0 <= v < U32 && |before| + 4 <= |b| && b[..|before| + 4] == before + Le32(v)
      ensures U32At(b, |before|) == v
    {
    }

    static lemma SignedWord(x: int)
      requires -U32 / 2 <= x < U32 / 2
      ensures Int32(x % U32) == x
    {
    }

    /** Emits the offsets to the references pushed so far, exactly as a direct call would. */
    method EndOffsetVector() returns (ref: int)
      requires Valid() && open != [] && Top(open).OpenOffsets? && OffsetsFit(sp, Top(open).refs)
      modifies this`sp, this`minAlign, this`graph, this`frames, this`align, this`open, ds
      ensures var refs := Top(old(open)).refs;
        Valid() && minAlign == if 4 * |refs| >= U32 then old(minAlign) else Max(old(minAlign), 4)
      ensures var refs := Top(old(open)).refs;
        var a := AlignDown(old(sp).start - 4 * |refs|, 4) - 4;
        ref == if 4 * |refs| < U32 && a >= -U32 / 2 then a else 0
      ensures ref == 0 ==> sp == old(sp) && graph == old(graph) && open == old(open)
      ensures ref != 0 ==> FlatEmission.CreateOffsetVector(old(sp), Top(old(open)).refs) == Emitted(sp, ref)
      ensures ref != 0 ==> graph == old(graph)[ref := OffsetsNode(Top(old(open)).refs)] && ref !in old(graph)
      ensures ref != 0 ==> open == old(open)[..|old(open)| - 1]
    {
      hide EmissionOk, FramesOk, TablesOk, DataOk, EntriesOk, LogsOk, BucketOk, RefBytes;
      var data := FrameData();
      Innermost();
      EvenEnd();
      RefsInside(Top(open).refs);
      var refs := ReadRefs(data, Top(open).refs);
      ref := CreateOffsetVector(refs);
      if ref != 0 { ExitFrame(); }
    }

    // --------------------------------------------------------------------- tables

    static function NoFields(): OpenTable
    {
      OpenTable([], [], [], 4, map[])
    }

    static lemma NoFieldsOk(g: Graph)
      ensures ValidOpen(NoFields()) && RefsIn(NoFields(), g)
    {
    }

    /** Opens a table that takes fields with ids below `count`. */
    method StartTable(count: nat)
      requires Valid()
      modifies this`frames, this`align, this`open, ds, ts
      ensures Valid() && open == old(open) + [OpenTableFrame(NoFields(), count)]
    {
      hide EmissionOk, FramesOk, TablesOk, KindOk, DataOk, EntriesOk, LogsOk, BucketOk, ValidOpen;
      ghost var o := OpenTableFrame(NoFields(), count);
      NoFieldsOk(graph);
      var f := Frame(TableFrame, align, 0, 0, 0, 0, 0);
      assert KindOk(f, o) by { TableKind(f, o); }
      FramesPush(frames, open, align, ds.contents, graph, f, o);
      TablesOkPush(open, ts.tables, ts.logs, ts.counts, o);
      ds.Enter(TABLE_LIMIT);
      ts.Start(count);
      frames, align, open := frames + [f], 4, open + [o];
    }

    static lemma TableKind(f: Frame, o: Open)
      requires f.kind.TableFrame? && o.OpenTableFrame?
      ensures KindOk(f, o)
    {
    }

    /** The innermost table has become `o`, the stacks having been changed to match. */
    ghost method TableBecame(o: Open, was: seq<seq<byte>>, wasTables: seq<seq<int>>, wasLogs: seq<seq<int>>,
        wasAlign: int)
      requires open != [] && o.OpenTableFrame? && Top(open).OpenTableFrame? && o.count == Top(open).count &&
        o.table.align == align
      requires ds.Valid() && ts.Valid() && cache.Valid() && EmissionOk(sp, graph, minAlign, cache.known)
      requires FramesOk(frames, open, wasAlign, was, graph) && TablesOk(open, wasTables, wasLogs, ts.counts)
      requires was != [] && ds.contents == WithTop(was, o.table.data)
      requires wasTables != [] ==> ts.tables == WithTop(wasTables, o.table.vs)
      requires wasLogs != [] ==> ts.logs == WithTop(wasLogs, o.table.pl)
      requires ValidOpen(o.table) && RefsIn(o.table, graph)
      modifies this`open
      ensures Valid() && open == WithTop(old(open), o)
    {
      hide EmissionOk, FramesOk, TablesOk, DataOk, EntriesOk, LogsOk, BucketOk, ValidOpen;
      FramesTop(frames, open, wasAlign, was, graph);
      FramesReplace(frames, open, wasAlign, was, graph, Top(frames), o, o.table.data);
      TablesOkReplace(open, wasTables, wasLogs, ts.counts, o);
      assert WithTop(frames, Top(frames)) == frames;
      open := WithTop(open, o);
    }

    /** What the stacks hold of the innermost table. */
    lemma InnermostTable()
      requires Valid() && open != [] && Top(open).OpenTableFrame?
      ensures var t := Top(open).table;
        ValidOpen(t) && RefsIn(t, graph) && align == t.align && |frames| == |open| == |ds.contents| &&
          Top(ds.contents) == t.data
      ensures ts.tables != [] && ts.logs != [] && ts.counts != []
      ensures Top(ts.tables) == Top(open).table.vs && Top(ts.logs) == Top(open).table.pl &&
        Top(ts.counts) == Top(open).count
    {
      hide ValidOpen, EmissionOk, DataOk, EntriesOk, LogsOk, BucketOk;
      FramesTop(frames, open, align, ds.contents, graph);
      TablesOkReplace(open, ts.tables, ts.logs, ts.counts, Top(open));
    }

    /** Adds a scalar or struct field. Adding a field twice fails, though the table's alignment has
        then already been raised. */
    method TableAdd(id: nat, data: seq<byte>, al: int) returns (ok: bool)
      requires Valid() && open != [] && Top(open).OpenTableFrame? && ValidAlign(al)
      requires id <= ID_MAX && id < Top(open).count
      requires AlignUp(|Top(open).table.data|, al) + |data| + 4 < U16
      modifies this`align, this`open, ds, ts
      ensures Valid() && ok == (id !in Top(old(open)).table.fields)
      ensures |open| == |old(open)| && open[..|open| - 1] == old(open)[..|open| - 1] && Top(open).OpenTableFrame?
      ensures Top(open).count == Top(old(open)).count && Top(open).table.align == Max(Top(old(open)).table.align, al)
      ensures var t := Top(old(open)).table;
        Top(open).table.fields == if ok then t.fields[id := Inline(data, al)] else t.fields
      ensures !ok ==> Top(open).table.data == Top(old(open)).table.data
      ensures ok ==> |Top(open).table.data| == AlignUp(|Top(old(open)).table.data|, al) + |data|
      ensures ok ==> |Top(open).table.vs| == Max(|Top(old(open)).table.vs|, id + 1)
    {
      hide EmissionOk, FramesOk, TablesOk, DataOk, EntriesOk, LogsOk, BucketOk, ValidOpen, IsPow2, SetEntry;
      InnermostTable();
      ghost var was, wasTables, wasLogs, wasAlign, t, o :=
          ds.contents, ts.tables, ts.logs, align, Top(open).table, Top(open);
      OpenBounds(t);
      if al > align { align := al; }
      var v := ts.Get(id);
      HasEntry(t, id);
      if v != 0 {
        RaiseInnermost(wasAlign);
        return false;
      }
      var at := ds.PushField(data, al);
      ts.Set(id, at + 4);
      ghost var t' := TableWith(t, id, at, data, align, Inline(data, al));
      TableAdds(t, id, at, data, align, Inline(data, al));
      assert ts.logs == WithTop(wasLogs, t'.pl);
      TableBecame(o.(table := t'), was, wasTables, wasLogs, wasAlign);
      ok := true;
    }

    /** Nothing but the alignment of the innermost table has been raised. */
    ghost method RaiseInnermost(wasAlign: int)
      requires ds.Valid() && ts.Valid() && cache.Valid() && EmissionOk(sp, graph, minAlign, cache.known)
      requires open != [] && Top(open).OpenTableFrame? && ValidOpen(Top(open).table) && RefsIn(Top(open).table, graph)
      requires FramesOk(frames, open, wasAlign, ds.contents, graph) && TablesOk(open, ts.tables, ts.logs, ts.counts)
      requires ds.contents != [] && ts.tables != [] && ts.logs != [] && Top(ds.contents) == Top(open).table.data
      requires Top(ts.tables) == Top(open).table.vs && Top(ts.logs) == Top(open).table.pl
      requires Top(open).table.align <= align && ValidAlign(align)
      modifies this`open
      ensures Valid() && open == WithTop(old(open), Top(old(open)).(table := Top(old(open)).table.(align := align)))
    {
      hide EmissionOk, FramesOk, TablesOk, DataOk, EntriesOk, LogsOk, BucketOk, ValidOpen, IsPow2;
      var o := Top(open);
      RaiseTable(o.table, align);
      SameTop(ts.tables);
      SameTop(ts.logs);
      SameTop(ds.contents);
      TableBecame(o.(table := o.table.(align := align)), ds.contents, ts.tables, ts.logs, wasAlign);
    }

    static lemma SameTop<T>(s: seq<T>)
      requires s != []
      ensures WithTop(s, Top(s)) == s
    {
    }

    static lemma HasEntry(t: OpenTable, id: nat)
      requires ValidOpen(t)
      ensures id in t.fields <==> id < |t.vs| && t.vs[id] != 0
    {
    }

    static lemma RaiseTable(t: OpenTable, al: int)
      requires ValidOpen(t) && t.align <= al && ValidAlign(al)
      ensures ValidOpen(t.(align := al))
    {
      var t' := t.(align := al);
      forall i, j | i in t'.fields && j in t'.fields && i != j ensures FieldsApart(t', i, j) {
        assert FieldsApart(t, i, j);
      }
      forall i | i in t'.fields ensures FieldLaidOut(t', i) { FieldStays(t, t', i); }
      forall i | 0 <= i < |t'.pl| ensures LoggedPlace(t', t'.pl[i]) { assert LoggedPlace(t, t.pl[i]); }
    }

    /** Adds a field that refers to an object emitted before; the place is logged for patching. */
    method TableAddOffset(id: nat, ref: int) returns (ok: bool)
      requires Valid() && open != [] && Top(open).OpenTableFrame? && ref in graph
      requires id <= ID_MAX && id < Top(open).count
      requires AlignUp(|Top(open).table.data|, 4) + 8 < U16
      modifies this`open, ds, ts
      ensures Valid() && ok == (id !in Top(old(open)).table.fields)
      ensures |open| == |old(open)| && open[..|open| - 1] == old(open)[..|open| - 1] && Top(open).OpenTableFrame?
      ensures Top(open).count == Top(old(open)).count && Top(open).table.align == Top(old(open)).table.align
      ensures var t := Top(old(open)).table;
        Top(open).table.fields == if ok then t.fields[id := Ref(ref)] else t.fields
      ensures !ok ==> open == old(open)
      ensures ok ==> |Top(open).table.data| == AlignUp(|Top(old(open)).table.data|, 4) + 4
      ensures ok ==> |Top(open).table.vs| == Max(|Top(old(open)).table.vs|, id + 1)
    {
      hide EmissionOk, FramesOk, TablesOk, DataOk, EntriesOk, LogsOk, BucketOk, ValidOpen, IsPow2, SetEntry;
      InnermostTable();
      ghost var was, wasTables, wasLogs, t, o := ds.contents, ts.tables, ts.logs, Top(open).table, Top(open);
      OpenBounds(t);
      var v := ts.Get(id);
      HasEntry(t, id);
      if v != 0 { return false; }
      var at := ds.PushOffsetField(Le32(ref % U32));
      ts.Set(id, at + 4);
      ts.Log(at);
      ghost var t' := TableWith(t, id, at, Le32(ref % U32), align, Ref(ref));
      TableAdds(t, id, at, Le32(ref % U32), align, Ref(ref));
      TableBecame(o.(table := t'), was, wasTables, wasLogs, align);
      ok := true;
    }

    /** Emits a vtable behind the buffer, or in front when vtables are not clustered. */
    method EmitVtable(vt: seq<int>, clustered: bool, ghost key: Key) returns (ref: int)
      requires EmissionOk(sp, graph, minAlign, cache.known) && ValidVt(vt) && key.vt == vt
      modifies this`sp
      ensures ref == 0 ==> sp == old(sp)
      ensures ref == 0 <==>
        if clustered then old(sp).End() + 2 * |vt| >= U32 / 2 else old(sp).start - 2 * |vt| < -U32 / 2
      ensures ref == 0 ==> EmissionOk(sp, graph, minAlign, cache.known)
      ensures ref != 0 ==> ValidSpace(old(sp)) && CreateVtable(old(sp), vt, clustered) == Emitted(sp, ref)
      ensures ref != 0 ==> Grown(old(sp), sp) && CachedAt(sp, vt, ref)
      ensures ref != 0 ==>
        EmissionOk(sp, graph, minAlign, cache.known[key := ref]) && EmissionOk(sp, graph, minAlign, map[])
    {
      hide EmissionOk, VtStored, VtBytes, Extends;
      EmissionBounds(sp, graph, minAlign, cache.known);
      var r := CreateVtable(sp, vt, clustered);
      VtableFits(sp, vt, clustered);
      if r.Failed? { return 0; }
      VtableCreated(sp, vt, clustered);
      EmissionGrows(sp, graph, minAlign, cache.known, r.sp, minAlign);
      assert CachedAt(r.sp, vt, r.ref);
      CacheAdds(r.sp, graph, minAlign, cache.known, key, r.ref);
      sp, ref := r.sp, r.ref;
    }

    /** Emits a vtable, or finds one with the same entries emitted before in the same buffer. A hit
        emits nothing and keeps what is known; a miss adds the vtable to what is known, unless storing
        its entries would outgrow the limit: then the cache is emptied. Only the top-level buffer,
        whose id is 0, clusters its vtables. */
    method CreateCachedVtable(vt: seq<int>, hash: int, nestId: int, clustering: bool)
      returns (ref: int, ghost flushed: bool)
      requires cache.Valid() && EmissionOk(sp, graph, minAlign, cache.known) && ValidVt(vt)
      modifies this`sp, cache
      ensures cache.Valid() && cache.vbFlushLimit == old(cache.vbFlushLimit)
      ensures |cache.ht| == if old(cache.ht) == [] then MIN_HASH_COUNT else |old(cache.ht)|
      ensures EmissionOk(sp, graph, minAlign, cache.known)
      ensures ref != 0 ==> Grown(old(sp), sp) && CachedAt(sp, vt, ref)
      ensures ref == 0 ==> sp == old(sp) && cache.known == old(cache.known) && cache.vb == old(cache.vb)
      ensures ref == 0 <==>
        cache.KeyOf(vt, hash, nestId) !in old(cache.known) &&
        (if nestId == 0 && clustering then old(sp).End() + 2 * |vt| >= U32 / 2
         else old(sp).start - 2 * |vt| < -U32 / 2)
      ensures ref != 0 ==>
        VtableStep(VtableCall(old(sp), old(cache.known), 2 * |old(cache.vb)|, cache.KeyOf(vt, hash, nestId),
          nestId == 0 && clustering, sp, cache.known, 2 * |cache.vb|, ref, flushed), cache.vbFlushLimit)
      ensures flushed <==>
        && ref != 0 && !KnownElsewhere(old(cache.known), cache.Bucket(hash), vt)
        && cache.vbFlushLimit != 0 && 2 * |old(cache.vb)| + 2 * |vt| > cache.vbFlushLimit
    {
      hide EmissionOk, FramesOk, TablesOk, DataOk, EntriesOk, LogsOk, BucketOk, VtStored, VtBytes, Extends,
        KnownElsewhere, VtableStep, CreateVtable;
      EmissionBounds(sp, graph, minAlign, cache.known);
      SameSpace(sp);
      cache.Prepare();
      var twin;
      ref, twin := cache.Lookup(vt, hash, nestId);
      flushed := false;
      ghost var key := cache.KeyOf(vt, hash, nestId);
      ghost var limit, stored := cache.vbFlushLimit, 2 * |cache.vb|;
      if ref != 0 {
        CachedRef(key);
        HitStep(sp, cache.known, stored, key, nestId == 0 && clustering, limit);
        return;
      }
      var clustered := nestId == 0 && clustering;
      ghost var was, known := sp, cache.known;
      ref := EmitVtable(vt, clustered, key);
      if ref == 0 { return; }
      flushed := cache.Insert(vt, hash, nestId, ref, twin);
      MissStep(VtableCall(was, known, stored, key, clustered, sp, cache.known, 2 * |cache.vb|, ref, flushed), limit);
    }

    static lemma SameSpace(sp: Space)
      requires ValidSpace(sp)
      ensures Grown(sp, sp)
    {
    }

    lemma CachedRef(key: Key)
      requires EmissionOk(sp, graph, minAlign, cache.known) && key in cache.known
      ensures CachedAt(sp, key.vt, cache.known[key])
    {
    }

    /** The references at the logged places of `data` turned into offsets, one after the other. */
    method PatchReferences(data: seq<byte>, offsets: seq<int>, base: int) returns (patched: seq<byte>)
      requires forall i | 0 <= i < |offsets| :: 0 <= offsets[i] <= |data| - 4
      ensures patched == Patch(data, offsets, base)
    {
      hide Le32, U32At;
      patched := data;
      var i := 0;
      while i < |offsets|
        invariant 0 <= i <= |offsets| && |patched| == |data|
        invariant forall j | 0 <= j < |offsets[i..]| :: 0 <= offsets[i..][j] <= |data| - 4
        invariant Patch(patched, offsets[i..], base) == Patch(data, offsets, base)
      {
        var o := offsets[i];
        assert offsets[i..][0] == o && offsets[i..][1..] == offsets[i + 1..];
        var v := (U32At(patched, o) - base - o - 4) % U32;
        patched := patched[..o] + Le32(v) + patched[o + 4..];
        i := i + 1;
      }
      assert offsets[i..] == [];
    }

    /** Emits the table's header, patched data and padding. */
    method EmitTable(ghost t: OpenTable, data: seq<byte>, al: int, pl: seq<int>, vtRef: int) returns (ref: int)
      requires EmissionOk(sp, graph, minAlign, cache.known) && ValidOpen(t) && RefsIn(t, graph)
      requires data == t.data && pl == t.pl && al == t.align && CachedAt(sp, VtOf(t), vtRef)
      modifies this`sp, this`minAlign, this`graph
      ensures minAlign == Max(old(minAlign), al) && (ref == 0 ==> sp == old(sp) && graph == old(graph))
      ensures t.align > 0 && var a := AlignDown(old(sp).start - |t.data|, t.align) - 4;
        ref == if a >= -U32 / 2 then a else 0
      ensures ref != 0 ==> EmissionOk(sp, graph, minAlign, cache.known)
      ensures ref != 0 ==>
        ref !in old(graph) && graph == old(graph)[ref := TableNode(vtRef - 1, t.fields)] &&
        ref == sp.start
      ensures ref != 0 ==> TableEmitted(old(sp), t, vtRef, sp, ref) && sp.End() == old(sp).End()
    {
      hide EmissionOk, ValidOpen, VtStored, TableAt, Padded, EmitFront, Patch, Extends, RefsIn;
      OpenBounds(t);
      PatchLogFits(t);
      VtOfIsValid(t);
      EmissionBounds(sp, graph, minAlign, cache.known);
      TargetsInside(t);
      TableCreated(sp, t, vtRef);
      var base := TableBase(sp, |data|, al);
      var patched := PatchReferences(data, pl, base);
      var r := EmitFront(sp, Padded(sp, (base - (vtRef - 1)) % U32, patched, al));
      assert r == CreateTable(sp, t.data, t.align, t.pl, vtRef);
      ghost var was := minAlign;
      if minAlign < al { minAlign := al; }
      if r.Failed? { return 0; }
      ghost var node := TableNode(vtRef - 1, t.fields);
      assert TargetsIn(graph, r.ref, node) by { TargetsAbove(t, r.ref, vtRef - 1); }
      assert NodeAligned(node, minAlign) by { FieldsAligned(t, vtRef - 1, minAlign); }
      EmissionCreates(sp, graph, was, cache.known, r.sp, r.ref, node, minAlign);
      sp, graph, ref := r.sp, graph[r.ref := node], r.ref;
    }

    static lemma EmissionBounds(sp: Space, g: Graph, m: int, known: map<Key, int>)
      requires EmissionOk(sp, g, m, known)
      ensures ValidSpace(sp) && EvenEnds(sp) && 0 <= m <= 256 && (m == 0 || IsPow2(m))
    {
    }

    lemma TargetsInside(t: OpenTable)
      requires EmissionOk(sp, graph, minAlign, cache.known) && RefsIn(t, graph)
      ensures forall id | id in t.fields && t.fields[id].Ref? :: sp.start <= t.fields[id].target < 0 <= sp.End()
    {
    }

    lemma TargetsAbove(t: OpenTable, a: int, vt: int)
      requires RefsIn(t, graph) && a < sp.start
      requires forall id | id in t.fields && t.fields[id].Ref? :: sp.start <= t.fields[id].target
      ensures TargetsIn(graph, a, TableNode(vt, t.fields))
    {
    }

    static lemma FieldsAligned(t: OpenTable, vt: int, m: int)
      requires ValidOpen(t) && vt % 2 == 0 && t.align <= m
      ensures NodeAligned(TableNode(vt, t.fields), m)
    {
    }

    /** Takes the innermost table off the table stack: its data, vtable and patch log. */
    method CloseTable() returns (data: seq<byte>, vt: seq<int>, pl: seq<int>)
      requires Valid() && open != [] && Top(open).OpenTableFrame?
      modifies ts
      ensures ds.Valid() && ts.Valid() && cache.Valid() && EmissionOk(sp, graph, minAlign, cache.known)
      ensures var t := Top(open).table;
        data == t.data && vt == VtOf(t) && pl == t.pl && align == t.align &&
        ValidOpen(t) && RefsIn(t, graph) && ValidVt(vt) && t.align > 0
      ensures |frames| == |open| == |ds.contents| && LeavesFrames(graph)
      ensures GraphAt(sp, graph) && Grown(sp, sp)
    {
      hide EmissionOk, FramesOk, TablesOk, DataOk, EntriesOk, LogsOk, BucketOk, ValidOpen, RefsIn, GraphAt, Extends;
      InnermostTable();
      VtOfIsValid(Top(open).table);
      OpenBounds(Top(open).table);
      TablesOkPop(open, ts.tables, ts.logs, ts.counts);
      FramesPop(frames, open, align, ds.contents, graph);
      EmittedSoFar(sp, graph, minAlign, cache.known);
      data := FrameData();
      OffsetIsLength();
      vt, pl := ts.End(ds.offset + 4);
    }

    /** The frames below the innermost one are in order for the objects of `g`. */
    ghost predicate LeavesFrames(g: Graph)
      requires |frames| == |open| == |ds.contents| && open != []
      reads this, ds, ts
    {
      var n := |frames| - 1;
      && FramesOk(frames[..n], open[..n], frames[n].align, ds.contents[..n], g)
      && TablesOk(open[..n], ts.tables, ts.logs, ts.counts)
    }

    /** Leaves the frame of a table that has been emitted. */
    method LeaveTable(ghost was: Graph)
      requires ds.Valid() && ts.Valid() && cache.Valid() && EmissionOk(sp, graph, minAlign, cache.known)
      requires |frames| == |open| == |ds.contents| && open != [] && LeavesFrames(was)
      requires forall a | a in was :: a in graph
      modifies this`frames, this`align, this`open, ds
      ensures Valid() && open == old(open)[..|old(open)| - 1]
    {
      hide EmissionOk, FramesOk, TablesOk, DataOk, EntriesOk, LogsOk, BucketOk;
      var n := |frames| - 1;
      FramesKept(frames[..n], open[..n], frames[n].align, ds.contents[..n], was, graph);
      ds.Exit();
      frames, align, open := frames[..n], frames[n].align, open[..n];
    }

    /** Ends a table: its vtable is found or emitted, its references become offsets, and its frame is
        left. Reference 0 means that the buffer outgrew its address range; the builder is then to be
        cleared. `mid` is the space once the vtable is in place. */
    method EndTable(hash: int, nestId: int, clustering: bool)
      returns (ref: int, ghost vtRef: int, ghost mid: Space, ghost flushed: bool)
      requires Valid() && open != [] && Top(open).OpenTableFrame?
      modifies this`sp, this`minAlign, this`graph, this`frames, this`align, this`open, ds, ts, cache
      ensures var t := Top(old(open)).table;
        ref != 0 ==> Valid() && ref !in old(graph) && graph == old(graph)[ref := TableNode(vtRef - 1, t.fields)]
      ensures ref != 0 ==> ref == sp.start && sp.End() == mid.End()
      ensures ref != 0 ==> open == old(open)[..|old(open)| - 1]
      ensures minAlign == if vtRef == 0 then old(minAlign) else Max(old(minAlign), Top(old(open)).table.align)
      ensures ref != 0 ==> TableEmitted(mid, Top(old(open)).table, vtRef, sp, ref)
      ensures |cache.ht| == if old(cache.ht) == [] then MIN_HASH_COUNT else |old(cache.ht)|
      ensures cache.vbFlushLimit == old(cache.vbFlushLimit)
      ensures var key := cache.KeyOf(VtOf(Top(old(open)).table), hash, nestId);
        vtRef != 0 ==>
          VtableStep(VtableCall(old(sp), old(cache.known), 2 * |old(cache.vb)|, key,
            nestId == 0 && clustering, mid, cache.known, 2 * |cache.vb|, vtRef, flushed), cache.vbFlushLimit)
      ensures var key := cache.KeyOf(VtOf(Top(old(open)).table), hash, nestId);
        flushed <==>
          && vtRef != 0 && !KnownElsewhere(old(cache.known), key.bucket, key.vt)
          && cache.vbFlushLimit != 0 && 2 * |old(cache.vb)| + 2 * |key.vt| > cache.vbFlushLimit
      ensures var t := Top(old(open)).table;
        vtRef == 0 <==>
          cache.KeyOf(VtOf(t), hash, nestId) !in old(cache.known) &&
          (if nestId == 0 && clustering then old(sp).End() + 2 * |t.vs| + 4 >= U32 / 2
           else old(sp).start - 2 * |t.vs| - 4 < -U32 / 2)
      ensures var t := Top(old(open)).table;
        t.align > 0 && var a := AlignDown(mid.start - |t.data|, t.align) - 4;
        ref == if vtRef != 0 && a >= -U32 / 2 then a else 0
      ensures ref == 0 ==> graph == old(graph) && Grown(old(sp), sp) && GraphAt(sp, graph)
    {
      hide EmissionOk, FramesOk, TablesOk, DataOk, EntriesOk, LogsOk, BucketOk, ValidOpen, RefsIn, TableEmitted;
      hide VtableStep, KnownElsewhere, Extends, VtStored, GraphAt, CreateVtable, AlignDown, IsPow2;
      ghost var t := Top(open).table;
      var data, vt, pl := CloseTable();
      hide LeavesFrames;
      var v;
      v, flushed := CreateCachedVtable(vt, hash, nestId, clustering);
      vtRef, mid := v, sp;
      EmittedSoFar(sp, graph, minAlign, cache.known);
      if v == 0 { return 0, v, mid, false; }
      ref := EmitTable(t, data, align, pl, v);
      if ref != 0 { LeaveTable(old(graph)); }
    }

    static lemma EmittedSoFar(sp: Space, g: Graph, m: int, known: map<Key, int>)
      requires EmissionOk(sp, g, m, known)
      ensures GraphAt(sp, g) && Grown(sp, sp)
    {
    }

    // --------------------------------------------------------------------- buffers

    /** Opens the top-level buffer. Objects may have been created before. */
    method StartBuffer(newIdentifier: int, newBlockAlign: int)
      requires Valid() && open == [] && 0 <= newIdentifier < U32 && (newBlockAlign == 0 || ValidAlign(newBlockAlign))
      modifies this`frames, this`align, this`minAlign, this`open, this`identifier, this`blockAlign, ds
      ensures Valid() && open == [OpenBuffer(old(minAlign))] && minAlign == Max(old(minAlign), 1)
      ensures identifier == newIdentifier && blockAlign == newBlockAlign
    {
      hide EmissionOk, FramesOk, TablesOk, DataOk, EntriesOk, LogsOk, BucketOk;
      EvenEnd();
      EnterFrame(Frame(BufferFrame, align, 0, 0, 0, identifier, blockAlign), minAlign, DATA_LIMIT,
        OpenBuffer(minAlign));
      if minAlign == 0 { SetMinAlign(1); }
      identifier, blockAlign := newIdentifier, newBlockAlign;
    }

    /** Pads the end by its remainder. */
    method AlignEnd(al: int) returns (ok: bool)
      requires Valid() && ValidAlign(al) && al >= 4
      modifies this`sp
      ensures Valid() && Grown(old(sp), sp) && sp.start == old(sp).start && minAlign == old(minAlign)
      ensures ok <==> old(sp).End() + old(sp).End() % al < U32 / 2
      ensures !ok ==> sp == old(sp)
      ensures ok ==> sp.End() == old(sp).End() + old(sp).End() % al
      ensures ok ==> (sp.End() % al == 0 <==> old(sp).End() % (al / 2) == 0)
    {
      hide EmissionOk, FramesOk, TablesOk, DataOk, EntriesOk, LogsOk, BucketOk, Extends, IsPow2;
      EvenEnd();
      EndPadding(sp.End(), al);
      SameSpace(sp);
      var pad := sp.End() % al;
      if pad == 0 { return true; }
      EvenPad(sp.End(), al);
      EmitBackResult(sp, Zeros(pad));
      var r := EmitBack(sp, Zeros(pad));
      if r.Failed? { return false; }
      EmissionGrows(sp, graph, minAlign, cache.known, r.sp, minAlign);
      sp, ok := r.sp, true;
    }

    static lemma EvenPad(end: int, al: int)
      requires ValidAlign(al) && al >= 4 && end % 2 == 0
      ensures (end + end % al) % 2 == 0
    {
      hide IsPow2;
      SmallPowers();
      AlignedToLess(al, 2, al);
      EvenParts(end, end / al, al / 2, end % al);
    }

    static lemma EvenParts(end: int, q: int, h: int, r: int)
      requires end == 2 * h * q + r && end % 2 == 0
      ensures (end + r) % 2 == 0
    {
      MulAssociates(2, h, q);
    }

    /** Pads the end, then emits the header in front: the buffer starts on a multiple of `al` and its
        first word leads to the root. */
    method CreateBuffer(root: int, requested: int) returns (ref: int, al: int)
      requires Valid() && root in graph && 0 <= identifier < U32 && (blockAlign == 0 || ValidAlign(blockAlign))
      requires ValidAlign(requested) && requested >= minAlign
      modifies this`sp, this`minAlign
      ensures Valid() && ValidAlign(al) && al >= 4 &&
        al == Max(Max(requested, 4), if blockAlign != 0 then blockAlign else 1)
      ensures var a := AlignDown(old(sp).start - (if identifier != 0 then 8 else 4), al);
        ref == if old(sp).End() + old(sp).End() % al < U32 / 2 && a >= -U32 / 2 then a else 0
      ensures ref != 0 ==> ref == sp.start && minAlign == al && HeaderAt(sp, root, identifier, al)
      ensures ref != 0 ==> sp.End() == old(sp).End() + old(sp).End() % al
      ensures ref != 0 ==> (sp.End() % al == 0 <==> old(sp).End() % (al / 2) == 0)
    {
      hide Valid, HeaderAt, IsPow2;
      SmallPowers();
      al := Max(Max(requested, 4), if blockAlign != 0 then blockAlign else 1);
      var ok := AlignEnd(al);
      if !ok { return 0, al; }
      ref := EmitHeader(root, al);
    }

    /** Emits the root's offset, the identifier and the padding before them. */
    method EmitHeader(root: int, al: int) returns (ref: int)
      requires Valid() && root in graph && 0 <= identifier < U32 && ValidAlign(al) && al >= 4 && al >= minAlign
      modifies this`sp, this`minAlign
      ensures Valid() && minAlign == al && (ref == 0 ==> sp == old(sp))
      ensures var a := AlignDown(old(sp).start - (if identifier != 0 then 8 else 4), al);
        ref == if a >= -U32 / 2 then a else 0
      ensures ref != 0 ==> ref == sp.start && HeaderAt(sp, root, identifier, al) && sp.End() == old(sp).End()
    {
      hide EmissionOk, FramesOk, TablesOk, DataOk, EntriesOk, LogsOk, BucketOk, HeaderBytes, HeaderAt, Extends, IsPow2;
      SetMinAlign(al);
      EvenEnd();
      BelowObjects(sp, graph, minAlign, cache.known, root);
      HeaderEmitted(sp, root, identifier, al);
      var r := EmitFront(sp, HeaderBytes(sp, root, identifier, al));
      if r.Failed? { return 0; }
      assert r.sp.start % al == 0 by { HeaderStart(r.sp, root, identifier, al); }
      AlignedToLess(r.sp.start, 2, al) by { SmallPowers(); }
      EmissionGrows(sp, graph, minAlign, cache.known, r.sp, al);
      sp, ref := r.sp, r.ref;
    }

    /** Ends the buffer. What has been built is then finished: laid out from a start that is a
        multiple of every alignment used, with its root behind the first word. */
    method EndBuffer(root: int) returns (ref: int, al: int)
      requires Valid() && |open| == 1 && Top(open).OpenBuffer? && root in graph && minAlign >= 1
      requires 0 <= identifier < U32 && (blockAlign == 0 || ValidAlign(blockAlign))
      modifies this, ds
      ensures graph == old(graph) && Valid() && ValidAlign(al)
      ensures al == Max(Max(old(minAlign), 4), old(blockAlign))
      ensures var a := AlignDown(old(sp).start - (if old(identifier) != 0 then 8 else 4), al);
        ref == if old(sp).End() + old(sp).End() % al < U32 / 2 && a >= -U32 / 2 then a else 0
      ensures ref != 0 ==> open == [] && ref == sp.start && HeaderAt(sp, root, old(identifier), al) && root in graph
      ensures ref != 0 ==> sp.End() == old(sp).End() + old(sp).End() % al
      ensures ref != 0 ==> (sp.End() % al == 0 <==> old(sp).End() % (al / 2) == 0)
      ensures ref != 0 && ValidBuf(sp.bytes) && InReach(sp, graph) ==> FinishedAnywhere(sp, graph, al)
      ensures ref != 0 && |sp.bytes| <= U32 / 2 ==> InReach(sp, graph)
    {
      hide EmissionOk, FramesOk, TablesOk, DataOk, EntriesOk, LogsOk, BucketOk, HeaderAt, FinishedAnywhere, IsPow2;
      hide InReach;
      assert blockAlign >= 0 by { PowersArePositive(blockAlign); }
      SetMinAlign(blockAlign);
      EvenEnd();
      ref, al := CreateBuffer(root, minAlign);
      if ref == 0 { return; }
      assert sp.start % al == 0 by { HeaderStart(sp, root, identifier, al); }
      if ValidBuf(sp.bytes) && InReach(sp, graph) { BufferFinished(al); }
      if |sp.bytes| <= U32 / 2 { SmallInReach(); }
      var f := CloseBuffer();
      identifier, blockAlign := f.identifier, f.blockAlign;
    }

    static lemma PowersArePositive(al: int)
      ensures IsPow2(al) ==> al >= 1
    {
    }

    /** Leaves the buffer's frame. */
    method CloseBuffer() returns (f: Frame)
      requires Valid() && |open| == 1 && Top(open).OpenBuffer?
      modifies this`frames, this`align, this`minAlign, this`open, ds
      ensures Valid() && open == []
    {
      hide EmissionOk, FramesOk, TablesOk, DataOk, EntriesOk, LogsOk, BucketOk;
      Innermost();
      f := Top(frames);
      ExitFrame();
    }

    static lemma HeaderStart(sp: Space, root: int, identifier: int, al: int)
      requires al > 0 && HeaderAt(sp, root, identifier, al)
      ensures sp.start % al == 0
    {
    }

    lemma SmallInReach()
      requires EmissionOk(sp, graph, minAlign, cache.known) && |sp.bytes| <= U32 / 2
      ensures InReach(sp, graph)
    {
      SmallIsInReach(sp, graph);
    }

    lemma BufferFinished(al: int)
      requires Valid() && minAlign == al && ValidAlign(al) && 4 <= al && sp.start % al == 0
      requires ValidBuf(sp.bytes) && InReach(sp, graph)
      ensures FinishedAnywhere(sp, graph, al)
    {
      hide FramesOk, TablesOk, DataOk, EntriesOk, LogsOk, BucketOk, GraphAt, IsPow2, NodeAligned, InReach;
    }
  }

  /** The whole way round: what `EndBuffer` leaves behind, placed in memory at any multiple of its
      alignment, reads back as the value of the graph that was built, and the verifier accepts it
      exactly when that value stays within its levels and the identifier expected is the buffer's. */
  lemma BuiltBufferRoundTrip(sp: Space, g: Graph, al: int, mem: int, root: int, identifier: int, fid: int, s: Schema,
      def: nat)
    requires al > 0 && FinishedAnywhere(sp, g, al) && mem % al == 0 && HeaderAt(sp, root, identifier, al)
    requires root in g && ValidSchema(s) && def < |s|
    ensures Ordered(g, sp.End()) && ValidBuf(sp.bytes) && |sp.bytes| >= 8
    ensures identifier != 0 ==> U32At(sp.bytes, 4) == identifier
    ensures identifier != 0 && fid != 0 && fid != identifier ==>
      VerifyTableAsRoot(sp.bytes, mem, fid, s, def) == Err(IdentifierMismatch)
    ensures var v := TableOf(g, sp.End(), root, s, def);
      v.Some? ==>
        ReadTarget(sp.bytes, mem, 0, s, Some(def)) == v &&
        (VerifyTableAsRoot(sp.bytes, mem, fid, s, def).Ok? <==>
          (fid == 0 || U32At(sp.bytes, 4) == fid) && WithinLevels(v.value, MAX_LEVELS))
  {
    hide Finished, TableOf, ReadTarget, VerifyTableAsRoot, WithinLevels, OffsetAt;
    assert Finished(sp, g, al, mem);
    FinishedIsOrdered(sp, g, al, mem);
    BufferFits(sp, g, al, mem);
    HeaderHasEight(sp, g, al, mem, root);
    if identifier != 0 && fid != 0 && fid != identifier {
      MemoryWordAligned(sp, g, al, mem);
      OtherIdentifier(sp.bytes, mem, fid, s, def);
    }
    if TableOf(g, sp.End(), root, s, def).Some? {
      RoundTrip(sp, g, al, mem, root, fid, s, def);
    }
  }

  lemma OtherIdentifier(buf: seq<byte>, mem: int, fid: int, s: Schema, def: nat)
    requires ValidSchema(s) && def < |s| && ValidBuf(buf) && mem % 4 == 0 && |buf| >= 8
    requires fid != 0 && U32At(buf, 4) != fid
    ensures VerifyTableAsRoot(buf, mem, fid, s, def) == Err(IdentifierMismatch)
  {
  }

  lemma HeaderHasEight(sp: Space, g: Graph, al: int, mem: int, root: int)
    requires Finished(sp, g, al, mem) && OffsetAt(sp, sp.start, root) && root in g
    ensures sp.Has(sp.start, 8)
  {
    HeaderPlaced(sp, g, al, mem, root);
  }
}
