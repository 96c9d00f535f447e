/** Vtables and tables: how field offsets recorded while a table is open become a vtable, and how
    the references stored in its data become offsets when it is emitted. */
module FlatTables {
  import opened FlatBytes
  import opened FlatSchema
  import opened FlatGraph
  import opened FlatEmission

  // ------------------------------------------------------------------------ vtables

  /** 16-bit entries, little endian. */
  function VtBytes(vt: seq<int>): (b: seq<byte>)
    requires forall i | 0 <= i < |vt| :: 0 <= vt[i] < U16
    ensures |b| == 2 * |vt|
  {
    if vt == [] then [] else Le16(vt[0]) + VtBytes(vt[1..])
  }

  lemma {:induction false} VtBytesAt(vt: seq<int>, i: nat)
    requires (forall j | 0 <= j < |vt| :: 0 <= vt[j] < U16) && i < |vt|
    ensures VtBytes(vt)[2 * i..2 * i + 2] == Le16(vt[i])
  {
    hide Le16;
    var head, rest := Le16(vt[0]), VtBytes(vt[1..]);
    if i > 0 {
      VtBytesAt(vt[1..], i - 1);
      assert (head + rest)[2 * i..2 * i + 2] == rest[2 * (i - 1)..2 * (i - 1) + 2];
    }
  }

  /** A vtable as the builder hands it over: its own size first, then the table's, then the entries. */
  predicate ValidVt(vt: seq<int>)
  {
    && 2 <= |vt| < U16 / 2 && vt[0] == 2 * |vt|
    && forall i | 0 <= i < |vt| :: 0 <= vt[i] < U16
  }

  /** The bytes of `vt` lie at address `a`. */
  ghost predicate VtStored(sp: Space, a: int, vt: seq<int>)
    requires ValidVt(vt)
  {
    sp.Has(a, 2 * |vt|) && sp.Slice(a, 2 * |vt|) == VtBytes(vt)
  }

  lemma VtKept(s: Space, t: Space, a: int, vt: seq<int>)
    requires Extends(s, t) && ValidVt(vt) && VtStored(s, a, vt)
    ensures VtStored(t, a, vt)
  {
  }

  lemma VtWord(sp: Space, a: int, vt: seq<int>, i: nat)
    requires ValidVt(vt) && VtStored(sp, a, vt) && i < |vt|
    ensures sp.Has(a + 2 * i, 2) && sp.Word16(a + 2 * i) == vt[i]
  {
    hide Le16, VtBytes;
    VtBytesAt(vt, i);
    SliceOfSlice(sp, a, VtBytes(vt), 2 * i, 2);
    ReadLe16(sp.bytes, a + 2 * i - sp.start, vt[i]);
  }

  /** A stored vtable is a vtable of the format, with these entries. */
  lemma VtReads(sp: Space, a: int, vt: seq<int>)
    requires ValidVt(vt) && VtStored(sp, a, vt)
    ensures VtableAt(sp, a) && sp.Word16(a + 2) == vt[1]
    ensures forall id: nat :: VtEntry(sp, a, id) == if id + 2 < |vt| then vt[id + 2] else 0
  {
    hide VtStored;
    assert sp.Has(a, 2 * |vt|) by { VtSpan(sp, a, vt); }
    VtWord(sp, a, vt, 0);
    VtWord(sp, a, vt, 1);
    forall id: nat ensures VtEntry(sp, a, id) == if id + 2 < |vt| then vt[id + 2] else 0 {
      if id + 2 < |vt| { VtWord(sp, a, vt, id + 2); }
    }
  }

  lemma VtSpan(sp: Space, a: int, vt: seq<int>)
    requires ValidVt(vt) && VtStored(sp, a, vt)
    ensures sp.Has(a, 2 * |vt|)
  {
  }

  /** Behind the buffer when vtables are clustered, in front of it otherwise. The reference is one
      above the address either way. */
  function CreateVtable(sp: Space, vt: seq<int>, clustered: bool): Emitted
    requires ValidSpace(sp) && ValidVt(vt)
  {
    if clustered then EmitBack(sp, VtBytes(vt))
    else
      var r := EmitFront(sp, VtBytes(vt));
      if r.Failed? then Failed else Emitted(r.sp, r.ref + 1)
  }

  /** Whether the address range has room for a vtable at that end. */
  predicate CanEmitVtable(sp: Space, vt: seq<int>, clustered: bool)
  {
    if clustered then sp.End() + 2 * |vt| < U32 / 2 else sp.start - 2 * |vt| >= -U32 / 2
  }

  lemma VtableFits(sp: Space, vt: seq<int>, clustered: bool)
    requires ValidSpace(sp) && ValidVt(vt)
    ensures CreateVtable(sp, vt, clustered).Emitted? <==> CanEmitVtable(sp, vt, clustered)
  {
    hide VtBytes;
    EmitBackResult(sp, VtBytes(vt));
    EmitFrontResult(sp, VtBytes(vt));
  }

  predicate Grown(sp: Space, t: Space)
  {
    ValidSpace(t) && Extends(sp, t)
  }

  lemma VtableCreated(sp: Space, vt: seq<int>, clustered: bool)
    requires ValidSpace(sp) && ValidVt(vt)
    ensures var r := CreateVtable(sp, vt, clustered);
      r.Emitted? ==> Grown(sp, r.sp) && VtStored(r.sp, r.ref - 1, vt)
    ensures var r := CreateVtable(sp, vt, clustered);
      r.Emitted? ==> r.ref - 1 == if clustered then sp.End() else r.sp.start
    ensures var r := CreateVtable(sp, vt, clustered);
      r.Emitted? ==> |r.sp.bytes| == |sp.bytes| + 2 * |vt| && r.sp.End() == if clustered then sp.End() + 2 * |vt|
        else sp.End()
  {
    hide VtBytes;
    EmitBackResult(sp, VtBytes(vt));
    EmitFrontResult(sp, VtBytes(vt));
  }

  /** A buffer whose only vtable, behind it, has one entry ends at 6. Padded for alignment 8 it then
      ends at 12. */
  lemma EndNotAlwaysAligned()
    ensures ValidSpace(Space(0, [])) && ValidVt([6, 8, 4])
    ensures var vt := CreateVtable(Space(0, []), [6, 8, 4], true);
      && vt.Emitted? && ValidSpace(vt.sp) && vt.sp.End() == 6
      && var padded := EmitBack(vt.sp, Zeros(6 % 8));
      padded.Emitted? && padded.sp.End() == 12 && padded.sp.End() % 8 != 0
  {
    hide VtBytes;
    EmitBackResult(Space(0, []), VtBytes([6, 8, 4]));
  }

  // ------------------------------------------------------------- turning references into offsets

  /** `data` with the reference word at each logged place replaced by the distance from that place,
      for a table whose header is at `base`. */
  function Patch(data: seq<byte>, offsets: seq<int>, base: int): (r: seq<byte>)
    requires forall i | 0 <= i < |offsets| :: 0 <= offsets[i] <= |data| - 4
    ensures |r| == |data|
    decreases |offsets|
  {
    if offsets == [] then data else
    var o := offsets[0];
    var v := (U32At(data, o) - base - o - 4) % U32;
    Patch(data[..o] + Le32(v) + data[o + 4..], offsets[1..], base)
  }

  /** The stretch of length `n` at `o` meets no logged place. */
  predicate Apart(o: int, n: int, offsets: seq<int>)
  {
    forall i | 0 <= i < |offsets| :: o + n <= offsets[i] || offsets[i] + 4 <= o
  }

  lemma PatchOne(data: seq<byte>, p: nat, w: seq<byte>, o: nat, n: nat)
    requires p + 4 <= |data| && |w| == 4 && o + n <= |data| && (o + n <= p || p + 4 <= o)
    ensures (data[..p] + w + data[p + 4..])[o..o + n] == data[o..o + n]
  {
  }

  /** Patching leaves every other stretch alone. */
  lemma {:induction false} PatchKeeps(data: seq<byte>, offsets: seq<int>, base: int, o: nat, n: nat)
    requires forall i | 0 <= i < |offsets| :: 0 <= offsets[i] <= |data| - 4
    requires o + n <= |data| && Apart(o, n, offsets)
    ensures Patch(data, offsets, base)[o..o + n] == data[o..o + n]
    decreases |offsets|
  {
    hide Le32, U32At;
    if offsets != [] {
      var p := offsets[0];
      var w := Le32((U32At(data, p) - base - p - 4) % U32);
      PatchOne(data, p, w, o, n);
      PatchKeeps(data[..p] + w + data[p + 4..], offsets[1..], base, o, n);
    }
  }

  predicate DistinctWords(offsets: seq<int>)
  {
    (forall i | 0 <= i < |offsets| :: offsets[i] % 4 == 0) &&
    forall i, j | 0 <= i < j < |offsets| :: offsets[i] != offsets[j]
  }

  lemma DistinctAt(offsets: seq<int>, k: nat)
    requires DistinctWords(offsets) && k < |offsets|
    ensures offsets[k] % 4 == 0 && offsets[0] % 4 == 0 && (k > 0 ==> offsets[0] != offsets[k])
  {
  }

  lemma DistinctTail(offsets: seq<int>)
    requires DistinctWords(offsets) && offsets != []
    ensures DistinctWords(offsets[1..]) && Apart(offsets[0], 4, offsets[1..])
  {
  }

  /** Each logged place ends up holding the distance from itself to the object referred to. */
  lemma {:induction false} PatchSets(data: seq<byte>, offsets: seq<int>, base: int, k: nat)
    requires forall i | 0 <= i < |offsets| :: 0 <= offsets[i] <= |data| - 4
    requires DistinctWords(offsets) && k < |offsets|
    ensures U32At(Patch(data, offsets, base), offsets[k]) == (U32At(data, offsets[k]) - base - offsets[k] - 4) % U32
    decreases |offsets|
  {
    hide Le32, U32At, DistinctWords;
    assert offsets[k] % 4 == 0 && offsets[0] % 4 == 0 &&
      (k > 0 ==> offsets[0] != offsets[k]) by { DistinctAt(offsets, k); }
    var p, q := offsets[0], offsets[k];
    var v := (U32At(data, p) - base - p - 4) % U32;
    var next := data[..p] + Le32(v) + data[p + 4..];
    if k == 0 {
      DistinctTail(offsets);
      PatchKeeps(next, offsets[1..], base, p, 4);
      assert next[p..p + 4] == Le32(v);
      ReadLe32(Patch(data, offsets, base), p, v);
    } else {
      PatchOne(data, p, Le32(v), q, 4);
      SameWindow(next, q, data, q, 4, 0);
      DistinctTail(offsets);
      PatchSets(next, offsets[1..], base, k - 1);
    }
  }

  // -------------------------------------------------------------------------- tables

  /** The contents of an open table: its data, the vtable entries and patch log so far, and, as
      specification, the fields the user has added. An entry is the field's place plus 4. */
  datatype OpenTable = OpenTable(data: seq<byte>, vs: seq<int>, pl: seq<int>, align: int, fields: map<int, Field>)

  predicate FieldLaidOut(t: OpenTable, id: int)
    requires 0 <= id < |t.vs| && id in t.fields
  {
    var o := t.vs[id] - 4;
    && 0 <= o && o + FieldSize(t.fields[id]) <= |t.data|
    && match t.fields[id]
       case Inline(data, align) =>
         t.data[o..o + |data|] == data && ValidAlign(align) && align <= t.align && o % align == 0
       case Ref(target) => o % 4 == 0 && U32At(t.data, o) == target % U32
  }

  predicate FieldsApart(t: OpenTable, i: int, j: int)
    requires 0 <= i < |t.vs| && 0 <= j < |t.vs| && i in t.fields && j in t.fields
  {
    t.vs[i] + FieldSize(t.fields[i]) <= t.vs[j] || t.vs[j] + FieldSize(t.fields[j]) <= t.vs[i]
  }

  /** The place `p` holds the reference of some field. */
  ghost predicate LoggedPlace(t: OpenTable, p: int)
  {
    exists id :: 0 <= id < |t.vs| && id in t.fields && t.fields[id].Ref? && t.vs[id] == p + 4
  }

  ghost predicate ValidOpen(t: OpenTable)
  {
    && |t.data| + 4 < U16 && |t.vs| <= ID_MAX + 1 && ValidAlign(t.align) && 4 <= t.align
    && (forall i | 0 <= i < |t.vs| :: 0 <= t.vs[i] < U16)
    && (forall id: int :: id in t.fields <==> 0 <= id < |t.vs| && t.vs[id] != 0)
    && (forall id | id in t.fields :: FieldLaidOut(t, id))
    && (forall i, j | i in t.fields && j in t.fields && i != j :: FieldsApart(t, i, j))
    && DistinctWords(t.pl) && (forall i | 0 <= i < |t.pl| :: LoggedPlace(t, t.pl[i]))
    && (forall id | id in t.fields && t.fields[id].Ref? :: t.vs[id] - 4 in t.pl)
  }

  function VtOf(t: OpenTable): seq<int>
  {
    [2 * (|t.vs| + 2), |t.data| + 4] + t.vs
  }

  lemma VtOfIsValid(t: OpenTable)
    requires ValidOpen(t)
    ensures ValidVt(VtOf(t))
  {
  }

  lemma PatchLogFits(t: OpenTable)
    requires ValidOpen(t)
    ensures forall i | 0 <= i < |t.pl| :: 0 <= t.pl[i] <= |t.data| - 4
  {
  }

  /** Where the table's header will be: the alignment is that of its first field. */
  function TableBase(sp: Space, size: nat, align: int): int
    requires align > 0
  {
    sp.start - (4 + size + FrontPad(sp, size, align))
  }

  function CreateTable(sp: Space, data: seq<byte>, align: int, offsets: seq<int>, vtRef: int): Emitted
    requires ValidSpace(sp) && align > 0 && forall i | 0 <= i < |offsets| :: 0 <= offsets[i] <= |data| - 4
  {
    var al := Max(align, 4);
    var base := TableBase(sp, |data|, al);
    EmitFront(sp, Padded(sp, (base - (vtRef - 1)) % U32, Patch(data, offsets, base), al))
  }

  /** The direct call emits the table with this reference. */
  ghost predicate TableEmitted(before: Space, t: OpenTable, vtRef: int, after: Space, ref: int)
  {
    && ValidSpace(before) && t.align > 0 && (forall i | 0 <= i < |t.pl| :: 0 <= t.pl[i] <= |t.data| - 4)
    && CreateTable(before, t.data, t.align, t.pl, vtRef) == Emitted(after, ref)
  }

  lemma InlineApart(t: OpenTable, id: int)
    requires ValidOpen(t) && id in t.fields && t.fields[id].Inline?
    ensures Apart(t.vs[id] - 4, |t.fields[id].data|, t.pl)
  {
    forall i | 0 <= i < |t.pl|
      ensures t.vs[id] - 4 + |t.fields[id].data| <= t.pl[i] || t.pl[i] + 4 <= t.vs[id] - 4
    {
      assert LoggedPlace(t, t.pl[i]);
      var j :| 0 <= j < |t.vs| && j in t.fields && t.fields[j].Ref? && t.vs[j] == t.pl[i] + 4;
      assert FieldsApart(t, id, j);
    }
  }

  /** A field of the emitted table: its bytes unchanged, or the offset to the object referred to. */
  lemma FieldCreated(sp: Space, a: int, t: OpenTable, id: int)
    requires ValidOpen(t) && id in t.fields
    requires forall i | 0 <= i < |t.pl| :: 0 <= t.pl[i] <= |t.data| - 4
    requires (a + 4) % t.align == 0 && sp.Has(a, |t.data| + 4)
    requires sp.Slice(a + 4, |t.data|) == Patch(t.data, t.pl, a)
    requires t.fields[id].Ref? ==> a + 4 + |t.data| <= t.fields[id].target < a + U32
    ensures FieldAt(sp, a, |t.data| + 4, t.vs[id], t.fields[id])
  {
    hide ValidOpen, Patch, DistinctWords, LoggedPlace, U32At, OffsetAt, ValidAlign, IsPow2, Apart;
    FieldFacts(t, id);
    var o := t.vs[id] - 4;
    assert a + t.vs[id] == a + o + 4;
    match t.fields[id]
    case Inline(data, align) =>
      InlineApart(t, id);
      InlineCreated(sp, a, t.data, t.pl, o, data, align, t.align);
    case Ref(target) =>
      LogIsDistinct(t);
      WordBefore(a, t.align);
      RefCreated(sp, a, t.data, t.pl, o, target);
  }

  lemma WordBefore(a: int, align: int)
    requires ValidAlign(align) && 4 <= align && (a + 4) % align == 0
    ensures a % 4 == 0
  {
    SmallPowers();
    AlignedToLess(a + 4, 4, align);
  }

  lemma FieldFacts(t: OpenTable, id: int)
    requires ValidOpen(t) && id in t.fields
    ensures 0 <= id < |t.vs| && FieldLaidOut(t, id) && ValidAlign(t.align) && 4 <= t.align
    ensures t.fields[id].Ref? ==> t.vs[id] - 4 in t.pl
  {
  }

  lemma InlineCreated(sp: Space, a: int, data: seq<byte>, pl: seq<int>, o: nat, field: seq<byte>, align: int,
      tableAlign: int)
    requires forall i | 0 <= i < |pl| :: 0 <= pl[i] <= |data| - 4
    requires o + |field| <= |data| && Apart(o, |field|, pl) && data[o..o + |field|] == field
    requires ValidAlign(align) && ValidAlign(tableAlign) && align <= tableAlign && o % align == 0
    requires (a + 4) % tableAlign == 0 && sp.Has(a, |data| + 4) && sp.Slice(a + 4, |data|) == Patch(data, pl, a)
    ensures sp.Slice(a + o + 4, |field|) == field && (a + o + 4) % align == 0
  {
    hide Patch, Apart;
    PatchKeeps(data, pl, a, o, |field|);
    SliceOfSlice(sp, a + 4, Patch(data, pl, a), o, |field|);
    AlignedToLess(a + 4, align, tableAlign);
    SumAligned(a + 4, o, align);
  }

  lemma LogIsDistinct(t: OpenTable)
    requires ValidOpen(t)
    ensures DistinctWords(t.pl)
  {
  }

  lemma RefCreated(sp: Space, a: int, data: seq<byte>, pl: seq<int>, o: int, target: int)
    requires forall i | 0 <= i < |pl| :: 0 <= pl[i] <= |data| - 4
    requires DistinctWords(pl) && o in pl && o % 4 == 0 && U32At(data, o) == target % U32
    requires a % 4 == 0 && sp.Has(a, |data| + 4) && sp.Slice(a + 4, |data|) == Patch(data, pl, a)
    requires a + 4 + |data| <= target < a + U32
    ensures OffsetAt(sp, a + o + 4, target)
  {
    hide Patch, U32At, DistinctWords;
    var body := Patch(data, pl, a);
    var k :| 0 <= k < |pl| && pl[k] == o;
    PatchSets(data, pl, a, k);
    assert body[0..0 + |data|] == body;
    SameWindow(sp.bytes, a + 4 - sp.start, body, 0, |data|, o);
    DistanceWraps(target, a + o + 4);
  }

  lemma DistanceWraps(target: int, at: int)
    requires 0 <= target - at < U32
    ensures (target % U32 - at) % U32 == target - at
  {
  }

  lemma {:induction false} TableCreated(sp: Space, t: OpenTable, vtRef: int)
    requires ValidSpace(sp) && ValidOpen(t) && ValidVt(VtOf(t)) && VtStored(sp, vtRef - 1, VtOf(t))
    requires forall id | id in t.fields && t.fields[id].Ref? :: sp.start <= t.fields[id].target < sp.End()
    requires forall i | 0 <= i < |t.pl| :: 0 <= t.pl[i] <= |t.data| - 4
    ensures var r := CreateTable(sp, t.data, t.align, t.pl, vtRef);
      r.Emitted? ==> TableAt(r.sp, r.ref, vtRef - 1, t.fields)
    ensures var r := CreateTable(sp, t.data, t.align, t.pl, vtRef);
      r.Emitted? ==> Grown(sp, r.sp) && r.ref == r.sp.start < sp.start && r.sp.End() == sp.End()
    ensures var r, a := CreateTable(sp, t.data, t.align, t.pl, vtRef), AlignDown(sp.start - |t.data|, t.align) - 4;
      (r.Emitted? <==> a >= -U32 / 2) && (r.Emitted? ==> r.ref == a)
  {
    hide EmitFront, Padded, Patch, VtStored, ValidOpen, TableAt;
    assert ValidAlign(t.align) && 4 <= t.align && |t.data| < U16 by { OpenBounds(t); }
    var base := TableBase(sp, |t.data|, t.align);
    var body := Patch(t.data, t.pl, base);
    var header := (base - (vtRef - 1)) % U32;
    PaddedLength(sp, header, body, t.align);
    PaddedEmitted(sp, header, body, t.align);
    var r := CreateTable(sp, t.data, t.align, t.pl, vtRef);
    if r.Emitted? {
      VtKept(sp, r.sp, vtRef - 1, VtOf(t));
      TableFromBody(r.sp, r.ref, t, vtRef - 1);
    }
  }

  lemma OpenBounds(t: OpenTable)
    requires ValidOpen(t)
    ensures ValidAlign(t.align) && 4 <= t.align && |t.data| + 4 < U16
  {
  }

  lemma {:induction false} TableFromBody(sp: Space, a: int, t: OpenTable, vt: int)
    requires ValidOpen(t) && ValidVt(VtOf(t)) && VtStored(sp, vt, VtOf(t))
    requires forall i | 0 <= i < |t.pl| :: 0 <= t.pl[i] <= |t.data| - 4
    requires PaddedAt(sp, a, (a - vt) % U32, Patch(t.data, t.pl, a), t.align)
    requires forall id | id in t.fields && t.fields[id].Ref? :: a + 4 + |t.data| <= t.fields[id].target < a + U32
    ensures TableAt(sp, a, vt, t.fields)
  {
    hide Patch, VtStored, FieldAt, FieldLaidOut, FieldsApart, LoggedPlace, DistinctWords;
    VtReads(sp, vt, VtOf(t));
    forall id: nat ensures VtEntry(sp, vt, id) == if id < |t.vs| then t.vs[id] else 0 {
      if id < |t.vs| { assert VtOf(t)[id + 2] == t.vs[id]; }
    }
    forall id | id in t.fields ensures FieldAt(sp, a, |t.data| + 4, VtEntry(sp, vt, id), t.fields[id]) {
      FieldCreated(sp, a, t, id);
    }
  }
}
