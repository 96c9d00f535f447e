/** The verifier's verdict on a finished buffer: a graph that matches the schema is accepted
    exactly when its value stays within the verifier's levels. */
module FlatAcceptance {
  import opened FlatBytes
  import opened FlatSchema
  import opened Wrappers
  import opened FlatReader
  import opened FlatVerifier
  import opened FlatGraph
  import opened FlatRoundTrip

  function TdOf(sp: Space, a: int, vt: int, ttl: int): Td
    requires sp.Has(vt, 4)
  {
    Td(ttl, a - sp.start, vt - sp.start, sp.Word16(vt), sp.Word16(vt + 2))
  }

  lemma HeaderAccepted(sp: Space, g: Graph, align: int, mem: int, at: int, a: int, ttl: int)
    requires Finished(sp, g, align, mem) && a in g && g[a].TableNode? && OffsetAt(sp, at, a)
    ensures sp.Has(at, 4) && 0 <= a - at < U32 && ValidBuf(sp.bytes)
    ensures sp.Has(g[a].vtable, 4) && ValidTd(sp.bytes, TdOf(sp, a, g[a].vtable, ttl - 1))
    ensures CheckTable(sp.bytes, at - sp.start, a - at, ttl)
         == if ttl == 1 then BadHeader(MaxNestingLevelReached) else Header(TdOf(sp, a, g[a].vtable, ttl - 1))
  {
    hide Finished, OffsetAt, TableAt;
    BufferFits(sp, g, align, mem);
    DistanceFits(sp, at, a);
    TargetReached(sp, g, align, mem, at, a);
    VtableReached(sp, g, align, mem, a);
    TableFits(sp, a, g[a].vtable, g[a].fields);
    HeaderPasses(sp, at, a, g[a].vtable, ttl);
  }

  lemma TableFits(sp: Space, a: int, vt: int, fields: map<int, Field>)
    requires TableAt(sp, a, vt, fields)
    ensures sp.Has(a, 4) && sp.Word32(a) == (a - vt) % U32 && VtableAt(sp, vt)
    ensures 4 <= sp.Word16(vt + 2) && sp.Has(a, sp.Word16(vt + 2))
  {
  }

  lemma HeaderPasses(sp: Space, at: int, a: int, vt: int, ttl: int)
    requires ValidBuf(sp.bytes) && a - sp.start < U32 / 2 && vt - sp.start < U32 / 2
    requires sp.Has(at, 4) && 0 < a - at < U32 && CheckHeader(|sp.bytes|, at - sp.start, a - at)
    requires (a - sp.start) % 4 == 0 && (vt - sp.start) % 2 == 0
    requires sp.Has(a, 4) && sp.Word32(a) == (a - vt) % U32 && VtableAt(sp, vt)
    requires 4 <= sp.Word16(vt + 2) && sp.Has(a, sp.Word16(vt + 2))
    ensures ValidTd(sp.bytes, TdOf(sp, a, vt, ttl - 1))
    ensures CheckTable(sp.bytes, at - sp.start, a - at, ttl)
         == if ttl == 1 then BadHeader(MaxNestingLevelReached) else Header(TdOf(sp, a, vt, ttl - 1))
  {
    SignedDistance(a, vt);
    HeaderDoesNotWrap(|sp.bytes|, at - sp.start, a - at);
    hide CheckHeader, Soffset;
    VtableWraps(a - sp.start, vt - sp.start);
  }

  lemma VtableWraps(table: int, vbase: int)
    requires 0 <= table < U32 / 2 && 0 <= vbase < U32 / 2
    ensures (table - (table - vbase) % U32) % U32 == vbase
  {
  }

  /** A vtable that has been put too far behind its table is refused, though nothing is wrong with it. */
  lemma FarVtableRejected(sp: Space, base: int, a: int, vt: int, ttl: int)
    requires ValidBuf(sp.bytes) && 0 <= base && base + 4 <= |sp.bytes| && 0 <= a - sp.start - base < U32
    requires sp.Has(a, 4) && sp.Word32(a) == (a - vt) % U32 && VtableAt(sp, vt)
    requires a - sp.start < U32 / 2 <= vt - sp.start
    ensures CheckTable(sp.bytes, base, a - sp.start - base, ttl).BadHeader?
  {
    var table, vbase := a - sp.start, vt - sp.start;
    assert (table - (table - vbase) % U32) % U32 == vbase;
  }

  lemma FarRootRejected(sp: Space, g: Graph, root: int, mem: int, fid: int, s: Schema, def: nat)
    requires GraphAt(sp, g) && root in g && g[root].TableNode? && ValidBuf(sp.bytes) && ValidSchema(s) && def < |s|
    requires OffsetAt(sp, sp.start, root) && root - sp.start < U32 / 2 <= g[root].vtable - sp.start
    ensures VerifyTableAsRoot(sp.bytes, mem, fid, s, def) != Ok
  {
    hide TableAt, OffsetAt, VerifyFields;
    assert NodeAt(sp, root, g[root]);
    DistanceFits(sp, sp.start, root);
    TableFits(sp, root, g[root].vtable, g[root].fields);
    FarVtableRejected(sp, 0, root, g[root].vtable, MAX_LEVELS);
  }

  lemma BufferFits(sp: Space, g: Graph, align: int, mem: int)
    requires Finished(sp, g, align, mem)
    ensures ValidBuf(sp.bytes) && InReach(sp, g)
  {
  }

  lemma DistanceFits(sp: Space, at: int, target: int)
    requires OffsetAt(sp, at, target)
    ensures 0 < target - at < U32 && sp.Has(at, 4) && U32At(sp.bytes, at - sp.start) == target - at
  {
  }

  lemma {:induction false} JudgesTable(sp: Space, g: Graph, align: int, mem: int, at: int, a: int, ttl: int, s: Schema,
      def: nat)
    requires Finished(sp, g, align, mem) && Ordered(g, sp.End()) && a in g && ValidSchema(s) && def < |s|
    requires OffsetAt(sp, at, a) && TableOf(g, sp.End(), a, s, def).Some?
    ensures ValidBuf(sp.bytes) && sp.Has(at, 4) && 0 <= a - at < U32
    ensures VerifyTable(sp.bytes, mem, at - sp.start, a - at, ttl, s, def).Ok?
       <==> WithinLevels(TableOf(g, sp.End(), a, s, def).value, ttl)
    decreases sp.End() - a, 5, 0
  {
    hide Finished, OffsetAt, ValidSchema, VerifyFields, FieldsOf, FieldWithinLevels;
    BufferFits(sp, g, align, mem);
    HeaderAccepted(sp, g, align, mem, at, a, ttl);
    JudgesFields(sp, g, align, mem, a, ttl - 1, s, def, |s[def]|);
  }

  lemma {:induction false} JudgesFields(sp: Space, g: Graph, align: int, mem: int, a: int, ttl: int, s: Schema,
      def: nat, k: nat)
    requires Finished(sp, g, align, mem) && Ordered(g, sp.End()) && a in g && ValidSchema(s) && def < |s|
    requires g[a].TableNode? && k <= |s[def]| && FieldsOf(g, sp.End(), a, s, def, k).Some?
    requires ValidBuf(sp.bytes) && sp.Has(g[a].vtable, 4) && ValidTd(sp.bytes, TdOf(sp, a, g[a].vtable, ttl))
    ensures VerifyFields(sp.bytes, mem, TdOf(sp, a, g[a].vtable, ttl), s, def, k).Ok?
       <==> forall f | f in FieldsOf(g, sp.End(), a, s, def, k).value :: FieldWithinLevels(f, ttl)
    decreases sp.End() - a, 4, k
  {
    hide Finished, VerifyField, FieldOf, FieldWithinLevels;
    if k > 0 {
      JudgesFields(sp, g, align, mem, a, ttl, s, def, k - 1);
      JudgesField(sp, g, align, mem, a, ttl, s, s[def][k - 1]);
      var rest := FieldsOf(g, sp.End(), a, s, def, k - 1).value;
      var last := FieldOf(g, sp.End(), a, s, s[def][k - 1]).value;
      assert FieldsOf(g, sp.End(), a, s, def, k).value == rest + [last];
      assert forall f :: f in rest + [last] <==> f in rest || f == last;
    }
  }

  /** The verifier sees exactly the vtable entry that was laid out. */
  lemma EntryRead(sp: Space, g: Graph, align: int, mem: int, a: int, ttl: int, id: nat)
    requires Finished(sp, g, align, mem) && a in g && g[a].TableNode? && id <= ID_MAX
    requires sp.Has(g[a].vtable, 4) && ValidTd(sp.bytes, TdOf(sp, a, g[a].vtable, ttl))
    ensures VtableAt(sp, g[a].vtable) && TableAt(sp, a, g[a].vtable, g[a].fields)
    ensures ReadVtEntry(sp.bytes, TdOf(sp, a, g[a].vtable, ttl), id) == VtEntry(sp, g[a].vtable, id)
    ensures VtEntry(sp, g[a].vtable, id) != 0 <==> id in g[a].fields
  {
    hide Finished, TableAt, ReadVtEntry;
    EntryFound(sp, g, align, mem, a, id);
  }

  lemma ScalarAccepted(sp: Space, g: Graph, align: int, mem: int, a: int, ttl: int, id: nat, required: bool, size: nat,
      al: int)
    requires Finished(sp, g, align, mem) && a in g && g[a].TableNode? && id <= ID_MAX && ValidAlign(al)
    requires ValidBuf(sp.bytes) && sp.Has(g[a].vtable, 4) && ValidTd(sp.bytes, TdOf(sp, a, g[a].vtable, ttl))
    requires id in g[a].fields ==>
      g[a].fields[id].Inline? && |g[a].fields[id].data| == size &&
      g[a].fields[id].align >= al
    requires required ==> id in g[a].fields
    ensures VerifyScalar(sp.bytes, mem, TdOf(sp, a, g[a].vtable, ttl), id, required, size, al).Ok?
  {
    hide Finished, TableAt, VtableAt, ValidTd, OffsetAt, VtEntry, IsPow2, ReadVtEntry;
    EntryRead(sp, g, align, mem, a, ttl, id);
    if id in g[a].fields {
      var o := VtEntry(sp, g[a].vtable, id);
      FieldPlaced(sp, g, align, mem, a, id);
      FieldInTable(sp, a, g[a].vtable, g[a].fields, id);
      WrappedAligned(o + (a - sp.start) + mem, al, g[a].fields[id].align);
    }
  }

  lemma WrappedAligned(x: int, al: int, stronger: int)
    requires ValidAlign(al) && ValidAlign(stronger) && al <= stronger && x % stronger == 0
    ensures x % U32 % al == 0
  {
    AlignedToLess(x, al, stronger);
    WrapKeepsAlignment(x, al);
  }

  lemma FieldInTable(sp: Space, a: int, vt: int, fields: map<int, Field>, id: nat)
    requires TableAt(sp, a, vt, fields) && id in fields
    ensures VtableAt(sp, vt) && VtEntry(sp, vt, id) + FieldSize(fields[id]) <= sp.Word16(vt + 2)
  {
  }

  lemma OffsetFieldAccepted(sp: Space, g: Graph, align: int, mem: int, a: int, ttl: int, id: nat, required: bool)
    requires Finished(sp, g, align, mem) && a in g && g[a].TableNode? && id <= ID_MAX
    requires ValidBuf(sp.bytes) && sp.Has(g[a].vtable, 4) && ValidTd(sp.bytes, TdOf(sp, a, g[a].vtable, ttl))
    requires id in g[a].fields ==> g[a].fields[id].Ref?
    ensures VtableAt(sp, g[a].vtable)
    ensures OffsetFieldAt(sp.bytes, TdOf(sp, a, g[a].vtable, ttl), id, required)
         == if id in g[a].fields then At(a + VtEntry(sp, g[a].vtable, id) - sp.start)
            else if required then Bad(RequiredFieldMissing) else Absent
    ensures id in g[a].fields ==> OffsetAt(sp, a + VtEntry(sp, g[a].vtable, id), g[a].fields[id].target)
  {
    hide Finished, TableAt, ValidTd;
    EntryRead(sp, g, align, mem, a, ttl, id);
    if id in g[a].fields {
      FieldPlaced(sp, g, align, mem, a, id);
      FieldInTable(sp, a, g[a].vtable, g[a].fields, id);
      WordAligned(sp, g, align, mem, a + VtEntry(sp, g[a].vtable, id));
    }
  }

  lemma {:induction false} JudgesField(sp: Space, g: Graph, align: int, mem: int, a: int, ttl: int, s: Schema,
      d: FieldDecl)
    requires Finished(sp, g, align, mem) && Ordered(g, sp.End()) && a in g && ValidSchema(s) && ValidDecl(d, |s|)
    requires g[a].TableNode? && FieldOf(g, sp.End(), a, s, d).Some?
    requires ValidBuf(sp.bytes) && sp.Has(g[a].vtable, 4) && ValidTd(sp.bytes, TdOf(sp, a, g[a].vtable, ttl))
    ensures VerifyField(sp.bytes, mem, TdOf(sp, a, g[a].vtable, ttl), s, d).Ok?
       <==> FieldWithinLevels(FieldOf(g, sp.End(), a, s, d).value, ttl)
    decreases sp.End() - a, 3, 0
  {
    hide Finished, ValidSchema, ValidTd, OffsetAt, VerifyUnion, UnionOf, VerifyReference, ReferenceOf, VerifyScalar;
    hide OffsetFieldAt, WithinLevels;
    if d.typ.Union? {
      JudgesUnion(sp, g, align, mem, a, ttl, s, d);
    } else if d.typ.Scalar? {
      ScalarAccepted(sp, g, align, mem, a, ttl, d.id, false, d.typ.size, d.typ.align);
    } else {
      OffsetFieldAccepted(sp, g, align, mem, a, ttl, d.id, d.required);
      if d.id in g[a].fields {
        var o := VtEntry(sp, g[a].vtable, d.id);
        assert TargetsIn(g, a, g[a]);
        JudgesReference(sp, g, align, mem, a + o, g[a].fields[d.id].target, ttl, s, d.typ);
      }
    }
  }

  lemma {:induction false} JudgesUnion(sp: Space, g: Graph, align: int, mem: int, a: int, ttl: int, s: Schema,
      d: FieldDecl)
    requires Finished(sp, g, align, mem) && Ordered(g, sp.End()) && a in g && ValidSchema(s) && ValidDecl(d, |s|)
    requires d.typ.Union? && g[a].TableNode? && UnionOf(g, sp.End(), a, s, d).Some?
    requires ValidBuf(sp.bytes) && sp.Has(g[a].vtable, 4) && ValidTd(sp.bytes, TdOf(sp, a, g[a].vtable, ttl))
    ensures VerifyUnion(sp.bytes, mem, TdOf(sp, a, g[a].vtable, ttl), s, d).Ok?
       <==> FieldWithinLevels(UnionOf(g, sp.End(), a, s, d).value, ttl)
    decreases sp.End() - a, 2, 0
  {
    hide Finished, ValidSchema, ValidTd, OffsetAt, TableAt, VtableAt, VerifyMember, TargetOf, VerifyScalar,
      OffsetFieldAt;
    hide ReadVtEntry, VtEntry, NodeAt, WithinLevels, MemberDef;
    EntryRead(sp, g, align, mem, a, ttl, d.id);
    EntryRead(sp, g, align, mem, a, ttl, d.id - 1);
    var vt, fields := g[a].vtable, g[a].fields;
    if d.id - 1 in fields {
      FieldPlaced(sp, g, align, mem, a, d.id - 1);
      assert ValidAlign(1);
      ScalarAccepted(sp, g, align, mem, a, ttl, d.id - 1, false, 1, 1) by { assert fields[d.id - 1].align >= 1; }
      var p := a + VtEntry(sp, vt, d.id - 1);
      assert sp.bytes[p - sp.start] == sp.Slice(p, 1)[0];
      var code: int := fields[d.id - 1].data[0];
      if code != 0 && (d.id in fields ==> fields[d.id].Ref?) {
        OffsetFieldAccepted(sp, g, align, mem, a, ttl, d.id, d.required);
        if d.id in fields && code in d.typ.members {
          assert TargetsIn(g, a, g[a]);
          JudgesMember(sp, g, align, mem, a + VtEntry(sp, vt, d.id), fields[d.id].target, ttl, s, d.typ.members[code]);
        }
      }
    }
  }

  lemma {:induction false} JudgesMember(sp: Space, g: Graph, align: int, mem: int, at: int, a: int, ttl: int,
      s: Schema, m: Member)
    requires Finished(sp, g, align, mem) && Ordered(g, sp.End()) && a in g && ValidSchema(s)
    requires OffsetAt(sp, at, a) && (m.TableMember? ==> m.def < |s|)
    requires TargetOf(g, sp.End(), a, s, MemberDef(m)).Some?
    ensures ValidBuf(sp.bytes) && sp.Has(at, 4)
    ensures VerifyMember(sp.bytes, mem, at - sp.start, ttl, s, m).Ok?
       <==> WithinLevels(TargetOf(g, sp.End(), a, s, MemberDef(m)).value, ttl)
    decreases sp.End() - a, 6, 0
  {
    hide Finished, OffsetAt, ValidSchema, VerifyTable, TableOf, VerifyString;
    BufferFits(sp, g, align, mem);
    DistanceFits(sp, at, a);
    if m.TableMember? {
      JudgesTable(sp, g, align, mem, at, a, ttl, s, m.def);
    } else {
      StringAccepted(sp, g, align, mem, at, a);
    }
  }

  lemma StringAccepted(sp: Space, g: Graph, align: int, mem: int, at: int, a: int)
    requires Finished(sp, g, align, mem) && a in g && g[a].StringNode? && OffsetAt(sp, at, a)
    ensures ValidBuf(sp.bytes) && sp.Has(at, 4) && 0 <= a - at < U32
    ensures VerifyString(sp.bytes, at - sp.start, a - at).Ok?
  {
    hide Finished, CheckHeader;
    BufferFits(sp, g, align, mem);
    TargetReached(sp, g, align, mem, at, a);
    HeaderPlaced(sp, g, align, mem, a);
    var chars := g[a].chars;
    assert sp.Slice(a + 4 + |chars|, 1)[0] == sp.bytes[a + 4 + |chars| - sp.start];
    HeaderDoesNotWrap(|sp.bytes|, at - sp.start, a - at);
  }

  lemma VectorAcceptedAt(sp: Space, g: Graph, align: int, mem: int, at: int, a: int, al: int)
    requires Finished(sp, g, align, mem) && a in g && g[a].VectorNode? && OffsetAt(sp, at, a)
    requires ValidAlign(al) && al <= g[a].align
    ensures ValidBuf(sp.bytes) && sp.Has(at, 4) && 0 <= a - at < U32
    ensures VerifyVector(sp.bytes, at - sp.start, a - at, g[a].elemSize, al, CountMax(g[a].elemSize)).Ok?
  {
    hide Finished, CheckHeader, CountMax, VectorAt, VerifyVector;
    BufferFits(sp, g, align, mem);
    DistanceFits(sp, at, a);
    TargetReached(sp, g, align, mem, at, a);
    HeaderPlaced(sp, g, align, mem, a);
    VectorUnpacked(sp, a, g[a].elemSize, g[a].align, g[a].count, g[a].data);
    VectorPlaced(sp, g, align, mem, a, al);
    HeaderDoesNotWrap(|sp.bytes|, at - sp.start, a - at);
    VectorPasses(sp.bytes, at - sp.start, a - at, g[a].elemSize, al, |g[a].data|);
  }

  lemma VectorUnpacked(sp: Space, a: int, elemSize: nat, align: int, count: int, data: seq<byte>)
    requires VectorAt(sp, a, elemSize, align, count, data)
    ensures sp.Has(a, |data| + 4) && sp.Word32(a) == count && 0 <= count <= CountMax(elemSize)
    ensures |data| == count * elemSize
  {
  }

  lemma VectorPasses(buf: seq<byte>, base: int, offset: int, elemSize: nat, align: int, size: int)
    requires ValidBuf(buf) && 0 <= base < U32 && 0 <= offset < U32 && align > 0
    requires CheckHeader(|buf|, base, offset) && (base + offset) % U32 == base + offset
    requires (base + offset) % 4 == 0 && (base + offset + 4) % align == 0
    requires base + offset + 4 + size <= |buf|
    requires U32At(buf, base + offset) * elemSize == size && U32At(buf, base + offset) <= CountMax(elemSize)
    ensures VerifyVector(buf, base, offset, elemSize, align, CountMax(elemSize)).Ok?
  {
    hide CountMax, CheckHeader, U32At;
    var at := base + offset;
    var elemAlign := if U32At(buf, at) == 0 then 4 else align;
    assert (at + 4) % Max(elemAlign, 4) == 0 by { assert (at + 4) % 4 == 0; }
    assert 0 <= size < U32 by { assert U32At(buf, at) * elemSize >= 0; }
  }

  lemma OffsetVectorAccepted(sp: Space, g: Graph, align: int, mem: int, at: int, a: int)
    requires Finished(sp, g, align, mem) && a in g && g[a].OffsetsNode? && OffsetAt(sp, at, a)
    ensures ValidBuf(sp.bytes) && sp.Has(at, 4) && 0 <= a - at < U32
    ensures sp.Has(a, 4 + 4 * |g[a].targets|) && sp.Word32(a) == |g[a].targets|
    ensures VerifyVector(sp.bytes, at - sp.start, a - at, 4, 4, CountMax(4)).Ok?
  {
    hide Finished, CheckHeader, VerifyVector;
    BufferFits(sp, g, align, mem);
    TargetReached(sp, g, align, mem, at, a);
    HeaderPlaced(sp, g, align, mem, a);
    OffsetsPlaced(sp, g, align, mem, a);
    HeaderDoesNotWrap(|sp.bytes|, at - sp.start, a - at);
    VectorPasses(sp.bytes, at - sp.start, a - at, 4, 4, 4 * |g[a].targets|);
  }

  lemma {:induction false} JudgesReference(sp: Space, g: Graph, align: int, mem: int, at: int, a: int, ttl: int,
      s: Schema, t: FieldType)
    requires Finished(sp, g, align, mem) && Ordered(g, sp.End()) && a in g && ValidSchema(s)
    requires OffsetAt(sp, at, a) && IsReference(t) && ValidDecl(FieldDecl(1, false, t), |s|)
    requires ReferenceOf(g, sp.End(), a, s, t).Some?
    ensures ValidBuf(sp.bytes) && sp.Has(at, 4)
    ensures VerifyReference(sp.bytes, mem, at - sp.start, ttl, s, t).Ok?
       <==> WithinLevels(ReferenceOf(g, sp.End(), a, s, t).value, ttl)
    decreases sp.End() - a, 7, 0
  {
    hide Finished, OffsetAt, ValidSchema, VerifyTable, TableOf, VerifyString, VerifyVector, ListOf;
    hide StringVectorVerdict, TableVectorVerdict;
    BufferFits(sp, g, align, mem);
    DistanceFits(sp, at, a);
    if t.Text? {
      StringAccepted(sp, g, align, mem, at, a);
    } else if t.Table? {
      JudgesTable(sp, g, align, mem, at, a, ttl, s, t.def);
    } else if t.Vector? {
      VectorAcceptedAt(sp, g, align, mem, at, a, t.align);
    } else if t.TextVector? {
      JudgesStringVector(sp, g, align, mem, at, a, s);
    } else {
      JudgesTableVector(sp, g, align, mem, at, a, ttl, s, t.def);
    }
  }

  lemma JudgesStringVector(sp: Space, g: Graph, align: int, mem: int, at: int, a: int, s: Schema)
    requires Finished(sp, g, align, mem) && Ordered(g, sp.End()) && a in g && ValidSchema(s)
    requires OffsetAt(sp, at, a) && ListOf(g, sp.End(), a, s, None).Some?
    ensures ValidBuf(sp.bytes) && sp.Has(at, 4) && 0 <= a - at < U32
    ensures StringVectorVerdict(sp.bytes, at - sp.start, a - at).Ok?
    ensures ListOf(g, sp.End(), a, s, None).value.ListValue? && !ListOf(g, sp.End(), a, s, None).value.tables
  {
    hide Finished, OffsetAt, ValidSchema, VerifyVector, VerifyStringsFrom;
    OffsetVectorAccepted(sp, g, align, mem, at, a);
    StringsAccepted(sp, g, align, mem, a, s, 0);
  }

  lemma {:induction false} StringsAccepted(sp: Space, g: Graph, align: int, mem: int, a: int, s: Schema, i: nat)
    requires Finished(sp, g, align, mem) && Ordered(g, sp.End()) && a in g && ValidSchema(s) && ValidBuf(sp.bytes)
    requires g[a].OffsetsNode? && i <= |g[a].targets| && ItemsOf(g, sp.End(), a, s, None, i).Some?
    ensures sp.Has(a, 4 + 4 * |g[a].targets|)
    ensures VerifyStringsFrom(sp.bytes, a - sp.start + 4 + 4 * i, |g[a].targets| - i).Ok?
    decreases |g[a].targets| - i
  {
    hide Finished, OffsetAt, ValidSchema, VerifyString;
    OffsetsPlaced(sp, g, align, mem, a);
    if i < |g[a].targets| {
      var at, target := a + 4 + 4 * i, g[a].targets[i];
      assert OffsetAt(sp, at, target);
      DistanceFits(sp, at, target);
      StringAccepted(sp, g, align, mem, at, target);
      StringsAccepted(sp, g, align, mem, a, s, i + 1);
    }
  }

  lemma {:induction false} JudgesTableVector(sp: Space, g: Graph, align: int, mem: int, at: int, a: int, ttl: int,
      s: Schema, def: nat)
    requires Finished(sp, g, align, mem) && Ordered(g, sp.End()) && a in g && ValidSchema(s) && def < |s|
    requires OffsetAt(sp, at, a) && ListOf(g, sp.End(), a, s, Some(def)).Some?
    ensures ValidBuf(sp.bytes) && sp.Has(at, 4) && 0 <= a - at < U32
    ensures TableVectorVerdict(sp.bytes, mem, at - sp.start, a - at, ttl, s, def).Ok?
       <==> WithinLevels(ListOf(g, sp.End(), a, s, Some(def)).value, ttl)
    decreases sp.End() - a, 5, 0
  {
    hide Finished, OffsetAt, ValidSchema, VerifyVector, VerifyTablesFrom, ItemsOf;
    OffsetVectorAccepted(sp, g, align, mem, at, a);
    JudgesTables(sp, g, align, mem, a, ttl - 1, s, def, 0);
  }

  lemma {:induction false} JudgesTables(sp: Space, g: Graph, align: int, mem: int, a: int, ttl: int, s: Schema,
      def: nat, i: nat)
    requires Finished(sp, g, align, mem) && Ordered(g, sp.End()) && a in g && ValidSchema(s) && def < |s| &&
      ValidBuf(sp.bytes)
    requires g[a].OffsetsNode? && i <= |g[a].targets| && ItemsOf(g, sp.End(), a, s, Some(def), i).Some?
    ensures sp.Has(a, 4 + 4 * |g[a].targets|)
    ensures VerifyTablesFrom(sp.bytes, mem, a - sp.start + 4 + 4 * i, |g[a].targets| - i, ttl, s, def).Ok?
       <==> forall x | x in ItemsOf(g, sp.End(), a, s, Some(def), i).value :: WithinLevels(x, ttl)
    decreases sp.End() - a, 4, |g[a].targets| - i
  {
    hide Finished, OffsetAt, ValidSchema, VerifyTable, TableOf, WithinLevels;
    OffsetsPlaced(sp, g, align, mem, a);
    if i < |g[a].targets| {
      var at, target := a + 4 + 4 * i, g[a].targets[i];
      assert OffsetAt(sp, at, target);
      DistanceFits(sp, at, target);
      JudgesTable(sp, g, align, mem, at, target, ttl, s, def);
      JudgesTables(sp, g, align, mem, a, ttl, s, def, i + 1);
    }
  }

  // ---------------------------------------------------------------- whole buffers

  /** A finished buffer whose first word leads to a root matching the schema reads back as exactly
      the value the graph denotes, and is accepted if and only if that value is within the levels and
      the second word is the identifier expected, if one is. */
  lemma RoundTrip(sp: Space, g: Graph, align: int, mem: int, root: int, fid: int, s: Schema, def: nat)
    requires Finished(sp, g, align, mem) && Ordered(g, sp.End()) && root in g && ValidSchema(s) && def < |s|
    requires OffsetAt(sp, sp.start, root) && sp.Has(sp.start, 8)
    requires TableOf(g, sp.End(), root, s, def).Some?
    ensures ValidBuf(sp.bytes)
    ensures ReadTarget(sp.bytes, mem, 0, s, Some(def)) == TableOf(g, sp.End(), root, s, def)
    ensures VerifyTableAsRoot(sp.bytes, mem, fid, s, def).Ok?
       <==> (fid == 0 || sp.Word32(sp.start + 4) == fid) &&
            WithinLevels(TableOf(g, sp.End(), root, s, def).value, MAX_LEVELS)
  {
    hide Finished, VerifyTable, TableOf, ReadTarget, WithinLevels;
    BufferFits(sp, g, align, mem);
    DistanceFits(sp, sp.start, root);
    ReadsTarget(sp, g, align, mem, sp.start, root, s, Some(def)) by {
      assert TargetOf(g, sp.End(), root, s, Some(def)) == TableOf(g, sp.End(), root, s, def);
    }
    JudgesTable(sp, g, align, mem, sp.start, root, MAX_LEVELS, s, def);
    assert mem % 4 == 0 by { MemoryWordAligned(sp, g, align, mem); }
  }

  lemma MemoryWordAligned(sp: Space, g: Graph, align: int, mem: int)
    requires Finished(sp, g, align, mem)
    ensures mem % 4 == 0
  {
    SmallPowers();
    AlignedToLess(mem, 4, align);
  }

  // ----------------------------------------------------------------- nesting depth

  /** Tables and table vectors nested inside each other. */
  function Levels(v: Value): nat
  {
    match v
    case TableValue(fields) => 1 + FieldsLevels(fields)
    case ListValue(_, items) => 1 + ItemsLevels(items)
    case _ => 0
  }

  function FieldsLevels(fields: seq<FieldValue>): nat
  {
    if fields == [] then 0 else Max(FieldLevels(fields[0]), FieldsLevels(fields[1..]))
  }

  function FieldLevels(f: FieldValue): nat
  {
    match f
    case Object(v) => Levels(v)
    case Variant(_, Some(v)) => Levels(v)
    case _ => 0
  }

  function ItemsLevels(items: seq<Value>): nat
  {
    if items == [] then 0 else Max(Levels(items[0]), ItemsLevels(items[1..]))
  }

  lemma {:induction false} LevelsOfField(fields: seq<FieldValue>, f: FieldValue)
    requires f in fields
    ensures FieldLevels(f) <= FieldsLevels(fields)
  {
    if f != fields[0] { LevelsOfField(fields[1..], f); }
  }

  lemma {:induction false} LevelsOfItem(items: seq<Value>, x: Value)
    requires x in items
    ensures Levels(x) <= ItemsLevels(items)
  {
    if x != items[0] { LevelsOfItem(items[1..], x); }
  }

  /** Fewer nested levels than the limit always pass. */
  lemma {:induction false} ShallowWithinLevels(v: Value, ttl: int)
    requires Levels(v) < ttl
    ensures WithinLevels(v, ttl)
    decreases v
  {
    match v
    case TableValue(fields) =>
      forall f | f in fields ensures FieldWithinLevels(f, ttl - 1) {
        LevelsOfField(fields, f);
        match f
        case Object(o) => ShallowWithinLevels(o, ttl - 1);
        case Variant(_, Some(o)) => ShallowWithinLevels(o, ttl - 1);
        case _ =>
      }
    case ListValue(_, items) =>
      forall x | x in items ensures WithinLevels(x, ttl - 1) {
        LevelsOfItem(items, x);
        ShallowWithinLevels(x, ttl - 1);
      }
    case _ =>
  }

  /** No lists anywhere in a value, whose levels are then its tables. */
  predicate OnlyTables(v: Value)
  {
    match v
    case TableValue(fields) => forall f | f in fields :: OnlyTablesIn(f)
    case ListValue(_, _) => false
    case _ => true
  }

  predicate OnlyTablesIn(f: FieldValue)
  {
    match f
    case Object(v) => OnlyTables(v)
    case Variant(_, Some(v)) => OnlyTables(v)
    case _ => true
  }

  /** Tables inside tables alone pass exactly while there are fewer of them than the limit. */
  lemma {:induction false} TablesWithinLevels(v: Value, ttl: int)
    requires OnlyTables(v) && ttl >= 1
    ensures WithinLevels(v, ttl) <==> Levels(v) < ttl
    decreases v
  {
    if Levels(v) < ttl { ShallowWithinLevels(v, ttl); }
    if v.TableValue? && ttl > 1 && WithinLevels(v, ttl) {
      forall f | f in v.fields ensures FieldLevels(f) < ttl - 1 {
        assert FieldWithinLevels(f, ttl - 1) && OnlyTablesIn(f);
        match f
        case Object(o) => TablesWithinLevels(o, ttl - 1);
        case Variant(_, Some(o)) => TablesWithinLevels(o, ttl - 1);
        case _ =>
      }
      LevelsBelow(v.fields, ttl - 1);
    }
  }

  lemma {:induction false} LevelsBelow(fields: seq<FieldValue>, n: int)
    requires n > 0 && forall f | f in fields :: FieldLevels(f) < n
    ensures FieldsLevels(fields) < n
  {
    if fields != [] { LevelsBelow(fields[1..], n); }
  }
}
