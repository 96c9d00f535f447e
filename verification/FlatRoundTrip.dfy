/** Reading and verifying a finished buffer, against the object graph the builder was given. */
module FlatRoundTrip {
  import opened FlatBytes
  import opened FlatSchema
  import opened Wrappers
  import opened FlatReader
  import opened FlatVerifier
  import opened FlatGraph

  predicate Ordered(g: Graph, top: int)
  {
    forall a | a in g :: a < top && TargetsIn(g, a, g[a])
  }

  // ------------------------------------ the value a graph denotes under a schema

  /** The table at `a` as a value of type `def`; None when it does not match the schema. */
  ghost function TableOf(g: Graph, top: int, a: int, s: Schema, def: nat): Option<Value>
    requires Ordered(g, top) && a in g && ValidSchema(s) && def < |s|
    decreases top - a, 5, 0
  {
    if !g[a].TableNode? then None else
    var fields := FieldsOf(g, top, a, s, def, |s[def]|);
    if fields == None then None else Some(TableValue(fields.value))
  }

  ghost function FieldsOf(g: Graph, top: int, a: int, s: Schema, def: nat, k: nat): Option<seq<FieldValue>>
    requires Ordered(g, top) && a in g && g[a].TableNode? && ValidSchema(s) && def < |s| && k <= |s[def]|
    decreases top - a, 4, k
  {
    if k == 0 then Some([]) else
    var rest := FieldsOf(g, top, a, s, def, k - 1);
    var last := FieldOf(g, top, a, s, s[def][k - 1]);
    if rest.Some? && last.Some? then Some(rest.value + [last.value]) else None
  }

  ghost function FieldOf(g: Graph, top: int, a: int, s: Schema, d: FieldDecl): Option<FieldValue>
    requires Ordered(g, top) && a in g && g[a].TableNode? && ValidSchema(s) && ValidDecl(d, |s|)
    decreases top - a, 3, 0
  {
    var fields := g[a].fields;
    if d.typ.Union? then UnionOf(g, top, a, s, d)
    else if d.id !in fields then (if d.required && !d.typ.Scalar? then None else Some(Missing))
    else match fields[d.id]
      case Inline(data, align) =>
        if d.typ.Scalar? && |data| == d.typ.size && align == d.typ.align then Some(Bytes(data)) else None
      case Ref(target) =>
        if d.typ.Scalar? then None else
        var v := ReferenceOf(g, top, target, s, d.typ);
        if v == None then None else Some(Object(v.value))
  }

  ghost function UnionOf(g: Graph, top: int, a: int, s: Schema, d: FieldDecl): Option<FieldValue>
    requires Ordered(g, top) && a in g && g[a].TableNode? && ValidSchema(s) && ValidDecl(d, |s|) && d.typ.Union?
    decreases top - a, 2, 0
  {
    var fields := g[a].fields;
    if d.id - 1 !in fields then (if d.id in fields || d.required then None else Some(Missing))
    else if !(fields[d.id - 1].Inline? && |fields[d.id - 1].data| == 1) then None
    else
      var code: int := fields[d.id - 1].data[0];
      if code == 0 then (if d.id in fields then None else Some(Variant(0, None)))
      else if d.id !in fields then (if d.required then None else Some(Variant(code, None)))
      else if !fields[d.id].Ref? then None
      else if code !in d.typ.members then Some(Variant(code, None))
      else
        var v := TargetOf(g, top, fields[d.id].target, s, MemberDef(d.typ.members[code]));
        if v == None then None else Some(Variant(code, v))
  }

  /** The string or table at `a`. */
  ghost function TargetOf(g: Graph, top: int, a: int, s: Schema, def: Option<nat>): Option<Value>
    requires Ordered(g, top) && a in g && ValidSchema(s) && (def.Some? ==> def.value < |s|)
    decreases top - a, 6, 0
  {
    if def.Some? then TableOf(g, top, a, s, def.value)
    else if g[a].StringNode? then Some(TextValue(g[a].chars))
    else None
  }

  ghost function ReferenceOf(g: Graph, top: int, a: int, s: Schema, t: FieldType): Option<Value>
    requires Ordered(g, top) && a in g && ValidSchema(s)
    requires IsReference(t) && ValidDecl(FieldDecl(1, false, t), |s|)
    decreases top - a, 7, 0
  {
    if t.Text? then TargetOf(g, top, a, s, None)
    else if t.Table? then TargetOf(g, top, a, s, Some(t.def))
    else if t.Vector? then
      if g[a].VectorNode? && g[a].elemSize == t.elemSize && g[a].align >= t.align
      then Some(VectorValue(g[a].count, g[a].data)) else None
    else ListOf(g, top, a, s, if t.TextVector? then None else Some(t.def))
  }

  ghost function ListOf(g: Graph, top: int, a: int, s: Schema, def: Option<nat>): Option<Value>
    requires Ordered(g, top) && a in g && ValidSchema(s) && (def.Some? ==> def.value < |s|)
    decreases top - a, 5, 0
  {
    if !g[a].OffsetsNode? then None else
    var items := ItemsOf(g, top, a, s, def, 0);
    if items == None then None else Some(ListValue(def.Some?, items.value))
  }

  /** The items of the offset vector at `a` from index `i` on. */
  ghost function ItemsOf(g: Graph, top: int, a: int, s: Schema, def: Option<nat>, i: nat): Option<seq<Value>>
    requires Ordered(g, top) && a in g && ValidSchema(s) && (def.Some? ==> def.value < |s|)
    requires g[a].OffsetsNode? && i <= |g[a].targets|
    decreases top - a, 4, |g[a].targets| - i
  {
    if i == |g[a].targets| then Some([]) else
    var head := TargetOf(g, top, g[a].targets[i], s, def);
    var rest := ItemsOf(g, top, a, s, def, i + 1);
    if head.Some? && rest.Some? then Some([head.value] + rest.value) else None
  }

  // --------------------------------------------- which values pass the level limit

  /** Each table takes one level and must not reach 0; a table vector takes one more but only
      has to be entered above 0, so its tables may be entered at 0 and continue below. */
  predicate WithinLevels(v: Value, ttl: int)
  {
    match v
    case TableValue(fields) => ttl != 1 && forall f | f in fields :: FieldWithinLevels(f, ttl - 1)
    case ListValue(tables, items) =>
      tables ==> ttl > 0 && forall x | x in items :: WithinLevels(x, ttl - 1)
    case _ => true
  }

  predicate FieldWithinLevels(f: FieldValue, ttl: int)
  {
    match f
    case Object(v) => WithinLevels(v, ttl)
    case Variant(_, Some(v)) => WithinLevels(v, ttl)
    case _ => true
  }

  // ------------------------------------------------------------- a finished buffer

  /** A graph laid out in a space that starts and is placed on a multiple of every alignment used. */
  ghost predicate Finished(sp: Space, g: Graph, align: int, mem: int)
  {
    && GraphAt(sp, g)
    && |sp.bytes| <= UOFFSET_MAX - 8 && InReach(sp, g)
    && IsPow2(align) && 4 <= align && sp.start % align == 0 && mem % align == 0
    && (forall a | a in g :: NodeAligned(g[a], align))
  }

  predicate NodeAligned(node: Node, align: int)
  {
    match node
    case VectorNode(_, al, _, _) => al <= align
    case TableNode(vt, fields) =>
      vt % 2 == 0 && forall id | id in fields :: fields[id].Inline? ==> fields[id].align <= align
    case _ => true
  }

  /** Tables and vtables lie below 2^31, so that a signed offset leads from one to the other. Only
      vtables that have been put behind a large buffer may not. */
  ghost predicate InReach(sp: Space, g: Graph)
  {
    forall a | a in g && g[a].TableNode? :: a - sp.start < U32 / 2 && g[a].vtable - sp.start < U32 / 2
  }

  lemma {:induction false} SmallIsInReach(sp: Space, g: Graph)
    requires GraphAt(sp, g) && |sp.bytes| <= U32 / 2
    ensures InReach(sp, g)
  {
    forall a | a in g && g[a].TableNode? ensures a - sp.start < U32 / 2 && g[a].vtable - sp.start < U32 / 2 {
      assert NodeAt(sp, a, g[a]);
    }
  }

  lemma FinishedIsOrdered(sp: Space, g: Graph, align: int, mem: int)
    requires Finished(sp, g, align, mem)
    ensures Ordered(g, sp.End())
  {
  }

  lemma AlignedPosition(sp: Space, x: int, al: int, align: int, mem: int)
    requires IsPow2(align) && sp.start % align == 0 && mem % align == 0
    requires IsPow2(al) && al <= align && x % al == 0
    ensures (x - sp.start) % al == 0 && (mem + (x - sp.start)) % al == 0
  {
    AlignedToLess(sp.start, al, align);
    AlignedToLess(mem, al, align);
    SumAligned(x, sp.start, al);
    SumAligned(mem, x - sp.start, al);
  }

  lemma WordAligned(sp: Space, g: Graph, align: int, mem: int, x: int)
    requires Finished(sp, g, align, mem) && x % 4 == 0
    ensures (x - sp.start) % 4 == 0
  {
    SmallPowers();
    AlignedPosition(sp, x, 4, align, mem);
  }

  /** Every object has a header word at a word-aligned place. */
  lemma HeaderPlaced(sp: Space, g: Graph, align: int, mem: int, a: int)
    requires Finished(sp, g, align, mem) && a in g
    ensures a % 4 == 0 && sp.Has(a, 4) && (a - sp.start) % 4 == 0
    ensures NodeAt(sp, a, g[a])
  {
    assert NodeAt(sp, a, g[a]);
    WordAligned(sp, g, align, mem, a);
  }

  lemma TargetReached(sp: Space, g: Graph, align: int, mem: int, at: int, target: int)
    requires Finished(sp, g, align, mem) && OffsetAt(sp, at, target) && target in g
    ensures Target(sp.bytes, at - sp.start) == Some(target - sp.start)
    ensures CheckHeader(|sp.bytes|, at - sp.start, target - at)
  {
    HeaderPlaced(sp, g, align, mem, target);
    WordAligned(sp, g, align, mem, at);
    OffsetFollowed(sp, at, target);
  }

  lemma OffsetFollowed(sp: Space, at: int, target: int)
    requires OffsetAt(sp, at, target) && |sp.bytes| < U32 && sp.Has(target, 4)
    requires (at - sp.start) % 4 == 0 && (target - sp.start) % 4 == 0
    ensures Target(sp.bytes, at - sp.start) == Some(target - sp.start)
    ensures CheckHeader(|sp.bytes|, at - sp.start, target - at)
  {
  }

  lemma VtableReached(sp: Space, g: Graph, align: int, mem: int, a: int)
    requires Finished(sp, g, align, mem) && a in g && g[a].TableNode?
    ensures TableAt(sp, a, g[a].vtable, g[a].fields) && VtableAt(sp, g[a].vtable) && (a - sp.start) % 4 == 0 &&
      (g[a].vtable - sp.start) % 2 == 0
    ensures VtableOf(sp.bytes, a - sp.start) == Some(g[a].vtable - sp.start)
    ensures forall id: nat :: Entry(sp.bytes, g[a].vtable - sp.start, id) == Some(VtEntry(sp, g[a].vtable, id))
    ensures forall id: nat :: VtEntry(sp, g[a].vtable, id) != 0 <==> id in g[a].fields
  {
    var vt := g[a].vtable;
    HeaderPlaced(sp, g, align, mem, a);
    assert NodeAligned(g[a], align);
    SmallPowers();
    AlignedPosition(sp, vt, 2, align, mem);
    VtableFollowed(sp, a, vt);
  }

  /** A reader finds the vtable of the table at `a` and the entry that was laid out for `id`. */
  lemma EntryFound(sp: Space, g: Graph, align: int, mem: int, a: int, id: nat)
    requires Finished(sp, g, align, mem) && a in g && g[a].TableNode?
    ensures TableAt(sp, a, g[a].vtable, g[a].fields) && VtableAt(sp, g[a].vtable)
    ensures VtableOf(sp.bytes, a - sp.start) == Some(g[a].vtable - sp.start)
    ensures Entry(sp.bytes, g[a].vtable - sp.start, id) == Some(VtEntry(sp, g[a].vtable, id))
    ensures VtEntry(sp, g[a].vtable, id) != 0 <==> id in g[a].fields
  {
    hide Finished, TableAt;
    VtableReached(sp, g, align, mem, a);
  }

  lemma VtableFollowed(sp: Space, a: int, vt: int)
    requires (a - sp.start) % 4 == 0 && sp.Has(a, 4) && sp.Word32(a) == (a - vt) % U32
    requires a - sp.start < U32 / 2 && vt - sp.start < U32 / 2
    requires VtableAt(sp, vt) && (vt - sp.start) % 2 == 0
    ensures VtableOf(sp.bytes, a - sp.start) == Some(vt - sp.start)
    ensures forall id: nat :: Entry(sp.bytes, vt - sp.start, id) == Some(VtEntry(sp, vt, id))
  {
    hide Entry, VtEntry;
    SignedDistance(a, vt);
    forall id: nat ensures Entry(sp.bytes, vt - sp.start, id) == Some(VtEntry(sp, vt, id)) {
      EntryFollowed(sp, vt, id);
    }
  }

  lemma EntryFollowed(sp: Space, vt: int, id: nat)
    requires VtableAt(sp, vt)
    ensures Entry(sp.bytes, vt - sp.start, id) == Some(VtEntry(sp, vt, id))
  {
  }

  lemma SignedDistance(a: int, vt: int)
    requires -U32 / 2 < a - vt < U32 / 2
    ensures Soffset((a - vt) % U32) == a - vt
  {
  }

  // ------------------------------------------------------------- reading it back

  lemma {:induction false} ReadsTable(sp: Space, g: Graph, align: int, mem: int, a: int, s: Schema, def: nat)
    requires Finished(sp, g, align, mem) && Ordered(g, sp.End()) && a in g && ValidSchema(s) && def < |s|
    requires TableOf(g, sp.End(), a, s, def).Some?
    ensures ReadTable(sp.bytes, mem, a - sp.start, s, def) == TableOf(g, sp.End(), a, s, def)
    decreases sp.End() - a, 5, 0
  {
    hide Finished, TableAt, ReadFields, FieldsOf;
    VtableReached(sp, g, align, mem, a);
    ReadsFields(sp, g, align, mem, a, s, def, |s[def]|);
  }

  lemma {:induction false} ReadsFields(sp: Space, g: Graph, align: int, mem: int, a: int, s: Schema, def: nat, k: nat)
    requires Finished(sp, g, align, mem) && Ordered(g, sp.End()) && a in g && ValidSchema(s) && def < |s|
    requires g[a].TableNode? && k <= |s[def]| && FieldsOf(g, sp.End(), a, s, def, k).Some?
    ensures VtableOf(sp.bytes, a - sp.start) == Some(g[a].vtable - sp.start)
    ensures ReadFields(sp.bytes, mem, a - sp.start, g[a].vtable - sp.start, s, def, k)
      == FieldsOf(g, sp.End(), a, s, def, k)
    decreases sp.End() - a, 4, k
  {
    hide Finished, TableAt, ReadField, FieldOf;
    VtableReached(sp, g, align, mem, a);
    if k > 0 {
      ReadsFields(sp, g, align, mem, a, s, def, k - 1);
      ReadsField(sp, g, align, mem, a, s, s[def][k - 1]);
    }
  }

  /** A field's place: where it is and that it lies inside the buffer, aligned. */
  lemma FieldPlaced(sp: Space, g: Graph, align: int, mem: int, a: int, id: nat)
    requires Finished(sp, g, align, mem) && a in g && g[a].TableNode? && id in g[a].fields
    requires TableAt(sp, a, g[a].vtable, g[a].fields)
    ensures VtableAt(sp, g[a].vtable)
    ensures var f, o := g[a].fields[id], VtEntry(sp, g[a].vtable, id);
      && 4 <= o && sp.start <= a && a + o + FieldSize(f) <= sp.End()
      && (f.Inline? ==> sp.Slice(a + o, |f.data|) == f.data && ValidAlign(f.align) &&
                        (mem + (a + o - sp.start)) % f.align == 0)
      && (f.Ref? ==> OffsetAt(sp, a + o, f.target) && f.target in g && a + o < f.target)
  {
    hide TableAt;
    FieldUnpacked(sp, a, g[a].vtable, g[a].fields, id);
    var f, o := g[a].fields[id], VtEntry(sp, g[a].vtable, id);
    assert NodeAligned(g[a], align) && TargetsIn(g, a, g[a]);
    if f.Inline? { AlignedPosition(sp, a + o, f.align, align, mem); }
  }

  lemma FieldUnpacked(sp: Space, a: int, vt: int, fields: map<int, Field>, id: nat)
    requires TableAt(sp, a, vt, fields) && id in fields
    ensures VtableAt(sp, vt)
    ensures var f, o := fields[id], VtEntry(sp, vt, id);
      && 4 <= o && sp.start <= a && a + o + FieldSize(f) <= sp.End()
      && (f.Inline? ==> sp.Slice(a + o, |f.data|) == f.data && ValidAlign(f.align) && (a + o) % f.align == 0)
      && (f.Ref? ==> OffsetAt(sp, a + o, f.target))
  {
  }

  lemma {:induction false} ReadsField(sp: Space, g: Graph, align: int, mem: int, a: int, s: Schema, d: FieldDecl)
    requires Finished(sp, g, align, mem) && Ordered(g, sp.End()) && a in g && ValidSchema(s) && ValidDecl(d, |s|)
    requires g[a].TableNode? && FieldOf(g, sp.End(), a, s, d).Some?
    ensures VtableOf(sp.bytes, a - sp.start) == Some(g[a].vtable - sp.start)
    ensures ReadField(sp.bytes, mem, a - sp.start, g[a].vtable - sp.start, s, d) == FieldOf(g, sp.End(), a, s, d)
    decreases sp.End() - a, 3, 0
  {
    hide Finished, ValidSchema, VtableAt, TableAt, OffsetAt, VtEntry, Entry, VtableOf, ReadUnion, UnionOf,
      ReadReference, ReferenceOf;
    EntryFound(sp, g, align, mem, a, d.id);
    var vt := g[a].vtable;
    var o := VtEntry(sp, vt, d.id);
    if d.typ.Union? {
      ReadsUnion(sp, g, align, mem, a, s, d);
    } else if d.id in g[a].fields {
      FieldPlaced(sp, g, align, mem, a, d.id);
      var f := g[a].fields[d.id];
      if f.Ref? {
        ReadsReference(sp, g, align, mem, a + o, f.target, s, d.typ);
      } else {
        assert sp.Slice(a + o, |f.data|) == sp.bytes[a - sp.start + o..a - sp.start + o + |f.data|];
      }
    }
  }

  lemma {:induction false} ReadsUnion(sp: Space, g: Graph, align: int, mem: int, a: int, s: Schema, d: FieldDecl)
    requires Finished(sp, g, align, mem) && Ordered(g, sp.End()) && a in g && ValidSchema(s) && ValidDecl(d, |s|)
    requires d.typ.Union? && g[a].TableNode? && UnionOf(g, sp.End(), a, s, d).Some?
    ensures VtableOf(sp.bytes, a - sp.start) == Some(g[a].vtable - sp.start)
    ensures ReadUnion(sp.bytes, mem, a - sp.start, g[a].vtable - sp.start, s, d) == UnionOf(g, sp.End(), a, s, d)
    decreases sp.End() - a, 2, 0
  {
    hide Finished, ValidSchema, VtableAt, TableAt, OffsetAt, NodeAt, VtEntry, Entry, VtableOf, ReadTarget, TargetOf;
    EntryFound(sp, g, align, mem, a, d.id);
    EntryFound(sp, g, align, mem, a, d.id - 1);
    var vt, fields := g[a].vtable, g[a].fields;
    if d.id - 1 in fields {
      FieldPlaced(sp, g, align, mem, a, d.id - 1);
      var at := a + VtEntry(sp, vt, d.id - 1);
      assert sp.bytes[at - sp.start] == sp.Slice(at, 1)[0];
      if d.id in fields && fields[d.id].Ref? {
        FieldPlaced(sp, g, align, mem, a, d.id);
        var code: int := fields[d.id - 1].data[0];
        if code in d.typ.members && code != 0 {
          ReadsTarget(sp, g, align, mem, a + VtEntry(sp, vt, d.id), fields[d.id].target, s,
            MemberDef(d.typ.members[code]));
        }
      }
    }
  }

  lemma {:induction false} ReadsTarget(sp: Space, g: Graph, align: int, mem: int, at: int, a: int, s: Schema,
      def: Option<nat>)
    requires Finished(sp, g, align, mem) && Ordered(g, sp.End()) && a in g && ValidSchema(s)
    requires OffsetAt(sp, at, a) && (def.Some? ==> def.value < |s|)
    requires TargetOf(g, sp.End(), a, s, def).Some?
    ensures ReadTarget(sp.bytes, mem, at - sp.start, s, def) == TargetOf(g, sp.End(), a, s, def)
    decreases sp.End() - a, 6, 0
  {
    hide Finished, OffsetAt, ReadTable, TableOf, ReadText;
    TargetReached(sp, g, align, mem, at, a);
    if def.Some? {
      ReadsTable(sp, g, align, mem, a, s, def.value);
    } else {
      HeaderPlaced(sp, g, align, mem, a);
      ReadsString(sp, a, g[a].chars);
    }
  }

  lemma ReadsString(sp: Space, a: int, chars: seq<byte>)
    requires StringAt(sp, a, chars)
    ensures ReadText(sp.bytes, a - sp.start) == Some(TextValue(chars))
  {
  }

  /** A vector's first element is aligned for any element type up to the vector's alignment. */
  lemma VectorPlaced(sp: Space, g: Graph, align: int, mem: int, a: int, al: int)
    requires Finished(sp, g, align, mem) && a in g && g[a].VectorNode? && ValidAlign(al) && al <= g[a].align
    ensures (a + 4 - sp.start) % al == 0 && (mem + (a + 4 - sp.start)) % al == 0
  {
    hide IsPow2;
    assert NodeAt(sp, a, g[a]) && NodeAligned(g[a], align);
    AlignedToLess(a + 4, al, g[a].align);
    AlignedPosition(sp, a + 4, al, align, mem);
  }

  lemma ReadsVector(sp: Space, g: Graph, align: int, mem: int, a: int, al: int)
    requires Finished(sp, g, align, mem) && a in g && g[a].VectorNode? && ValidAlign(al) && al <= g[a].align
    ensures sp.Has(a, 4)
    ensures ReadVector(sp.bytes, mem, a - sp.start, g[a].elemSize, al) == Some(VectorValue(g[a].count, g[a].data))
  {
    hide Finished, IsPow2;
    VectorPlaced(sp, g, align, mem, a, al);
    HeaderPlaced(sp, g, align, mem, a);
  }

  lemma {:induction false} ReadsReference(sp: Space, g: Graph, align: int, mem: int, at: int, a: int, s: Schema,
      t: FieldType)
    requires Finished(sp, g, align, mem) && Ordered(g, sp.End()) && a in g && ValidSchema(s)
    requires OffsetAt(sp, at, a) && IsReference(t) && ValidDecl(FieldDecl(1, false, t), |s|)
    requires ReferenceOf(g, sp.End(), a, s, t).Some?
    ensures ReadReference(sp.bytes, mem, at - sp.start, s, t) == ReferenceOf(g, sp.End(), a, s, t)
    decreases sp.End() - a, 7, 0
  {
    hide Finished, OffsetAt, ReadTarget, TargetOf, ReadListAt, ListOf, ReadVector;
    if t.Text? {
      ReadsTarget(sp, g, align, mem, at, a, s, None);
    } else if t.Table? {
      ReadsTarget(sp, g, align, mem, at, a, s, Some(t.def));
    } else if t.Vector? {
      TargetReached(sp, g, align, mem, at, a);
      ReadsVector(sp, g, align, mem, a, t.align);
    } else if t.TextVector? {
      ReadsListAt(sp, g, align, mem, at, a, s, None);
    } else {
      ReadsListAt(sp, g, align, mem, at, a, s, Some(t.def));
    }
  }

  lemma OffsetsPlaced(sp: Space, g: Graph, align: int, mem: int, a: int)
    requires Finished(sp, g, align, mem) && a in g && g[a].OffsetsNode?
    ensures sp.Has(a, 4 + 4 * |g[a].targets|) && sp.Word32(a) == |g[a].targets|
    ensures forall i | 0 <= i < |g[a].targets| ::
      OffsetAt(sp, a + 4 + 4 * i, g[a].targets[i]) &&
      g[a].targets[i] in g && a < g[a].targets[i]
  {
  }

  lemma {:induction false} ReadsListAt(sp: Space, g: Graph, align: int, mem: int, at: int, a: int, s: Schema,
      def: Option<nat>)
    requires Finished(sp, g, align, mem) && Ordered(g, sp.End()) && a in g && ValidSchema(s)
    requires OffsetAt(sp, at, a) && (def.Some? ==> def.value < |s|)
    requires ListOf(g, sp.End(), a, s, def).Some?
    ensures ReadListAt(sp.bytes, mem, at - sp.start, s, def) == ListOf(g, sp.End(), a, s, def)
    decreases sp.End() - a, 5, 0
  {
    hide Finished, OffsetAt, ReadList, ItemsOf;
    TargetReached(sp, g, align, mem, at, a);
    OffsetsPlaced(sp, g, align, mem, a);
    ReadsItems(sp, g, align, mem, a, s, def, 0);
  }

  lemma {:induction false} ReadsItems(sp: Space, g: Graph, align: int, mem: int, a: int, s: Schema, def: Option<nat>,
      i: nat)
    requires Finished(sp, g, align, mem) && Ordered(g, sp.End()) && a in g && ValidSchema(s)
    requires g[a].OffsetsNode? && i <= |g[a].targets| && (def.Some? ==> def.value < |s|)
    requires ItemsOf(g, sp.End(), a, s, def, i).Some?
    ensures ReadList(sp.bytes, mem, a - sp.start + 4 + 4 * i, |g[a].targets| - i, s, def)
      == ItemsOf(g, sp.End(), a, s, def, i)
    decreases sp.End() - a, 4, |g[a].targets| - i
  {
    hide Finished, OffsetAt, ReadTarget, TargetOf;
    OffsetsPlaced(sp, g, align, mem, a);
    if i < |g[a].targets| {
      ReadsTarget(sp, g, align, mem, a + 4 + 4 * i, g[a].targets[i], s, def);
      ReadsItems(sp, g, align, mem, a, s, def, i + 1);
    }
  }
}
