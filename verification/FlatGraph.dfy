/** The builder's virtual address space and the objects laid out in it. Addresses are signed:
    the space starts empty at 0, objects are prepended below, clustered vtables appended above. */
module FlatGraph {
  import opened FlatBytes
  import opened FlatSchema

  datatype Space = Space(start: int, bytes: seq<byte>) {
    function End(): int { start + |bytes| }

    predicate Has(a: int, n: int) { 0 <= n && start <= a && a + n <= End() }

    function Word16(a: int): (v: int)
      requires Has(a, 2)
      ensures 0 <= v < U16
    { U16At(bytes, a - start) }

    function Word32(a: int): (v: int)
      requires Has(a, 4)
      ensures 0 <= v < U32
    { U32At(bytes, a - start) }

    function Slice(a: int, n: int): (s: seq<byte>)
      requires Has(a, n)
      ensures |s| == n
    { bytes[a - start..a - start + n] }
  }

  /** `t` holds everything `s` holds, at the same addresses. */
  predicate Extends(s: Space, t: Space)
  {
    t.Has(s.start, |s.bytes|) && t.Slice(s.start, |s.bytes|) == s.bytes
  }

  lemma ExtendsReads(s: Space, t: Space, a: int, n: int)
    requires Extends(s, t) && s.Has(a, n)
    ensures t.Has(a, n) && t.Slice(a, n) == s.Slice(a, n)
    ensures n == 2 ==> t.Word16(a) == s.Word16(a)
    ensures n == 4 ==> t.Word32(a) == s.Word32(a)
  {
    var d := s.start - t.start;
    assert t.bytes[d..d + |s.bytes|] == s.bytes;
    assert t.Slice(a, n) == s.Slice(a, n) by {
      assert t.bytes[a - t.start..a - t.start + n] == t.bytes[d..d + |s.bytes|][a - s.start..a - s.start + n];
    }
    if n == 2 || n == 4 { SameWindow(t.bytes, a - t.start, s.bytes, a - s.start, n, 0); }
  }

  /** A table field: bytes stored in place, or an offset to another object. */
  datatype Field = Inline(data: seq<byte>, align: int) | Ref(target: int)

  datatype Node =
    | StringNode(chars: seq<byte>)
    | VectorNode(elemSize: nat, align: int, count: int, data: seq<byte>)
    | OffsetsNode(targets: seq<int>)
    | TableNode(vtable: int, fields: map<int, Field>)

  type Graph = map<int, Node>

  function FieldSize(f: Field): (n: nat)
  {
    match f case Inline(data, _) => |data| case Ref(_) => 4
  }

  // ---------------------------------------------------------- layout of one object

  ghost predicate StringAt(sp: Space, a: int, chars: seq<byte>)
  {
    && a % 4 == 0 && sp.Has(a, |chars| + 5)
    && sp.Word32(a) == |chars|
    && sp.Slice(a + 4, |chars|) == chars
    && sp.Slice(a + 4 + |chars|, 1) == [0]
  }

  ghost predicate VectorAt(sp: Space, a: int, elemSize: nat, align: int, count: int, data: seq<byte>)
  {
    && a % 4 == 0 && sp.Has(a, |data| + 4)
    && ValidAlign(align) && (a + 4) % align == 0
    && 0 <= count <= (U32 - 1) / (if elemSize == 0 then 1 else elemSize) && |data| == count * elemSize
    && sp.Word32(a) == count
    && sp.Slice(a + 4, |data|) == data
  }

  /** An offset stored at `at` that leads forward to `target`. */
  ghost predicate OffsetAt(sp: Space, at: int, target: int)
  {
    at % 4 == 0 && sp.Has(at, 4) && at < target && sp.Word32(at) == target - at
  }

  ghost predicate OffsetsAt(sp: Space, a: int, targets: seq<int>)
  {
    && a % 4 == 0 && sp.Has(a, 4 * |targets| + 4) && |targets| < U32 / 4
    && sp.Word32(a) == |targets|
    && forall i | 0 <= i < |targets| :: OffsetAt(sp, a + 4 + 4 * i, targets[i])
  }

  /** A vtable: its size, the table's size, then one entry per field id. */
  ghost predicate VtableAt(sp: Space, vt: int)
  {
    sp.Has(vt, 4) && 4 <= sp.Word16(vt) && sp.Word16(vt) % 2 == 0 && sp.Has(vt, sp.Word16(vt))
  }

  ghost function VtEntry(sp: Space, vt: int, id: nat): (o: int)
    requires VtableAt(sp, vt)
    ensures 0 <= o < U16
  {
    if 4 + 2 * id < sp.Word16(vt) then sp.Word16(vt + 4 + 2 * id) else 0
  }

  ghost predicate FieldAt(sp: Space, a: int, tsize: int, o: int, f: Field)
    requires sp.Has(a, tsize)
  {
    && 4 <= o && o + FieldSize(f) <= tsize
    && match f
       case Inline(data, align) =>
         sp.Slice(a + o, |data|) == data && ValidAlign(align) && (a + o) % align == 0
       case Ref(target) => OffsetAt(sp, a + o, target)
  }

  ghost predicate TableAt(sp: Space, a: int, vt: int, fields: map<int, Field>)
  {
    && a % 4 == 0 && sp.Has(a, 4) && sp.Word32(a) == (a - vt) % U32
    && VtableAt(sp, vt) && 4 <= sp.Word16(vt + 2) && sp.Has(a, sp.Word16(vt + 2))
    && (forall id: nat :: VtEntry(sp, vt, id) != 0 <==> id in fields)
    && (forall id | id in fields ::
      0 <= id <= ID_MAX &&
      FieldAt(sp, a, sp.Word16(vt + 2), VtEntry(sp, vt, id), fields[id]))
  }

  ghost predicate NodeAt(sp: Space, a: int, node: Node)
  {
    match node
    case StringNode(chars) => StringAt(sp, a, chars)
    case VectorNode(elemSize, align, count, data) => VectorAt(sp, a, elemSize, align, count, data)
    case OffsetsNode(targets) => OffsetsAt(sp, a, targets)
    case TableNode(vt, fields) => TableAt(sp, a, vt, fields)
  }

  predicate TargetsIn(g: Graph, a: int, node: Node)
  {
    match node
    case OffsetsNode(targets) => forall i | 0 <= i < |targets| :: targets[i] in g && a < targets[i]
    case TableNode(_, fields) => forall id | id in fields :: fields[id].Ref? ==>
      fields[id].target in g && a < fields[id].target
    case _ => true
  }

  /** Every object of the graph is laid out at its address and refers to objects of the graph above it. */
  ghost predicate GraphAt(sp: Space, g: Graph)
  {
    forall a | a in g :: NodeAt(sp, a, g[a]) && TargetsIn(g, a, g[a])
  }

  // ------------------------------------------------------ emitting keeps objects

  lemma VtableKept(s: Space, t: Space, vt: int)
    requires Extends(s, t) && VtableAt(s, vt)
    ensures VtableAt(t, vt) && t.Word16(vt) == s.Word16(vt) && t.Word16(vt + 2) == s.Word16(vt + 2)
    ensures forall id: nat :: VtEntry(t, vt, id) == VtEntry(s, vt, id)
  {
    ExtendsReads(s, t, vt, 2);
    ExtendsReads(s, t, vt + 2, 2);
    ExtendsReads(s, t, vt, s.Word16(vt));
    forall id: nat ensures VtEntry(t, vt, id) == VtEntry(s, vt, id) {
      if 4 + 2 * id < s.Word16(vt) { ExtendsReads(s, t, vt + 4 + 2 * id, 2); }
    }
  }

  lemma FieldKept(s: Space, t: Space, a: int, tsize: int, o: int, f: Field)
    requires Extends(s, t) && s.Has(a, tsize) && t.Has(a, tsize) && FieldAt(s, a, tsize, o, f)
    ensures FieldAt(t, a, tsize, o, f)
  {
    match f
    case Inline(data, _) => ExtendsReads(s, t, a + o, |data|);
    case Ref(target) => OffsetKept(s, t, a + o, target);
  }

  lemma OffsetKept(s: Space, t: Space, at: int, target: int)
    requires Extends(s, t) && OffsetAt(s, at, target)
    ensures OffsetAt(t, at, target)
  {
  }

  lemma OffsetsKept(s: Space, t: Space, a: int, targets: seq<int>)
    requires Extends(s, t) && OffsetsAt(s, a, targets)
    ensures OffsetsAt(t, a, targets)
  {
    hide OffsetAt, Extends;
    ExtendsReads(s, t, a, 4);
    ExtendsReads(s, t, a, 4 * |targets| + 4);
    forall i | 0 <= i < |targets| ensures OffsetAt(t, a + 4 + 4 * i, targets[i]) {
      OffsetKept(s, t, a + 4 + 4 * i, targets[i]);
    }
  }

  lemma TableKept(s: Space, t: Space, a: int, vt: int, fields: map<int, Field>)
    requires Extends(s, t) && TableAt(s, a, vt, fields)
    ensures TableAt(t, a, vt, fields)
  {
    ExtendsReads(s, t, a, 4);
    VtableKept(s, t, vt);
    var tsize := s.Word16(vt + 2);
    ExtendsReads(s, t, a, tsize);
    forall id | id in fields ensures FieldAt(t, a, tsize, VtEntry(t, vt, id), fields[id]) {
      FieldKept(s, t, a, tsize, VtEntry(s, vt, id), fields[id]);
    }
  }

  lemma NodeKept(s: Space, t: Space, a: int, node: Node)
    requires Extends(s, t) && NodeAt(s, a, node)
    ensures NodeAt(t, a, node)
  {
    match node
    case StringNode(chars) =>
      ExtendsReads(s, t, a, 4);
      ExtendsReads(s, t, a + 4, |chars|);
      ExtendsReads(s, t, a + 4 + |chars|, 1);
    case VectorNode(_, _, _, data) =>
      ExtendsReads(s, t, a, 4);
      ExtendsReads(s, t, a + 4, |data|);
    case OffsetsNode(targets) => OffsetsKept(s, t, a, targets);
    case TableNode(vt, fields) => TableKept(s, t, a, vt, fields);
  }

  /** Whatever is emitted later, at either end, every object built so far stays readable. */
  lemma GraphKept(s: Space, t: Space, g: Graph)
    requires Extends(s, t) && GraphAt(s, g)
    ensures GraphAt(t, g)
  {
    forall a | a in g ensures NodeAt(t, a, g[a]) {
      NodeKept(s, t, a, g[a]);
    }
  }

  /** Adding an object that refers to what is already there. */
  lemma GraphGrows(sp: Space, g: Graph, a: int, node: Node)
    requires GraphAt(sp, g) && a !in g && NodeAt(sp, a, node) && TargetsIn(g, a, node)
    ensures GraphAt(sp, g[a := node])
  {
  }
}
