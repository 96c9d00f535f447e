/** When an accepted buffer is safe to read: nothing a reader reaches lies outside the buffer, is
    unaligned, or leads backwards. Two things are up to the caller, since the verifier does not check
    them: that the buffer is not too large, and where in memory it is placed. */
module FlatSoundness {
  import opened FlatBytes
  import opened FlatSchema
  import opened Wrappers
  import opened FlatReader
  import opened FlatVerifier

  /** No table can lie at 2^31 or above. */
  predicate SafeSize(buf: seq<byte>)
  {
    |buf| < U32 / 2 + 4
  }

  /** The buffer's address is a multiple of the alignment of every kind of vector. */
  predicate PlacedFor(mem: int, s: Schema)
  {
    mem % 4 == 0 && forall t, i | 0 <= t < |s| && 0 <= i < |s[t]| :: Suits(mem, s[t][i].typ)
  }

  predicate Suits(mem: int, t: FieldType)
  {
    match t
    case Vector(_, align) => 0 < align && (align <= 4 || mem % align == 0)
    case _ => true
  }

  lemma StringSound(buf: seq<byte>, base: int, offset: int)
    requires ValidBuf(buf) && 0 <= base < U32 && 0 <= offset < U32 && VerifyString(buf, base, offset).Ok?
    ensures base < base + offset && (base + offset) % 4 == 0 && base + offset + 4 <= |buf|
    ensures ReadText(buf, base + offset).Some?
  {
  }

  lemma {:induction false} StringsSound(buf: seq<byte>, mem: int, base: int, n: nat, s: Schema)
    requires ValidBuf(buf) && 0 <= base && base % 4 == 0 && base + 4 * n <= |buf| && ValidSchema(s)
    requires VerifyStringsFrom(buf, base, n).Ok?
    ensures ReadList(buf, mem, base, n, s, None).Some?
    decreases n
  {
    hide ReadText, VerifyString;
    if n > 0 {
      StringSound(buf, base, U32At(buf, base));
      StringsSound(buf, mem, base + 4, n - 1, s);
    }
  }

  lemma {:induction false} TableSound(buf: seq<byte>, mem: int, base: int, offset: int, ttl: int, s: Schema, def: nat)
    requires SafeSize(buf) && PlacedFor(mem, s)
    requires ValidBuf(buf) && 0 <= base && base + 4 <= |buf| && 0 <= offset < U32 && ValidSchema(s) && def < |s|
    requires VerifyTable(buf, mem, base, offset, ttl, s, def).Ok?
    ensures base < base + offset && (base + offset) % 4 == 0 && base + offset + 4 <= |buf|
    ensures ReadTable(buf, mem, base + offset, s, def).Some?
    decreases |buf| - base, 1, 0
  {
    var td := CheckTable(buf, base, offset, ttl).td;
    VtableBaseIsSigned(td.table, U32At(buf, td.table));
    FieldsSound(buf, mem, td, s, def, |s[def]|);
  }

  lemma {:induction false} FieldsSound(buf: seq<byte>, mem: int, td: Td, s: Schema, def: nat, k: nat)
    requires SafeSize(buf) && PlacedFor(mem, s)
    requires ValidBuf(buf) && ValidTd(buf, td) && ValidSchema(s) && def < |s| && k <= |s[def]|
    requires VerifyFields(buf, mem, td, s, def, k).Ok?
    ensures ReadFields(buf, mem, td.table, td.vtable, s, def, k).Some?
    decreases |buf| - td.table, 3, k
  {
    if k > 0 {
      FieldsSound(buf, mem, td, s, def, k - 1);
      FieldSound(buf, mem, td, s, s[def][k - 1]);
    }
  }

  lemma ScalarSound(buf: seq<byte>, mem: int, td: Td, id: nat, required: bool, size: int, align: int)
    requires ValidTd(buf, td) && id <= ID_MAX && ValidAlign(align) && 0 <= size < U16
    requires VerifyScalar(buf, mem, td, id, required, size, align).Ok?
    ensures var o := Entry(buf, td.vtable, id);
      o.Some? && (o.value == 0 || (td.table + o.value + size <= |buf| && (mem + td.table + o.value) % align == 0))
  {
    WrapKeepsAlignment(mem + td.table + ReadVtEntry(buf, td, id), align);
  }

  lemma {:induction false} FieldSound(buf: seq<byte>, mem: int, td: Td, s: Schema, d: FieldDecl)
    requires SafeSize(buf) && PlacedFor(mem, s) && Suits(mem, d.typ)
    requires ValidBuf(buf) && ValidTd(buf, td) && ValidSchema(s) && ValidDecl(d, |s|)
    requires VerifyField(buf, mem, td, s, d).Ok?
    ensures ReadField(buf, mem, td.table, td.vtable, s, d).Some?
    decreases |buf| - td.table, 2, 0
  {
    if d.typ.Scalar? {
      ScalarSound(buf, mem, td, d.id, false, d.typ.size, d.typ.align);
    } else if d.typ.Union? {
      UnionSound(buf, mem, td, s, d);
    } else {
      var f := OffsetFieldAt(buf, td, d.id, d.required);
      if f.At? {
        ReferenceSound(buf, mem, f.pos, td.ttl, s, d.typ);
      }
    }
  }

  lemma {:induction false} ReferenceSound(buf: seq<byte>, mem: int, base: int, ttl: int, s: Schema, t: FieldType)
    requires SafeSize(buf) && PlacedFor(mem, s) && Suits(mem, t)
    requires ValidBuf(buf) && 0 <= base && base % 4 == 0 && base + 4 <= |buf| && ValidSchema(s)
    requires IsReference(t) && ValidDecl(FieldDecl(1, false, t), |s|)
    requires VerifyReference(buf, mem, base, ttl, s, t).Ok?
    ensures ReadReference(buf, mem, base, s, t).Some?
    decreases |buf| - base, 2, 0
  {
    var offset := U32At(buf, base);
    if t.Text? {
      StringSound(buf, base, offset);
    } else if t.Vector? {
      VectorSound(buf, mem, base, t.elemSize, t.align);
    } else if t.TextVector? {
      StringVectorSound(buf, mem, base, s);
    } else if t.Table? {
      TableSound(buf, mem, base, offset, ttl, s, t.def);
    } else {
      TableVectorSound(buf, mem, base, ttl, s, t.def);
    }
  }

  /** The elements of an accepted vector lie inside the buffer. They are aligned where they lie in
      memory exactly when the buffer's address is, unless there are none. */
  lemma VectorSound(buf: seq<byte>, mem: int, base: int, elemSize: nat, align: int)
    requires ValidBuf(buf) && 0 <= base && base % 4 == 0 && base + 4 <= |buf| && ValidAlign(align)
    requires VerifyVector(buf, base, U32At(buf, base), elemSize, align, CountMax(elemSize)).Ok?
    ensures Target(buf, base).Some?
    ensures var at := Target(buf, base).value;
      ReadVector(buf, mem, at, elemSize, align).Some? <==> U32At(buf, at) == 0 || mem % align == 0
    ensures mem % 4 == 0 && align <= 4 ==> mem % align == 0
  {
    hide U32At;
    VectorAccepted(buf, base, U32At(buf, base), elemSize, align);
    var at := base + U32At(buf, base);
    if U32At(buf, at) != 0 { SamePlacement(mem, at + 4, align); }
    if mem % 4 == 0 && align <= 4 { AlignedToLess(mem, align, 4) by { SmallPowers(); } }
  }

  lemma SamePlacement(mem: int, at: int, align: int)
    requires align > 0 && at % align == 0
    ensures (mem + at) % align == 0 <==> mem % align == 0
  {
    if mem % align == 0 { SumAligned(mem, at, align); }
    if (mem + at) % align == 0 { SumAligned(mem + at, at, align); }
  }

  lemma StringVectorSound(buf: seq<byte>, mem: int, base: int, s: Schema)
    requires ValidBuf(buf) && 0 <= base && base % 4 == 0 && base + 4 <= |buf| && ValidSchema(s)
    requires StringVectorVerdict(buf, base, U32At(buf, base)).Ok?
    ensures ReadListAt(buf, mem, base, s, None).Some?
  {
    hide VerifyVector, VerifyStringsFrom, ReadList, ValidSchema;
    var offset := U32At(buf, base);
    OffsetVectorFits(buf, base, offset);
    StringsSound(buf, mem, base + offset + 4, U32At(buf, base + offset), s);
  }

  lemma {:induction false} TableVectorSound(buf: seq<byte>, mem: int, base: int, ttl: int, s: Schema, def: nat)
    requires SafeSize(buf) && PlacedFor(mem, s)
    requires ValidBuf(buf) && 0 <= base && base % 4 == 0 && base + 4 <= |buf| && ValidSchema(s) && def < |s|
    requires TableVectorVerdict(buf, mem, base, U32At(buf, base), ttl, s, def).Ok?
    ensures ReadListAt(buf, mem, base, s, Some(def)).Some?
    decreases |buf| - base, 1, 0
  {
    hide VerifyVector, VerifyTablesFrom, ReadList, ValidSchema, PlacedFor;
    var offset := U32At(buf, base);
    OffsetVectorFits(buf, base, offset);
    TablesSound(buf, mem, base + offset + 4, U32At(buf, base + offset), ttl - 1, s, def);
  }

  lemma {:induction false} TablesSound(buf: seq<byte>, mem: int, base: int, n: nat, ttl: int, s: Schema, def: nat)
    requires SafeSize(buf) && PlacedFor(mem, s)
    requires ValidBuf(buf) && 0 <= base && base % 4 == 0 && base + 4 * n <= |buf| && ValidSchema(s) && def < |s|
    requires VerifyTablesFrom(buf, mem, base, n, ttl, s, def).Ok?
    ensures ReadList(buf, mem, base, n, s, Some(def)).Some?
    decreases |buf| - base, 2, n
  {
    hide ReadTable, VerifyTable;
    if n > 0 {
      TableSound(buf, mem, base, U32At(buf, base), ttl, s, def);
      TablesSound(buf, mem, base + 4, n - 1, ttl, s, def);
    }
  }

  lemma {:induction false} UnionSound(buf: seq<byte>, mem: int, td: Td, s: Schema, d: FieldDecl)
    requires SafeSize(buf) && PlacedFor(mem, s)
    requires ValidBuf(buf) && ValidTd(buf, td) && ValidSchema(s) && ValidDecl(d, |s|) && d.typ.Union?
    requires VerifyUnion(buf, mem, td, s, d).Ok?
    ensures ReadUnion(buf, mem, td.table, td.vtable, s, d).Some?
    decreases |buf| - td.table, 1, 0
  {
    hide ValidSchema, VerifyMember, ReadTarget;
    var vteType := ReadVtEntry(buf, td, d.id - 1);
    if vteType != 0 {
      ScalarSound(buf, mem, td, d.id - 1, false, 1, 1);
      var code: int := buf[td.table + vteType];
      if code != 0 {
        var f := OffsetFieldAt(buf, td, d.id, d.required);
        if f.At? && code in d.typ.members {
          MemberSound(buf, mem, f.pos, td.ttl, s, d.typ.members[code]);
        }
      }
    }
  }

  lemma {:induction false} MemberSound(buf: seq<byte>, mem: int, base: int, ttl: int, s: Schema, m: Member)
    requires SafeSize(buf) && PlacedFor(mem, s)
    requires ValidBuf(buf) && 0 <= base && base % 4 == 0 && base + 4 <= |buf| && ValidSchema(s)
    requires m.TableMember? ==> m.def < |s|
    requires VerifyMember(buf, mem, base, ttl, s, m).Ok?
    ensures ReadTarget(buf, mem, base, s, MemberDef(m)).Some?
    decreases |buf| - base, 2, 0
  {
    if m.TextMember? {
      StringSound(buf, base, U32At(buf, base));
    } else {
      TableSound(buf, mem, base, U32At(buf, base), ttl, s, m.def);
    }
  }

  /** Soundness of the verifier, for every byte string of a safe size, every schema and every place in
      memory that suits it. */
  lemma VerifiedBufferIsSafe(buf: seq<byte>, mem: int, fid: int, s: Schema, def: nat)
    requires ValidSchema(s) && def < |s| && VerifyTableAsRoot(buf, mem, fid, s, def).Ok?
    requires SafeSize(buf) && PlacedFor(mem, s)
    ensures ReadTarget(buf, mem, 0, s, Some(def)).Some?
  {
    TableSound(buf, mem, 0, U32At(buf, 0), MAX_LEVELS, s, def);
  }

  /** Whether every buffer of `n` bytes that is accepted at `mem` is safe to read. */
  ghost predicate Sound(n: nat, mem: int, s: Schema, def: nat)
    requires ValidSchema(s) && def < |s|
  {
    forall buf: seq<byte>, fid: int |
      |buf| == n && VerifyTableAsRoot(buf, mem, fid, s, def).Ok? :: ReadTarget(buf, mem, 0, s, Some(def)).Some?
  }

  lemma SoundWhere(n: nat, mem: int, s: Schema, def: nat)
    requires ValidSchema(s) && def < |s| && n < U32 / 2 + 4 && PlacedFor(mem, s)
    ensures Sound(n, mem, s, def)
  {
    hide ValidSchema, PlacedFor, VerifyTableAsRoot, ReadTarget;
    forall buf: seq<byte>, fid: int | |buf| == n && VerifyTableAsRoot(buf, mem, fid, s, def).Ok?
      ensures ReadTarget(buf, mem, 0, s, Some(def)).Some?
    {
      VerifiedBufferIsSafe(buf, mem, fid, s, def);
    }
  }

  // ---------------------------------------------------------- buffers that are misplaced

  /** A table with one vector. */
  function OneVector(align: nat): Schema
  {
    [[FieldDecl(0, false, Vector(align, align))]]
  }

  /** Root table at 8 with its vtable at 4; one vector element at 256, a multiple of every alignment. */
  function VectorBuffer(align: nat): (buf: seq<byte>)
    ensures |buf| == 256 + align
  {
    seq(256 + align, i =>
      if i == 0 || i == 6 then 8
      else if i == 4 then 6
      else if i == 8 then 4
      else if i == 12 then 240
      else if i == 252 then 1
      else 0)
  }

  lemma VectorWords(align: nat)
    ensures var buf := VectorBuffer(align);
      && U32At(buf, 0) == 8 && U16At(buf, 4) == 6 && U16At(buf, 6) == 8 && U16At(buf, 8) == 4
      && U32At(buf, 8) == 4 && U32At(buf, 12) == 240 && U32At(buf, 252) == 1
  {
  }

  /** It is accepted at every word address, and can be read at the multiples of the alignment only. */
  lemma VectorPlacement(mem: int, align: int)
    requires ValidAlign(align) && mem % 4 == 0
    ensures align > 0 && ValidSchema(OneVector(align))
    ensures VerifyTableAsRoot(VectorBuffer(align), mem, 0, OneVector(align), 0).Ok?
    ensures ReadTarget(VectorBuffer(align), mem, 0, OneVector(align), Some(0)).Some? <==> mem % align == 0
  {
    hide VectorBuffer, U32At, U16At, VerifyVector, ReadVector;
    var buf, s := VectorBuffer(align), OneVector(align);
    VectorWords(align);
    var td := Td(MAX_LEVELS - 1, 8, 4, 6, 8);
    assert CheckTable(buf, 0, 8, MAX_LEVELS) == Header(td);
    assert OffsetFieldAt(buf, td, 0, false) == At(12);
    assert VerifyVector(buf, 12, 240, align, align, CountMax(align)).Ok? by { OneElementFits(align); }
    assert VerifyField(buf, mem, td, s, s[0][0]).Ok?;
    assert VerifyFields(buf, mem, td, s, 0, 1).Ok?;
    VectorSound(buf, mem, 12, align, align);
    assert ReadField(buf, mem, 8, 4, s, s[0][0]).Some? <==> mem % align == 0;
    assert ReadFields(buf, mem, 8, 4, s, 0, 1).Some? <==> mem % align == 0;
    assert ReadTable(buf, mem, 8, s, 0).Some? <==> mem % align == 0;
  }

  lemma OneElementFits(align: int)
    requires ValidAlign(align)
    ensures VerifyVector(VectorBuffer(align), 12, 240, align, align, CountMax(align)).Ok?
  {
    hide VectorBuffer, U32At, U16At;
    SmallPowers();
    VectorWords(align);
    Pow2Divides(align, 256);
    assert 1 <= CountMax(align);
    assert 256 % Max(align, 4) == 0;
  }

  /** The places in memory for which the verifier can be relied on, exactly, for tables with a vector
      of this alignment. */
  lemma PlacementDecides(mem: int, align: int)
    requires ValidAlign(align) && mem % 4 == 0
    ensures align > 0 && ValidSchema(OneVector(align))
    ensures (forall n: nat | n < U32 / 2 + 4 :: Sound(n, mem, OneVector(align), 0)) <==> mem % align == 0
  {
    hide Sound, VerifyTableAsRoot, ReadTarget, VectorBuffer;
    VectorPlacement(mem, align);
    if mem % align == 0 {
      forall n: nat | n < U32 / 2 + 4 ensures Sound(n, mem, OneVector(align), 0) {
        SoundWhere(n, mem, OneVector(align), 0);
      }
    } else {
      NotSoundThere(mem, align);
    }
  }

  lemma NotSoundThere(mem: int, align: int)
    requires ValidAlign(align) && mem % 4 == 0 && align > 0 && mem % align != 0
    ensures ValidSchema(OneVector(align)) && !Sound(256 + align, mem, OneVector(align), 0)
  {
    hide VerifyTableAsRoot, ReadTarget, VectorBuffer;
    VectorPlacement(mem, align);
    var buf := VectorBuffer(align);
    assert |buf| == 256 + align && VerifyTableAsRoot(buf, mem, 0, OneVector(align), 0).Ok?;
  }

  // ----------------------------------------------------------- buffers that are too large

  /** A table with one field that leads to a table without fields. */
  const TWO_TABLES: Schema := [[FieldDecl(0, false, Table(1))], []]

  /** Root table at 8 with its vtable at 4; the other table at 2^31, with a vtable offset of 2^31. */
  function LargeBuffer(n: nat): (buf: seq<byte>)
    ensures |buf| == n
  {
    var top := U32 / 2;
    seq(n, i =>
      if i == 0 || i == 6 then 8
      else if i == 4 then 6
      else if i == 8 then 4
      else if i == 12 then 244
      else if i == 13 || i == 14 then 255
      else if i == 15 then 127
      else if i == top + 3 then 128
      else 0)
  }

  lemma LargeWords(n: nat)
    requires n >= U32 / 2 + 4
    ensures var buf := LargeBuffer(n);
      && U32At(buf, 0) == 8 && U16At(buf, 0) == 8 && U16At(buf, 2) == 0
      && U16At(buf, 4) == 6 && U16At(buf, 6) == 8 && U16At(buf, 8) == 4 && U32At(buf, 8) == 4
      && U32At(buf, 12) == U32 / 2 - 12 && U32At(buf, U32 / 2) == U32 / 2
  {
  }

  /** Such a buffer is accepted, and a reader of the second table leaves it. */
  lemma LargeIsUnsafe(n: nat, mem: int)
    requires U32 / 2 + 4 <= n <= UOFFSET_MAX - 8 && mem % 4 == 0
    ensures ValidSchema(TWO_TABLES)
    ensures VerifyTableAsRoot(LargeBuffer(n), mem, 0, TWO_TABLES, 0).Ok?
    ensures ReadTarget(LargeBuffer(n), mem, 0, TWO_TABLES, Some(0)) == None
  {
    hide LargeBuffer, U32At, U16At;
    var buf, s := LargeBuffer(n), TWO_TABLES;
    LargeWords(n);
    var td := Td(MAX_LEVELS - 1, 8, 4, 6, 8);
    assert CheckTable(buf, 0, 8, MAX_LEVELS) == Header(td);
    assert CheckTable(buf, 12, U32 / 2 - 12, td.ttl) == Header(Td(td.ttl - 1, U32 / 2, 0, 8, 0));
    assert VerifyTable(buf, mem, 12, U32 / 2 - 12, td.ttl, s, 1).Ok?;
    assert VerifyReference(buf, mem, 12, td.ttl, s, Table(1)).Ok?;
    assert OffsetFieldAt(buf, td, 0, false) == At(12);
    assert VerifyField(buf, mem, td, s, s[0][0]).Ok?;
    assert VerifyFields(buf, mem, td, s, 0, 1).Ok?;
    assert VtableOf(buf, U32 / 2) == None;
    assert ReadTarget(buf, mem, 12, s, Some(1)) == None;
    assert ReadField(buf, mem, 8, 4, s, s[0][0]) == None;
    assert ReadTable(buf, mem, 8, s, 0) == None;
  }

  /** The sizes for which the verifier can be relied on, exactly. */
  lemma SizeDecides(n: nat)
    requires n <= UOFFSET_MAX - 8
    ensures (forall mem, s: Schema, def: nat | ValidSchema(s) && def < |s| && PlacedFor(mem, s) ::
        Sound(n, mem, s, def)) <==>
      n < U32 / 2 + 4
  {
    hide ValidSchema, PlacedFor, Sound;
    if n < U32 / 2 + 4 {
      forall mem, s: Schema, def: nat | ValidSchema(s) && def < |s| && PlacedFor(mem, s) ensures Sound(n, mem, s, def) {
        SoundWhere(n, mem, s, def);
      }
    } else {
      LargeIsNotSound(n);
    }
  }

  lemma LargeIsNotSound(n: nat)
    requires U32 / 2 + 4 <= n <= UOFFSET_MAX - 8
    ensures ValidSchema(TWO_TABLES) && PlacedFor(0, TWO_TABLES) && !Sound(n, 0, TWO_TABLES, 0)
  {
    hide VerifyTableAsRoot, ReadTarget, LargeBuffer;
    LargeIsUnsafe(n, 0);
    var buf := LargeBuffer(n);
    assert |buf| == n && VerifyTableAsRoot(buf, 0, 0, TWO_TABLES, 0).Ok?;
  }
}
