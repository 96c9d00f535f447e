/** What an accepted buffer has beyond being safe to read: its identifier, every field its schema
    requires, and fields that lie inside the stated size of their table. */
module FlatPresence {
  import opened FlatBytes
  import opened FlatSchema
  import opened Wrappers
  import opened FlatReader
  import opened FlatVerifier
  import opened FlatSoundness

  /** What the verdict on a buffer asks besides a root table that passes with 100 levels: a word
      address, room for an identifier, sizes that leave 8 bytes below 2^32 - 1, and the identifier that
      is expected. That is the only thing the verdict without one does not check. */
  lemma IdentifierChecked(buf: seq<byte>, mem: int, fid: int, s: Schema, def: nat)
    requires ValidSchema(s) && def < |s|
    ensures VerifyTableAsRoot(buf, mem, fid, s, def).Ok? <==>
      mem % 4 == 0 && 8 <= |buf| <= 0xffff_fff7 && (fid == 0 || U32At(buf, 4) == fid) &&
      VerifyTable(buf, mem, 0, U32At(buf, 0), 100, s, def).Ok?
    ensures VerifyTableAsRoot(buf, mem, fid, s, def).Ok? <==>
      VerifyTableAsRoot(buf, mem, 0, s, def).Ok? && (fid == 0 || U32At(buf, 4) == fid)
  {
  }

  // --------------------------------------------------------------- the table's size

  /** A present field of an accepted table lies inside the table's stated size. */
  lemma ScalarInTable(buf: seq<byte>, mem: int, td: Td, id: nat, required: bool, size: int, align: int)
    requires ValidTd(buf, td) && id <= ID_MAX && align > 0 && 0 <= size < U16
    requires VerifyScalar(buf, mem, td, id, required, size, align).Ok?
    ensures var o := Entry(buf, td.vtable, id);
      o.Some? && (if o.value == 0 then !required else o.value + size <= td.tsize)
  {
  }

  lemma OffsetInTable(buf: seq<byte>, td: Td, id: nat, required: bool)
    requires ValidTd(buf, td) && id <= ID_MAX && !OffsetFieldAt(buf, td, id, required).Bad?
    ensures var o := Entry(buf, td.vtable, id);
      o.Some? && (if o.value == 0 then !required else o.value + 4 <= td.tsize)
  {
  }

  /** The stated size is the second word of the vtable, and the table lies inside the buffer with it. */
  lemma StatedSize(buf: seq<byte>, base: int, offset: int, ttl: int)
    requires ValidBuf(buf) && 0 <= base && base + 4 <= |buf| && 0 <= offset < U32
    requires CheckTable(buf, base, offset, ttl).Header?
    ensures var td := CheckTable(buf, base, offset, ttl).td;
      td.vtable + 4 <= |buf| && td.tsize == U16At(buf, td.vtable + 2) && td.table + td.tsize <= |buf|
  {
  }

  // -------------------------------------------------------------------------- unions

  /** An accepted union has a type and a value together or neither, except that its type may be known
      to have no value, or to lack the value of an optional field. A required one has a type, and a
      value unless the type is 0. */
  lemma UnionRules(buf: seq<byte>, mem: int, td: Td, s: Schema, d: FieldDecl)
    requires ValidBuf(buf) && ValidTd(buf, td) && ValidSchema(s) && ValidDecl(d, |s|) && d.typ.Union?
    requires VerifyUnion(buf, mem, td, s, d).Ok?
    ensures var ct, o := Entry(buf, td.vtable, d.id - 1), Entry(buf, td.vtable, d.id);
      && ct.Some? && o.Some?
      && (if ct.value == 0 then o.value == 0 && !d.required
          else td.table + ct.value < |buf| && var code := buf[td.table + ct.value];
            && (code == 0 ==> o.value == 0)
            && (code != 0 && d.required ==> o.value != 0))
  {
    hide VerifyMember, ValidSchema;
    var vteType := ReadVtEntry(buf, td, d.id - 1);
    var vteTable := ReadVtEntry(buf, td, d.id);
  }

  // ------------------------------------------------------------------ required fields

  /** Every required field of a value is there, in it and in all tables below it. */
  predicate HasRequired(v: Value, s: Schema, def: nat)
    requires ValidSchema(s) && def < |s|
    decreases v, 0
  {
    && v.TableValue? && |v.fields| == |s[def]|
    && forall i | 0 <= i < |v.fields| :: FieldPresent(v.fields[i], s, s[def][i])
  }

  predicate FieldPresent(f: FieldValue, s: Schema, d: FieldDecl)
    requires ValidSchema(s) && ValidDecl(d, |s|)
    decreases f, 0
  {
    match f
    case Missing => d.typ.Scalar? || !d.required
    case Bytes(_) => true
    case Object(v) => ReferencePresent(v, s, d.typ)
    case Variant(code, member) =>
      d.typ.Union? && (member.Some? && code in d.typ.members && d.typ.members[code].TableMember? ==>
        HasRequired(member.value, s, d.typ.members[code].def))
  }

  predicate ReferencePresent(v: Value, s: Schema, t: FieldType)
    requires ValidSchema(s) && ValidDecl(FieldDecl(1, false, t), |s|)
    decreases v, 1
  {
    match t
    case Table(def) => HasRequired(v, s, def)
    case TableVector(def) => v.ListValue? && forall x | x in v.items :: HasRequired(x, s, def)
    case _ => true
  }

  lemma {:induction false} TablePresent(buf: seq<byte>, mem: int, base: int, offset: int, ttl: int, s: Schema, def: nat)
    requires SafeSize(buf) && ValidSchema(s) && def < |s|
    requires ValidBuf(buf) && 0 <= base && base + 4 <= |buf| && 0 <= offset < U32
    requires VerifyTable(buf, mem, base, offset, ttl, s, def).Ok? && ReadTable(buf, mem, base + offset, s, def).Some?
    ensures HasRequired(ReadTable(buf, mem, base + offset, s, def).value, s, def)
    decreases |buf| - base, 1, 0
  {
    hide ReadFields, VerifyFields, FieldPresent;
    var td := CheckTable(buf, base, offset, ttl).td;
    VtableBaseIsSigned(td.table, U32At(buf, td.table));
    FieldsPresent(buf, mem, td, s, def, |s[def]|);
  }

  lemma {:induction false} FieldsPresent(buf: seq<byte>, mem: int, td: Td, s: Schema, def: nat, k: nat)
    requires SafeSize(buf) && ValidBuf(buf) && ValidTd(buf, td) && ValidSchema(s) && def < |s| && k <= |s[def]|
    requires VerifyFields(buf, mem, td, s, def, k).Ok? && ReadFields(buf, mem, td.table, td.vtable, s, def, k).Some?
    ensures var fields := ReadFields(buf, mem, td.table, td.vtable, s, def, k).value;
      |fields| == k && forall i | 0 <= i < k :: FieldPresent(fields[i], s, s[def][i])
    decreases |buf| - td.table, 3, k
  {
    hide ReadField, VerifyField, FieldPresent;
    if k > 0 {
      FieldsPresent(buf, mem, td, s, def, k - 1);
      FieldIsPresent(buf, mem, td, s, s[def][k - 1]);
    }
  }

  lemma {:induction false} FieldIsPresent(buf: seq<byte>, mem: int, td: Td, s: Schema, d: FieldDecl)
    requires SafeSize(buf) && ValidBuf(buf) && ValidTd(buf, td) && ValidSchema(s) && ValidDecl(d, |s|)
    requires VerifyField(buf, mem, td, s, d).Ok? && ReadField(buf, mem, td.table, td.vtable, s, d).Some?
    ensures FieldPresent(ReadField(buf, mem, td.table, td.vtable, s, d).value, s, d)
    decreases |buf| - td.table, 2, 0
  {
    hide ValidSchema, ReadReference, VerifyReference, HasRequired;
    if d.typ.Union? {
      UnionPresent(buf, mem, td, s, d);
    } else if !d.typ.Scalar? {
      var f := OffsetFieldAt(buf, td, d.id, d.required);
      if f.At? { ReferenceIsPresent(buf, mem, f.pos, td.ttl, s, d.typ); }
    }
  }

  lemma {:induction false} UnionPresent(buf: seq<byte>, mem: int, td: Td, s: Schema, d: FieldDecl)
    requires SafeSize(buf) && ValidBuf(buf) && ValidTd(buf, td) && ValidSchema(s) && ValidDecl(d, |s|) && d.typ.Union?
    requires VerifyUnion(buf, mem, td, s, d).Ok? && ReadUnion(buf, mem, td.table, td.vtable, s, d).Some?
    ensures FieldPresent(ReadUnion(buf, mem, td.table, td.vtable, s, d).value, s, d)
    decreases |buf| - td.table, 1, 0
  {
    hide ValidSchema, ReadTable, VerifyTable, HasRequired;
    UnionRules(buf, mem, td, s, d);
    var f := ReadUnion(buf, mem, td.table, td.vtable, s, d).value;
    if f.Variant? && f.member.Some? && f.code in d.typ.members && d.typ.members[f.code].TableMember? {
      var at := OffsetFieldAt(buf, td, d.id, d.required);
      TablePresent(buf, mem, at.pos, U32At(buf, at.pos), td.ttl, s, d.typ.members[f.code].def);
    }
  }

  lemma {:induction false} ReferenceIsPresent(buf: seq<byte>, mem: int, base: int, ttl: int, s: Schema, t: FieldType)
    requires SafeSize(buf) && ValidBuf(buf) && 0 <= base && base + 4 <= |buf| && ValidSchema(s)
    requires IsReference(t) && ValidDecl(FieldDecl(1, false, t), |s|)
    requires VerifyReference(buf, mem, base, ttl, s, t).Ok? && ReadReference(buf, mem, base, s, t).Some?
    ensures ReferencePresent(ReadReference(buf, mem, base, s, t).value, s, t)
    decreases |buf| - base, 2, 0
  {
    hide ValidSchema, ReadTable, VerifyTable, ReadList, VerifyTablesFrom, HasRequired, VerifyVector;
    var offset := U32At(buf, base);
    if t.Table? {
      TablePresent(buf, mem, base, offset, ttl, s, t.def);
    } else if t.TableVector? {
      OffsetVectorFits(buf, base, offset);
      TablesPresent(buf, mem, base + offset + 4, U32At(buf, base + offset), ttl - 1, s, t.def);
    }
  }

  lemma {:induction false} TablesPresent(buf: seq<byte>, mem: int, base: int, n: nat, ttl: int, s: Schema, def: nat)
    requires SafeSize(buf) && ValidBuf(buf) && 0 <= base && base + 4 * n <= |buf| && ValidSchema(s) && def < |s|
    requires VerifyTablesFrom(buf, mem, base, n, ttl, s, def).Ok? && ReadList(buf, mem, base, n, s, Some(def)).Some?
    ensures forall x | x in ReadList(buf, mem, base, n, s, Some(def)).value :: HasRequired(x, s, def)
    decreases |buf| - base, 2, n
  {
    hide ReadTable, VerifyTable, HasRequired;
    if n > 0 {
      TablePresent(buf, mem, base, U32At(buf, base), ttl, s, def);
      TablesPresent(buf, mem, base + 4, n - 1, ttl, s, def);
    }
  }

  /** An accepted buffer reads as a value with all its required fields, at every level. */
  lemma VerifiedHasRequired(buf: seq<byte>, mem: int, fid: int, s: Schema, def: nat)
    requires ValidSchema(s) && def < |s| && VerifyTableAsRoot(buf, mem, fid, s, def).Ok?
    requires SafeSize(buf) && PlacedFor(mem, s)
    ensures ReadTarget(buf, mem, 0, s, Some(def)).Some?
    ensures HasRequired(ReadTarget(buf, mem, 0, s, Some(def)).value, s, def)
  {
    hide ReadTable, VerifyTable, HasRequired, ValidSchema;
    VerifiedBufferIsSafe(buf, mem, fid, s, def);
    TablePresent(buf, mem, 0, U32At(buf, 0), MAX_LEVELS, s, def);
  }
}
