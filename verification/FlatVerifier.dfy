/** The buffer verifier: bounds, alignment and nesting checks over untrusted bytes, in the
    unsigned 32-bit arithmetic of the original, where sums wrap. */
module FlatVerifier {
  import opened FlatBytes
  import opened FlatSchema
  import opened Wrappers
  import opened FlatReader

  datatype Error =
    | BufferHeaderTooSmall
    | IdentifierMismatch
    | MaxNestingLevelReached
    | RequiredFieldMissing
    | BufferHeaderNotAligned
    | BufferSizeTooLarge
    | StringNotZeroTerminated
    | StringOutOfRange
    | TableFieldNotAligned
    | TableFieldOutOfRange
    | TableHeaderOutOfRangeOrUnaligned
    | VectorHeaderOutOfRangeOrUnaligned
    | StringHeaderOutOfRangeOrUnaligned
    | TableSizeOutOfRange
    | TypeFieldAbsentFromRequiredUnionField
    | UnionCannotHaveATableWithoutAType
    | UnionTypeNoneCannotHaveAValue
    | VectorCountExceedsRepresentableVectorSize
    | VectorOutOfRange
    | VtableHeaderOutOfRange
    | VtableHeaderTooSmall
    | VtableOffsetOutOfRangeOrUnaligned
    | VtableSizeOutOfRangeOrUnaligned

  datatype Verdict = Ok | Err(error: Error)

  const MAX_LEVELS: int := 100
  const UOFFSET_MAX: int := U32 - 1

  /** The descriptor handed to a generated table verifier. */
  datatype Td = Td(ttl: int, table: int, vtable: int, vsize: int, tsize: int)

  /** What the header checks establish before a table verifier runs. */
  predicate ValidTd(buf: seq<byte>, td: Td)
  {
    && 0 <= td.table && td.table % 4 == 0 && td.table + 4 <= |buf| && td.table + td.tsize <= |buf|
    && 0 <= td.vtable && td.vtable % 2 == 0 && td.vtable + td.vsize <= |buf|
    && td.vsize % 2 == 0 && 4 <= td.vsize < U16 && 0 <= td.tsize < U16
    && td.vtable == (td.table - U32At(buf, td.table)) % U32
    && td.vsize == U16At(buf, td.vtable)
  }

  /** The sizes that pass the buffer header's check. */
  predicate ValidBuf(buf: seq<byte>)
  {
    |buf| <= UOFFSET_MAX - 8
  }

  predicate CheckHeader(end: int, base: int, offset: int)
  {
    var k := (base + offset) % U32;
    k > base && k + 4 <= end && k % 4 == 0
  }

  lemma HeaderDoesNotWrap(end: int, base: int, offset: int)
    requires 0 <= base < U32 && 0 <= offset < U32 && CheckHeader(end, base, offset)
    ensures (base + offset) % U32 == base + offset && offset > 0
  {
  }

  function ReadVtEntry(buf: seq<byte>, td: Td, id: nat): (v: int)
    requires ValidTd(buf, td) && id <= ID_MAX
    ensures Entry(buf, td.vtable, id) == Some(v) && 0 <= v < U16
  {
    var vo := (id + 2) * 2 % U16;
    if vo >= td.vsize then 0 else U16At(buf, td.vtable + vo)
  }

  function VerifyScalar(buf: seq<byte>, mem: int, td: Td, id: nat, required: bool, size: int, align: int): (r: Verdict)
    requires ValidTd(buf, td) && id <= ID_MAX && align > 0
    ensures r.Ok? && 0 < size < U16 && ReadVtEntry(buf, td, id) != 0 ==>
      td.table + ReadVtEntry(buf, td, id) + size <= |buf|
  {
    var vte := ReadVtEntry(buf, td, id);
    if vte == 0 then (if required then Err(RequiredFieldMissing) else Ok)
    else if (vte + size) % U32 > td.tsize then Err(TableFieldOutOfRange)
    else if (vte + td.table + mem) % U32 % align != 0 then Err(TableFieldNotAligned)
    else Ok
  }

  datatype OffsetField = Absent | At(pos: int) | Bad(error: Error)

  function OffsetFieldAt(buf: seq<byte>, td: Td, id: nat, required: bool): (r: OffsetField)
    requires ValidTd(buf, td) && id <= ID_MAX
    ensures r.At? ==> td.table < r.pos && r.pos + 4 <= |buf| && r.pos % 4 == 0
    ensures r.At? ==> Entry(buf, td.vtable, id) == Some(r.pos - td.table)
    ensures r.Absent? ==> Entry(buf, td.vtable, id) == Some(0) && !required
  {
    var vte := ReadVtEntry(buf, td, id);
    if vte == 0 then (if required then Bad(RequiredFieldMissing) else Absent)
    else if vte + 4 > td.tsize then Bad(TableFieldOutOfRange)
    else if (vte + td.table) % 4 != 0 then Bad(TableFieldNotAligned)
    else At(vte + td.table)
  }

  function VerifyString(buf: seq<byte>, base: int, offset: int): Verdict
    requires ValidBuf(buf) && 0 <= base < U32 && 0 <= offset < U32
  {
    if !CheckHeader(|buf|, base, offset) then Err(StringHeaderOutOfRangeOrUnaligned) else
    var at := (base + offset) % U32;
    var n := U32At(buf, at);
    if !(|buf| - (at + 4) > n) then Err(StringOutOfRange)
    else if buf[at + 4 + n] != 0 then Err(StringNotZeroTerminated)
    else Ok
  }

  function CountMax(elemSize: nat): int
  {
    UOFFSET_MAX / (if elemSize == 0 then 1 else elemSize)
  }

  function VerifyVector(buf: seq<byte>, base: int, offset: int, elemSize: nat, align: int, maxCount: int): Verdict
    requires ValidBuf(buf) && 0 <= base < U32 && 0 <= offset < U32 && align > 0
  {
    if !CheckHeader(|buf|, base, offset) then Err(VectorHeaderOutOfRangeOrUnaligned) else
    var at := (base + offset) % U32;
    var n := U32At(buf, at);
    var elemAlign := if n == 0 then 4 else align;
    if (at + 4) % Max(elemAlign, 4) != 0 then Err(VectorHeaderOutOfRangeOrUnaligned)
    else if n > maxCount then Err(VectorCountExceedsRepresentableVectorSize)
    else if |buf| - (at + 4) < n * elemSize % U32 then Err(VectorOutOfRange)
    else Ok
  }

  lemma CountFits(n: int, elemSize: nat)
    requires 0 <= n <= CountMax(elemSize)
    ensures 0 <= n * elemSize < U32
  {
  }

  /** What an accepted vector guarantees. */
  lemma VectorAccepted(buf: seq<byte>, base: int, offset: int, elemSize: nat, align: int)
    requires ValidBuf(buf) && 0 <= base < U32 && 0 <= offset < U32 && ValidAlign(align)
    requires VerifyVector(buf, base, offset, elemSize, align, CountMax(elemSize)).Ok?
    ensures var at := base + offset;
      at > base && at % 4 == 0 && at + 4 <= |buf| &&
      0 <= U32At(buf, at) * elemSize && at + 4 + U32At(buf, at) * elemSize <= |buf| &&
      (U32At(buf, at) == 0 || (at + 4) % align == 0)
  {
    HeaderDoesNotWrap(|buf|, base, offset);
    CountFits(U32At(buf, base + offset), elemSize);
    if U32At(buf, base + offset) != 0 && align < 4 {
      SmallPowers();
      AlignedToLess(base + offset + 4, align, 4);
    }
  }

  // ------------------------------------------------------------ string vectors

  /** The checks of a string vector's elements, from the offset at `base` on. */
  function VerifyStringsFrom(buf: seq<byte>, base: int, n: nat): Verdict
    requires ValidBuf(buf) && 0 <= base && base + 4 * n <= |buf|
    decreases n
  {
    if n == 0 then Ok else
    var r := VerifyString(buf, base, U32At(buf, base));
    if r.Ok? then VerifyStringsFrom(buf, base + 4, n - 1) else r
  }

  method VerifyStringVector(buf: seq<byte>, base0: int, offset: int) returns (r: Verdict)
    requires ValidBuf(buf) && 0 <= base0 < U32 && 0 <= offset < U32
    ensures r == StringVectorVerdict(buf, base0, offset)
  {
    r := VerifyVector(buf, base0, offset, 4, 4, CountMax(4));
    if r != Ok { return; }
    VectorAccepted(buf, base0, offset, 4, 4) by { SmallPowers(); }
    var base := base0 + offset;
    var n := U32At(buf, base);
    base := base + 4;
    var i := 0;
    while i < n
      invariant 0 <= i <= n && 0 <= base && base + 4 * (n - i) <= |buf| && r == Ok
      invariant StringVectorVerdict(buf, base0, offset) == VerifyStringsFrom(buf, base, n - i)
    {
      r := VerifyString(buf, base, U32At(buf, base));
      if r != Ok { return; }
      i, base := i + 1, base + 4;
    }
  }

  function StringVectorVerdict(buf: seq<byte>, base: int, offset: int): Verdict
    requires ValidBuf(buf) && 0 <= base < U32 && 0 <= offset < U32
  {
    var r := VerifyVector(buf, base, offset, 4, 4, CountMax(4));
    if !r.Ok? then r else
    OffsetVectorFits(buf, base, offset);
    VerifyStringsFrom(buf, base + offset + 4, U32At(buf, base + offset))
  }

  lemma OffsetVectorFits(buf: seq<byte>, base: int, offset: int)
    requires ValidBuf(buf) && 0 <= base < U32 && 0 <= offset < U32
    requires VerifyVector(buf, base, offset, 4, 4, CountMax(4)).Ok?
    ensures var at := base + offset;
      base < at && at % 4 == 0 && at + 4 <= |buf| && at + 4 + 4 * U32At(buf, at) <= |buf|
  {
  }

  // -------------------------------------------------------------------- tables

  datatype TableHeader = Header(td: Td) | BadHeader(error: Error)

  /** The wrapped difference is the signed one when it stays below 2^31. */
  lemma VtableBaseIsSigned(table: int, u: int)
    requires 0 <= table < U32 / 2 && 0 <= u < U32 && (table - u) % U32 < U32 / 2
    ensures (table - u) % U32 == table - Soffset(u)
  {
  }

  /** Whatever offset is stored, that holds exactly for tables below 2^31: further up an offset that
      passes may lead a reader behind the buffer. */
  lemma VtableBaseExact(table: int)
    requires 0 <= table < U32
    ensures (forall u: int | 0 <= u < U32 && (table - u) % U32 < U32 / 2 :: (table - u) % U32 == table - Soffset(u))
       <==> table < U32 / 2
  {
    if table < U32 / 2 {
      forall u: int | 0 <= u < U32 && (table - u) % U32 < U32 / 2 ensures (table - u) % U32 == table - Soffset(u) {
        VtableBaseIsSigned(table, u);
      }
    } else {
      assert Soffset(U32 / 2) == -U32 / 2 && (table - U32 / 2) % U32 == table - U32 / 2;
    }
  }

  /** The checks of a table's header and vtable header, before any field. */
  function CheckTable(buf: seq<byte>, base: int, offset: int, ttl: int): (r: TableHeader)
    requires ValidBuf(buf) && 0 <= base && base + 4 <= |buf| && 0 <= offset < U32
    ensures r.Header? ==> ValidTd(buf, r.td) && base < r.td.table == base + offset && r.td.ttl == ttl - 1
  {
    if ttl - 1 == 0 then BadHeader(MaxNestingLevelReached)
    else if !CheckHeader(|buf|, base, offset) then BadHeader(TableHeaderOutOfRangeOrUnaligned)
    else
      var table := (base + offset) % U32;
      var vbase := (table - U32At(buf, table)) % U32;
      if !(vbase < U32 / 2 && vbase % 2 == 0) then BadHeader(VtableOffsetOutOfRangeOrUnaligned)
      else if vbase + 2 > |buf| then BadHeader(VtableHeaderOutOfRange)
      else
        var vsize := U16At(buf, vbase);
        if !(vbase + vsize <= |buf| && vsize % 2 == 0) then BadHeader(VtableSizeOutOfRangeOrUnaligned)
        else if vsize < 4 then BadHeader(VtableHeaderTooSmall)
        else
          var tsize := U16At(buf, vbase + 2);
          if |buf| - table < tsize then BadHeader(TableSizeOutOfRange)
          else
            HeaderDoesNotWrap(|buf|, base, offset);
            Header(Td(ttl - 1, table, vbase, vsize, tsize))
  }

  /** Nothing but forward offsets is followed, so the distance to the end of the buffer decreases. */
  function VerifyTable(buf: seq<byte>, mem: int, base: int, offset: int, ttl: int, s: Schema, def: nat): Verdict
    requires ValidBuf(buf) && 0 <= base && base + 4 <= |buf| && 0 <= offset < U32 && ValidSchema(s) && def < |s|
    decreases |buf| - base, 1, 0, 0
  {
    match CheckTable(buf, base, offset, ttl)
    case BadHeader(e) => Err(e)
    case Header(td) => VerifyFields(buf, mem, td, s, def, |s[def]|)
  }

  /** A generated table verifier: one call for each of the first `k` declared fields, in order. */
  function VerifyFields(buf: seq<byte>, mem: int, td: Td, s: Schema, def: nat, k: nat): Verdict
    requires ValidBuf(buf) && ValidTd(buf, td) && ValidSchema(s) && def < |s| && k <= |s[def]|
    decreases |buf| - td.table, 3, k, 0
  {
    if k == 0 then Ok else
    var r := VerifyFields(buf, mem, td, s, def, k - 1);
    if r.Ok? then VerifyField(buf, mem, td, s, s[def][k - 1]) else r
  }

  function VerifyField(buf: seq<byte>, mem: int, td: Td, s: Schema, d: FieldDecl): Verdict
    requires ValidBuf(buf) && ValidTd(buf, td) && ValidSchema(s) && ValidDecl(d, |s|)
    decreases |buf| - td.table, 2, 0, 0
  {
    if d.typ.Scalar? then VerifyScalar(buf, mem, td, d.id, false, d.typ.size, d.typ.align)
    else if d.typ.Union? then VerifyUnion(buf, mem, td, s, d)
    else
      match OffsetFieldAt(buf, td, d.id, d.required)
      case Absent => Ok
      case Bad(e) => Err(e)
      case At(base) => VerifyReference(buf, mem, base, td.ttl, s, d.typ)
  }

  function VerifyReference(buf: seq<byte>, mem: int, base: int, ttl: int, s: Schema, t: FieldType): Verdict
    requires ValidBuf(buf) && 0 <= base && base + 4 <= |buf| && ValidSchema(s)
    requires IsReference(t) && ValidDecl(FieldDecl(1, false, t), |s|)
    decreases |buf| - base, 2, 0, 0
  {
    var offset := U32At(buf, base);
    if t.Text? then VerifyString(buf, base, offset)
    else if t.Vector? then VerifyVector(buf, base, offset, t.elemSize, t.align, CountMax(t.elemSize))
    else if t.TextVector? then StringVectorVerdict(buf, base, offset)
    else if t.Table? then VerifyTable(buf, mem, base, offset, ttl, s, t.def)
    else TableVectorVerdict(buf, mem, base, offset, ttl, s, t.def)
  }

  function VerifyUnion(buf: seq<byte>, mem: int, td: Td, s: Schema, d: FieldDecl): Verdict
    requires ValidBuf(buf) && ValidTd(buf, td) && ValidSchema(s) && ValidDecl(d, |s|) && d.typ.Union?
    decreases |buf| - td.table, 1, 0, 0
  {
    var vteType := ReadVtEntry(buf, td, d.id - 1);
    var vteTable := ReadVtEntry(buf, td, d.id);
    if vteType == 0 then
      if vteTable != 0 then Err(UnionCannotHaveATableWithoutAType)
      else if d.required then Err(TypeFieldAbsentFromRequiredUnionField)
      else Ok
    else
      var r := VerifyScalar(buf, mem, td, d.id - 1, false, 1, 1);
      if !r.Ok? then r else
      var code: int := buf[td.table + vteType];
      if code == 0 then (if vteTable == 0 then Ok else Err(UnionTypeNoneCannotHaveAValue)) else
      match OffsetFieldAt(buf, td, d.id, d.required)
      case Absent => Ok
      case Bad(e) => Err(e)
      case At(base) =>
        if code !in d.typ.members then Ok else VerifyMember(buf, mem, base, td.ttl, s, d.typ.members[code])
  }

  /** A generated union verifier's call for a known type code. */
  function VerifyMember(buf: seq<byte>, mem: int, base: int, ttl: int, s: Schema, m: Member): Verdict
    requires ValidBuf(buf) && 0 <= base && base + 4 <= |buf| && ValidSchema(s) && (m.TableMember? ==> m.def < |s|)
    decreases |buf| - base, 2, 0, 0
  {
    match m
    case TextMember => VerifyString(buf, base, U32At(buf, base))
    case TableMember(def) => VerifyTable(buf, mem, base, U32At(buf, base), ttl, s, def)
  }

  function TableVectorVerdict(buf: seq<byte>, mem: int, base: int, offset: int, ttl: int, s: Schema, def: nat): Verdict
    requires ValidBuf(buf) && 0 <= base && base + 4 <= |buf| && 0 <= offset < U32 && ValidSchema(s) && def < |s|
    decreases |buf| - base, 1, 0, 0
  {
    if ttl <= 0 then Err(MaxNestingLevelReached) else
    var r := VerifyVector(buf, base, offset, 4, 4, CountMax(4));
    if !r.Ok? then r else
    OffsetVectorFits(buf, base, offset);
    VerifyTablesFrom(buf, mem, base + offset + 4, U32At(buf, base + offset), ttl - 1, s, def)
  }

  /** The checks of a table vector's elements, from the offset at `base` on. */
  function VerifyTablesFrom(buf: seq<byte>, mem: int, base: int, n: nat, ttl: int, s: Schema, def: nat): Verdict
    requires ValidBuf(buf) && 0 <= base && base + 4 * n <= |buf| && ValidSchema(s) && def < |s|
    decreases |buf| - base, 2, n, 0
  {
    if n == 0 then Ok else
    var r := VerifyTable(buf, mem, base, U32At(buf, base), ttl, s, def);
    if r.Ok? then VerifyTablesFrom(buf, mem, base + 4, n - 1, ttl, s, def) else r
  }

  method VerifyTableVector(buf: seq<byte>, mem: int, base0: int, offset: int, ttl0: int, s: Schema, def: nat)
    returns (r: Verdict)
    requires ValidBuf(buf) && 0 <= base0 && base0 + 4 <= |buf| && 0 <= offset < U32 && ValidSchema(s) && def < |s|
    ensures r == TableVectorVerdict(buf, mem, base0, offset, ttl0, s, def)
  {
    var ttl := ttl0 - 1;
    if ttl0 <= 0 { return Err(MaxNestingLevelReached); }
    r := VerifyVector(buf, base0, offset, 4, 4, CountMax(4));
    if r != Ok { return; }
    OffsetVectorFits(buf, base0, offset);
    var base := base0 + offset;
    var n := U32At(buf, base);
    base := base + 4;
    var i := 0;
    while i < n
      invariant 0 <= i <= n && 0 <= base && base + 4 * (n - i) <= |buf| && r == Ok
      invariant TableVectorVerdict(buf, mem, base0, offset, ttl0, s, def)
             == VerifyTablesFrom(buf, mem, base, n - i, ttl, s, def)
    {
      r := VerifyTable(buf, mem, base, U32At(buf, base), ttl, s, def);
      if r != Ok { return; }
      i, base := i + 1, base + 4;
    }
  }

  // ---------------------------------------------------------------------- root

  /** `fid` is the expected identifier as a 32-bit value, 0 for no check. */
  function VerifyBufferHeader(buf: seq<byte>, mem: int, fid: int): Verdict
  {
    if mem % 4 != 0 then Err(BufferHeaderNotAligned)
    else if |buf| > UOFFSET_MAX - 8 then Err(BufferSizeTooLarge)
    else if |buf| < 8 then Err(BufferHeaderTooSmall)
    else if fid != 0 && U32At(buf, 4) != fid then Err(IdentifierMismatch)
    else Ok
  }

  function VerifyTableAsRoot(buf: seq<byte>, mem: int, fid: int, s: Schema, def: nat): Verdict
    requires ValidSchema(s) && def < |s|
  {
    var r := VerifyBufferHeader(buf, mem, fid);
    if !r.Ok? then r else VerifyTable(buf, mem, 0, U32At(buf, 0), MAX_LEVELS, s, def)
  }
}
