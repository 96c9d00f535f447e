/** Buffers that are accepted although they are nested deeper than the verifier's levels: 50 tables,
    each inside a vector of the one before, bring the countdown to 0, which the vector's check lets
    through, and a chain of any number of tables follows below 0. */
module FlatNesting {
  import opened FlatBytes
  import opened FlatSchema
  import opened Wrappers
  import opened FlatReader
  import opened FlatVerifier
  import opened FlatSoundness
  import opened FlatAcceptance

  const VECTORS: nat := 50

  /** Where the `k`th table inside vectors lies, and the `j`th of the chain. */
  function NestAt(k: nat): nat { 16 + 16 * k }

  function ChainAt(j: nat): nat { 816 + 8 * j }

  /** Table type `k` holds a vector of type `k + 1`, the last type a table of its own type. */
  function DeepSchema(): (s: Schema)
    ensures |s| == VECTORS + 1
  {
    seq(VECTORS + 1, k requires 0 <= k <= VECTORS => [FieldDecl(0, false, if k < VECTORS then TableVector(k + 1)
      else Table(VECTORS))])
  }

  /** Word `i`: the root's offset, a vtable with one entry, one without, then the tables. Each has its
      vtable offset and the offset 4; in between comes the vector, with its count and offset. */
  function DeepWord(m: nat, i: nat): (w: int)
    requires i < 205 + 2 * m
  {
    if i == 0 then 16
    else if i == 1 then 6 + 8 * U16
    else if i == 2 then 4
    else if i == 3 then 4 + 4 * U16
    else if i < 204 then (if i % 4 == 0 then 4 * i - 4 else if i % 4 == 2 then 1 else 4)
    else if i == 204 + 2 * m then 4 * i - 12
    else if i % 2 == 0 then 4 * i - 4
    else 4
  }

  function ByteOf(w: int, k: nat): byte
    requires k < 4
  {
    if k == 0 then w % 256 else if k == 1 then w / 256 % 256 else if k == 2 then w / U16 % 256
      else w / (256 * U16) % 256
  }

  function DeepBuffer(m: nat): (buf: seq<byte>)
    ensures |buf| == 820 + 8 * m
  {
    seq(820 + 8 * m, i requires 0 <= i < 820 + 8 * m => ByteOf(DeepWord(m, i / 4), i % 4))
  }

  lemma WordOf(w: int)
    requires 0 <= w < U32
    ensures w == ByteOf(w, 0) as int + 256 * ByteOf(w, 1) as int +
      U16 * (ByteOf(w, 2) as int + 256 * ByteOf(w, 3) as int)
  {
    assert w / U16 == w / 256 / 256 && w / (256 * U16) == w / 256 / 256 / 256;
  }

  /** The words of the buffer, and the vtables among them. */
  lemma DeepWords(m: nat, i: nat)
    requires 820 + 8 * m < U32 && i < 205 + 2 * m
    ensures U32At(DeepBuffer(m), 4 * i) == DeepWord(m, i)
  {
    hide DeepWord;
    var buf, w := DeepBuffer(m), DeepWord(m, i);
    assert 0 <= w < U32 by { WordInRange(m, i); }
    WordOf(w);
    assert buf[4 * i] == ByteOf(w, 0) && buf[4 * i + 1] == ByteOf(w, 1);
    assert buf[4 * i + 2] == ByteOf(w, 2) && buf[4 * i + 3] == ByteOf(w, 3);
  }

  lemma WordInRange(m: nat, i: nat)
    requires 820 + 8 * m < U32 && i < 205 + 2 * m
    ensures 0 <= DeepWord(m, i) < U32
  {
  }

  lemma DeepVtables(m: nat)
    requires 820 + 8 * m < U32
    ensures var buf := DeepBuffer(m);
      U16At(buf, 4) == 6 && U16At(buf, 6) == 8 && U16At(buf, 8) == 4 && U16At(buf, 12) == 4 && U16At(buf, 14) == 4
  {
  }

  // --------------------------------------------------------------------- single tables

  /** What the verifier and a reader find in a table with one field. */
  lemma FieldFound(buf: seq<byte>, mem: int, base: int, offset: int, ttl: int, s: Schema, def: nat)
    requires ValidBuf(buf) && 0 <= base && base + 4 <= |buf| && 0 < offset < U32 && ttl != 1
    requires ValidSchema(s) && def < |s| && |s[def]| == 1 && s[def][0].id == 0 && !s[def][0].required
    requires IsReference(s[def][0].typ)
    requires var at := base + offset; at % 4 == 0 && at + 8 <= |buf| && U32At(buf, at) == at - 4 && at >= 16
    requires U16At(buf, 4) == 6 && U16At(buf, 6) == 8 && U16At(buf, 8) == 4
    ensures VerifyTable(buf, mem, base, offset, ttl, s, def)
         == VerifyReference(buf, mem, base + offset + 4, ttl - 1, s, s[def][0].typ)
    ensures base + offset < U32 / 2 && ReadReference(buf, mem, base + offset + 4, s, s[def][0].typ).Some? ==>
      ReadTable(buf, mem, base + offset, s, def)
        == Some(TableValue([Object(ReadReference(buf, mem, base + offset + 4, s, s[def][0].typ).value)]))
  {
    hide U32At, U16At, VerifyReference, ReadReference;
    var at, d := base + offset, s[def][0];
    var td := Td(ttl - 1, at, 4, 6, 8);
    assert s[def][0] == d;
    assert CheckTable(buf, base, offset, ttl) == Header(td);
    assert OffsetFieldAt(buf, td, 0, false) == At(at + 4);
    assert VerifyField(buf, mem, td, s, d) == VerifyReference(buf, mem, at + 4, ttl - 1, s, d.typ);
    assert VerifyFields(buf, mem, td, s, def, 0).Ok?;
    assert VerifyFields(buf, mem, td, s, def, 1) == VerifyField(buf, mem, td, s, d);
    if at < U32 / 2 {
      VtableBaseIsSigned(at, at - 4);
      assert VtableOf(buf, at) == Some(4);
      assert Entry(buf, 4, 0) == Some(4);
      var v := ReadReference(buf, mem, at + 4, s, d.typ);
      if v.Some? {
        assert ReadField(buf, mem, at, 4, s, d) == Some(Object(v.value));
        assert [] + [Object(v.value)] == [Object(v.value)];
        assert ReadFields(buf, mem, at, 4, s, def, 1) == Some([Object(v.value)]);
      }
    }
  }

  /** The same for the last table, which has no field. */
  lemma NoFieldFound(buf: seq<byte>, mem: int, base: int, offset: int, ttl: int, s: Schema, def: nat)
    requires ValidBuf(buf) && 0 <= base && base + 4 <= |buf| && 0 < offset < U32 && ttl != 1
    requires ValidSchema(s) && def < |s| && |s[def]| == 1 && s[def][0].id == 0 && !s[def][0].required
    requires IsReference(s[def][0].typ)
    requires var at := base + offset; at % 4 == 0 && at + 4 <= |buf| && U32At(buf, at) == at - 12 && at >= 16
    requires U16At(buf, 12) == 4 && U16At(buf, 14) == 4
    ensures VerifyTable(buf, mem, base, offset, ttl, s, def).Ok?
    ensures base + offset < U32 / 2 ==> ReadTable(buf, mem, base + offset, s, def) == Some(TableValue([Missing]))
  {
    hide U32At, U16At;
    var at, d := base + offset, s[def][0];
    var td := Td(ttl - 1, at, 12, 4, 4);
    assert s[def][0] == d;
    assert CheckTable(buf, base, offset, ttl) == Header(td);
    assert OffsetFieldAt(buf, td, 0, false) == Absent;
    assert VerifyField(buf, mem, td, s, d).Ok?;
    assert VerifyFields(buf, mem, td, s, def, 0).Ok?;
    assert VerifyFields(buf, mem, td, s, def, 1).Ok?;
    if at < U32 / 2 {
      VtableBaseIsSigned(at, at - 12);
      assert VtableOf(buf, at) == Some(12);
      assert Entry(buf, 12, 0) == Some(0);
      assert [] + [Missing] == [Missing];
      assert ReadField(buf, mem, at, 12, s, d) == Some(Missing);
      assert ReadFields(buf, mem, at, 12, s, def, 1) == Some([Missing]);
    }
  }

  /** A vector of one table, reached from the word at `base`. */
  lemma OneTableFound(buf: seq<byte>, mem: int, base: int, ttl: int, s: Schema, def: nat)
    requires ValidBuf(buf) && 0 <= base && base % 4 == 0 && base + 12 <= |buf| && ttl > 0 && ValidSchema(s) && def < |s|
    requires U32At(buf, base) == 4 && U32At(buf, base + 4) == 1
    requires VerifyTable(buf, mem, base + 8, U32At(buf, base + 8), ttl - 1, s, def).Ok?
    ensures VerifyReference(buf, mem, base, ttl, s, TableVector(def)).Ok?
    ensures ReadTarget(buf, mem, base + 8, s, Some(def)).Some? ==>
      ReadReference(buf, mem, base, s, TableVector(def))
        == Some(ListValue(true, [ReadTarget(buf, mem, base + 8, s, Some(def)).value]))
  {
    hide U32At, VerifyTable, ReadTarget, ValidSchema;
    assert VerifyVector(buf, base, 4, 4, 4, CountMax(4)).Ok?;
    assert VerifyTablesFrom(buf, mem, base + 12, 0, ttl - 1, s, def).Ok?;
    assert VerifyTablesFrom(buf, mem, base + 8, 1, ttl - 1, s, def).Ok?;
    assert TableVectorVerdict(buf, mem, base, 4, ttl, s, def).Ok?;
    var v := ReadTarget(buf, mem, base + 8, s, Some(def));
    if v.Some? {
      assert ReadList(buf, mem, base + 12, 0, s, Some(def)) == Some([]);
      assert [v.value] + [] == [v.value];
      assert ReadList(buf, mem, base + 8, 1, s, Some(def)) == Some([v.value]);
    }
  }

  // ------------------------------------------------------------------ the whole buffer

  lemma DeepIsValid(k: nat)
    requires k <= VECTORS
    ensures ValidSchema(DeepSchema())
    ensures DeepSchema()[k] == [FieldDecl(0, false, if k < VECTORS then TableVector(k + 1) else Table(VECTORS))]
  {
  }

  lemma ChainWords(m: nat, j: nat)
    requires 820 + 8 * m < U32 && j <= m
    ensures var buf, at := DeepBuffer(m), ChainAt(j);
      at % 4 == 0 && U32At(buf, at) == (if j == m then at - 12 else at - 4) && (j < m ==> U32At(buf, at + 4) == 4)
  {
    hide U32At, DeepBuffer;
    DeepWords(m, 204 + 2 * j);
    if j < m { DeepWords(m, 205 + 2 * j); }
  }

  /** The chain from its `j`th table on. */
  ghost predicate ChainOk(m: nat, mem: int, j: nat)
    requires 820 + 8 * m <= UOFFSET_MAX - 8 && j <= m && ValidSchema(DeepSchema())
  {
    && VerifyTable(DeepBuffer(m), mem, ChainAt(j) - 4, 4, 0 - j, DeepSchema(), VECTORS).Ok?
    && (ChainAt(m) < U32 / 2 ==>
        var v := ReadTable(DeepBuffer(m), mem, ChainAt(j), DeepSchema(), VECTORS);
        v.Some? && Levels(v.value) == m - j + 1)
  }

  lemma {:induction false} ChainFound(m: nat, mem: int, j: nat)
    requires 820 + 8 * m <= UOFFSET_MAX - 8 && j <= m && ValidSchema(DeepSchema())
    ensures ChainOk(m, mem, j)
    decreases m - j
  {
    hide ChainOk, DeepSchema, ValidSchema;
    if j == m {
      ChainEnds(m, mem);
    } else {
      ChainFound(m, mem, j + 1);
      ChainGoesOn(m, mem, j);
    }
  }

  lemma ChainEnds(m: nat, mem: int)
    requires 820 + 8 * m <= UOFFSET_MAX - 8 && ValidSchema(DeepSchema())
    ensures ChainOk(m, mem, m)
  {
    hide DeepBuffer, DeepSchema, VerifyTable, ReadTable, ValidSchema, Levels, U32At, U16At, DeepWord;
    DeepIsValid(VECTORS);
    DeepVtables(m);
    ChainWords(m, m);
    NoFieldFound(DeepBuffer(m), mem, ChainAt(m) - 4, 4, 0 - m, DeepSchema(), VECTORS);
    MissingLevels();
  }

  lemma ChainGoesOn(m: nat, mem: int, j: nat)
    requires 820 + 8 * m <= UOFFSET_MAX - 8 && j < m && ValidSchema(DeepSchema())
    requires ChainOk(m, mem, j + 1)
    ensures ChainOk(m, mem, j)
  {
    hide DeepBuffer, DeepSchema, VerifyTable, ReadTable, ValidSchema, Levels, DeepWord;
    StepFound(m, mem, j);
    if ChainAt(m) < U32 / 2 { OneField(ReadTable(DeepBuffer(m), mem, ChainAt(j + 1), DeepSchema(), VECTORS).value); }
  }

  /** One table of the chain, in terms of the next. */
  lemma StepFound(m: nat, mem: int, j: nat)
    requires 820 + 8 * m <= UOFFSET_MAX - 8 && j < m && ValidSchema(DeepSchema())
    ensures VerifyTable(DeepBuffer(m), mem, ChainAt(j) - 4, 4, 0 - j, DeepSchema(), VECTORS)
         == VerifyTable(DeepBuffer(m), mem, ChainAt(j + 1) - 4, 4, 0 - (j + 1), DeepSchema(), VECTORS)
    ensures var v := ReadTable(DeepBuffer(m), mem, ChainAt(j + 1), DeepSchema(), VECTORS);
      ChainAt(m) < U32 / 2 && v.Some? ==>
        ReadTable(DeepBuffer(m), mem, ChainAt(j), DeepSchema(), VECTORS) == Some(TableValue([Object(v.value)]))
  {
    hide DeepBuffer, DeepSchema, VerifyTable, ReadTable, ValidSchema, U32At, U16At, DeepWord;
    hide VerifyReference, ReadReference, ReadTarget;
    var buf, s, at := DeepBuffer(m), DeepSchema(), ChainAt(j);
    DeepIsValid(VECTORS);
    DeepVtables(m);
    ChainWords(m, j);
    FieldFound(buf, mem, at - 4, 4, 0 - j, s, VECTORS);
    TableReference(buf, mem, at + 4, 0 - j - 1, s, VECTORS);
  }

  /** The tables inside vectors from the `k`th on, reached by the word at `base`. */
  lemma {:induction false} NestFound(m: nat, mem: int, k: nat, base: nat, offset: nat)
    requires 820 + 8 * m <= UOFFSET_MAX - 8 && k <= VECTORS && ValidSchema(DeepSchema())
    requires base + offset == NestAt(k) && 0 < offset <= 16
    ensures VerifyTable(DeepBuffer(m), mem, base, offset, MAX_LEVELS - 2 * k, DeepSchema(), k).Ok?
    ensures ChainAt(m) < U32 / 2 ==> var v := ReadTable(DeepBuffer(m), mem, NestAt(k), DeepSchema(), k);
      v.Some? && Levels(v.value) == m + 1 + 2 * (VECTORS - k)
    decreases VECTORS - k
  {
    hide DeepBuffer, DeepSchema, VerifyTable, ReadTable, ValidSchema, Levels, U32At, U16At, VerifyReference,
      ReadReference, ReadTarget;
    var buf, s, at, ttl := DeepBuffer(m), DeepSchema(), NestAt(k), MAX_LEVELS - 2 * k;
    DeepIsValid(k);
    DeepVtables(m);
    if k == VECTORS {
      SamePlace(m, mem, base, offset);
      ChainFound(m, mem, 0);
    } else {
      NestWords(m, k);
      NestFound(m, mem, k + 1, at + 12, 4);
      OneTableFound(buf, mem, at + 4, ttl - 1, s, k + 1);
      FieldFound(buf, mem, base, offset, ttl, s, k);
      if ChainAt(m) < U32 / 2 {
        TableReference(buf, mem, at + 12, ttl - 2, s, k + 1);
        var v := ReadTable(buf, mem, at + 16, s, k + 1).value;
        OneItem(v);
        OneField(ListValue(true, [v]));
      }
    }
  }

  lemma NestWords(m: nat, k: nat)
    requires 820 + 8 * m < U32 && k < VECTORS
    ensures var buf, at := DeepBuffer(m), NestAt(k);
      U32At(buf, at) == at - 4 && U32At(buf, at + 4) == 4 && U32At(buf, at + 8) == 1 && U32At(buf, at + 12) == 4
  {
    hide U32At, DeepBuffer;
    DeepWords(m, 4 + 4 * k);
    DeepWords(m, 5 + 4 * k);
    DeepWords(m, 6 + 4 * k);
    DeepWords(m, 7 + 4 * k);
  }

  /** Reached by an offset of 4 the chain starts at the same place. */
  lemma SamePlace(m: nat, mem: int, base: nat, offset: nat)
    requires 820 + 8 * m <= UOFFSET_MAX - 8 && ValidSchema(DeepSchema()) && base + offset == ChainAt(0) &&
      0 < offset <= 16
    ensures VerifyTable(DeepBuffer(m), mem, base, offset, 0, DeepSchema(), VECTORS)
         == VerifyTable(DeepBuffer(m), mem, ChainAt(0) - 4, 4, 0, DeepSchema(), VECTORS)
  {
    hide DeepBuffer, DeepSchema, ValidSchema, U32At, U16At, VerifyFields;
  }

  /** The limit of 100 levels does not bound nesting: for every number of levels that fits, a buffer
      is accepted that is nested deeper, and reads back so. */
  lemma NestingIsNotBounded(m: nat, mem: int)
    requires 820 + 8 * m <= UOFFSET_MAX - 8 && mem % 4 == 0
    ensures ValidSchema(DeepSchema()) && VerifyTableAsRoot(DeepBuffer(m), mem, 0, DeepSchema(), 0).Ok?
    ensures SafeSize(DeepBuffer(m)) ==> var v := ReadTarget(DeepBuffer(m), mem, 0, DeepSchema(), Some(0));
      v.Some? && Levels(v.value) == MAX_LEVELS + 1 + m
  {
    hide DeepBuffer, DeepSchema, VerifyTable, ReadTable, ValidSchema, Levels, U32At;
    DeepIsValid(0);
    DeepWords(m, 0);
    NestFound(m, mem, 0, 0, 16);
  }

  /** Following a field of table type. */
  lemma TableReference(buf: seq<byte>, mem: int, base: int, ttl: int, s: Schema, def: nat)
    requires ValidBuf(buf) && 0 <= base && base % 4 == 0 && base + 8 <= |buf| && ValidSchema(s) && def < |s|
    requires U32At(buf, base) == 4
    ensures VerifyReference(buf, mem, base, ttl, s, Table(def)) == VerifyTable(buf, mem, base, 4, ttl, s, def)
    ensures ReadReference(buf, mem, base, s, Table(def)) == ReadTable(buf, mem, base + 4, s, def)
    ensures ReadTarget(buf, mem, base, s, Some(def)) == ReadTable(buf, mem, base + 4, s, def)
  {
    hide U32At, VerifyTable, ReadTable, ValidSchema;
  }

  lemma OneField(v: Value)
    ensures Levels(TableValue([Object(v)])) == 1 + Levels(v)
  {
    var fields := [Object(v)];
    assert fields[1..] == [];
    assert FieldLevels(fields[0]) == Levels(v);
    assert FieldsLevels(fields) == Levels(v);
  }

  lemma MissingLevels()
    ensures Levels(TableValue([Missing])) == 1
  {
    assert [Missing][1..] == [];
    assert FieldsLevels([Missing]) == 0;
  }

  lemma OneItem(v: Value)
    ensures Levels(ListValue(true, [v])) == 1 + Levels(v)
  {
    assert [v][1..] == [];
    assert ItemsLevels([v]) == Levels(v);
  }
}
