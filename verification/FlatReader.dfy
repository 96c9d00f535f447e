/** Following vtables and offsets the way a FlatBuffers reader does, without any check of its own.
    The functions give None exactly when such a reader would touch a byte outside the buffer,
    use an unaligned address, or follow an offset that does not go forward. */
module FlatReader {
  import opened FlatBytes
  import opened FlatSchema
  import opened Wrappers

  /** The signed offset stored at a table's head. */
  function Soffset(u: int): int
  {
    if u < U32 / 2 then u else u - U32
  }

  /** The vtable of the table at `pos`. */
  function VtableOf(buf: seq<byte>, pos: int): Option<int>
  {
    if !(0 <= pos && pos % 4 == 0 && pos + 4 <= |buf|) then None else
    var vt := pos - Soffset(U32At(buf, pos));
    if 0 <= vt && vt % 2 == 0 && vt + 2 <= |buf| then Some(vt) else None
  }

  /** The vtable entry of a field: 0 when the vtable is too short to hold it. */
  function Entry(buf: seq<byte>, vt: nat, id: nat): Option<int>
    requires vt + 2 <= |buf|
  {
    var at := 4 + 2 * id;
    if at >= U16At(buf, vt) then Some(0)
    else if vt + at + 2 <= |buf| then Some(U16At(buf, vt + at))
    else None
  }

  /** Where the offset stored at `pos` leads. */
  function Target(buf: seq<byte>, pos: int): (r: Option<int>)
    ensures r.Some? ==> 0 <= pos < r.value && r.value + 4 <= |buf| && r.value % 4 == 0
  {
    if !(0 <= pos && pos % 4 == 0 && pos + 4 <= |buf|) then None else
    var t := pos + U32At(buf, pos);
    if pos < t && t % 4 == 0 && t + 4 <= |buf| then Some(t) else None
  }

  function ReadText(buf: seq<byte>, pos: int): Option<Value>
    requires 0 <= pos && pos + 4 <= |buf|
  {
    var n := U32At(buf, pos);
    if pos + 4 + n < |buf| && buf[pos + 4 + n] == 0
    then Some(TextValue(buf[pos + 4..pos + 4 + n]))
    else None
  }

  /** Elements are used where they lie in memory, so their alignment counts the buffer's address. */
  function ReadVector(buf: seq<byte>, mem: int, pos: int, elemSize: nat, align: int): Option<Value>
    requires 0 <= pos && pos + 4 <= |buf| && align > 0
  {
    var n := U32At(buf, pos);
    if pos + 4 + n * elemSize <= |buf| && (n == 0 || (mem + pos + 4) % align == 0)
    then Some(VectorValue(n, buf[pos + 4..pos + 4 + n * elemSize]))
    else None
  }

  /** The values that `n` consecutive offsets at `pos` lead to. `def` is None for strings. */
  function ReadList(buf: seq<byte>, mem: int, pos: int, n: nat, s: Schema, def: Option<nat>): Option<seq<Value>>
    requires ValidSchema(s) && (def.Some? ==> def.value < |s|)
    decreases |buf| - pos, 2, n, 0
  {
    if n == 0 then Some([])
    else if pos + 4 > |buf| then None
    else
      var head := ReadTarget(buf, mem, pos, s, def);
      var rest := ReadList(buf, mem, pos + 4, n - 1, s, def);
      if head.Some? && rest.Some? then Some([head.value] + rest.value) else None
  }

  /** The string or table that the offset at `pos` leads to. */
  function ReadTarget(buf: seq<byte>, mem: int, pos: int, s: Schema, def: Option<nat>): Option<Value>
    requires ValidSchema(s) && (def.Some? ==> def.value < |s|)
    decreases |buf| - pos, 1, 0, 0
  {
    var t := Target(buf, pos);
    if t == None then None
    else if def == None then ReadText(buf, t.value)
    else ReadTable(buf, mem, t.value, s, def.value)
  }

  function ReadTable(buf: seq<byte>, mem: int, pos: int, s: Schema, def: nat): Option<Value>
    requires ValidSchema(s) && def < |s|
    decreases |buf| - pos, 5, 0, 0
  {
    var vt := VtableOf(buf, pos);
    if vt == None then None else
    var fields := ReadFields(buf, mem, pos, vt.value, s, def, |s[def]|);
    if fields == None then None else Some(TableValue(fields.value))
  }

  /** The first `k` declared fields of the table at `pos`. */
  function ReadFields(buf: seq<byte>, mem: int, pos: nat, vt: nat, s: Schema, def: nat, k: nat): Option<seq<FieldValue>>
    requires ValidSchema(s) && def < |s| && k <= |s[def]| && vt + 2 <= |buf| && pos <= |buf|
    decreases |buf| - pos, 4, k, 0
  {
    if k == 0 then Some([]) else
    var rest := ReadFields(buf, mem, pos, vt, s, def, k - 1);
    var last := ReadField(buf, mem, pos, vt, s, s[def][k - 1]);
    if rest.Some? && last.Some? then Some(rest.value + [last.value]) else None
  }

  function ReadField(buf: seq<byte>, mem: int, pos: nat, vt: nat, s: Schema, d: FieldDecl): Option<FieldValue>
    requires ValidSchema(s) && ValidDecl(d, |s|) && vt + 2 <= |buf| && pos <= |buf|
    decreases |buf| - pos, 3, 0, 0
  {
    var o := Entry(buf, vt, d.id);
    if d.typ.Union? then ReadUnion(buf, mem, pos, vt, s, d)
    else if o == None then None
    else if o.value == 0 then Some(Missing)
    else
      var at := pos + o.value;
      if d.typ.Scalar? then
        if at + d.typ.size <= |buf| && (mem + at) % d.typ.align == 0 then Some(Bytes(buf[at..at + d.typ.size]))
          else None
      else if at > |buf| then None
      else
        var v := ReadReference(buf, mem, at, s, d.typ);
        if v == None then None else Some(Object(v.value))
  }

  predicate IsReference(t: FieldType)
  {
    t.Text? || t.Vector? || t.TextVector? || t.Table? || t.TableVector?
  }

  /** What the offset stored in a field of type `t` leads to. */
  function ReadReference(buf: seq<byte>, mem: int, at: nat, s: Schema, t: FieldType): Option<Value>
    requires ValidSchema(s) && IsReference(t) && ValidDecl(FieldDecl(1, false, t), |s|) && at <= |buf|
    decreases |buf| - at, 2, 0, 0
  {
    if t.Text? then ReadTarget(buf, mem, at, s, None)
    else if t.Table? then ReadTarget(buf, mem, at, s, Some(t.def))
    else if t.Vector? then
      var p := Target(buf, at);
      if p == None then None else ReadVector(buf, mem, p.value, t.elemSize, t.align)
    else if t.TextVector? then ReadListAt(buf, mem, at, s, None)
    else ReadListAt(buf, mem, at, s, Some(t.def))
  }

  /** The offset vector that the offset at `pos` leads to. */
  function ReadListAt(buf: seq<byte>, mem: int, pos: nat, s: Schema, def: Option<nat>): Option<Value>
    requires ValidSchema(s) && (def.Some? ==> def.value < |s|)
    decreases |buf| - pos, 1, 0, 0
  {
    var t := Target(buf, pos);
    if t == None then None else
    var items := ReadList(buf, mem, t.value + 4, U32At(buf, t.value), s, def);
    if items == None then None else Some(ListValue(def.Some?, items.value))
  }

  /** A union is a type code under the preceding id and an offset under its own. */
  function ReadUnion(buf: seq<byte>, mem: int, pos: nat, vt: nat, s: Schema, d: FieldDecl): Option<FieldValue>
    requires ValidSchema(s) && ValidDecl(d, |s|) && d.typ.Union? && vt + 2 <= |buf| && pos <= |buf|
    decreases |buf| - pos, 1, 0, 0
  {
    var ct := Entry(buf, vt, d.id - 1);
    var o := Entry(buf, vt, d.id);
    if ct == None || o == None then None
    else if ct.value == 0 then Some(Missing)
    else if pos + ct.value >= |buf| then None
    else
      var code: int := buf[pos + ct.value];
      if code == 0 || o.value == 0 || code !in d.typ.members then Some(Variant(code, None)) else
      var v := if pos + o.value <= |buf| then ReadTarget(buf, mem, pos + o.value, s, MemberDef(d.typ.members[code]))
        else None;
      if v == None then None else Some(Variant(code, v))
  }

  function MemberDef(m: Member): Option<nat>
  {
    match m case TableMember(def) => Some(def) case TextMember => None
  }
}
