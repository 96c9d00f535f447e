/** Table schemas, as the generated table verifiers and readers know them. */
module FlatSchema {
  import opened Wrappers
  import opened FlatBytes

  /** What a union type code stands for. */
  datatype Member = TableMember(def: nat) | TextMember

  datatype FieldType =
    | Scalar(size: nat, align: int)
    | Text
    | Vector(elemSize: nat, align: int)
    | TextVector
    | Table(def: nat)
    | TableVector(def: nat)
    | Union(members: map<int, Member>)

  datatype FieldDecl = FieldDecl(id: nat, required: bool, typ: FieldType)

  /** One list of fields for each table type; types refer to each other by index, so they may recurse. */
  type Schema = seq<seq<FieldDecl>>

  /** The largest id that can index a vtable. */
  const ID_MAX: int := 32764

  /** Alignments are powers of two; the builder's static padding covers 255 bytes. */
  predicate ValidAlign(a: int)
  {
    IsPow2(a) && a <= 256
  }

  predicate ValidDecl(d: FieldDecl, tables: nat)
  {
    d.id <= ID_MAX &&
    match d.typ
    case Scalar(size, align) => ValidAlign(align) && size < U16
    case Vector(elemSize, align) => ValidAlign(align) && elemSize < U32
    case Table(def) => def < tables
    case TableVector(def) => def < tables
    case Union(members) =>
      d.id >= 1 && forall t | t in members && members[t].TableMember? :: members[t].def < tables
    case _ => true
  }

  predicate ValidSchema(s: Schema)
  {
    forall t, i | 0 <= t < |s| && 0 <= i < |s[t]| :: ValidDecl(s[t][i], |s|)
  }

  /** A decoded field: absent, scalar or struct bytes, a referenced value, or a union's type code and value. */
  datatype FieldValue =
    | Missing
    | Bytes(data: seq<byte>)
    | Object(value: Value)
    | Variant(code: int, member: Option<Value>)

  /** A decoded object; a list holds strings or tables. */
  datatype Value =
    | TextValue(chars: seq<byte>)
    | VectorValue(count: int, data: seq<byte>)
    | ListValue(tables: bool, items: seq<Value>)
    | TableValue(fields: seq<FieldValue>)
}
