/**
 * The read-only view of a protocol-buffer schema that the pruner walks: the
 * descriptor pool of message and enum types, each field tagged by its kind.
 * Descriptors are supplied by the protobuf runtime and are always linked and
 * consistent; `ValidPool` states the facts of that consistency the pruner uses.
 */
module Descriptors {
  import opened Wrappers

  /** The scalar members of FieldDescriptor.Type (every kind but GROUP, MESSAGE and ENUM). */
  datatype ScalarType =
    | Double | Float | Int64 | UInt64 | Int32 | Fixed64 | Fixed32 | Bool
    | String | Bytes | UInt32 | SFixed32 | SFixed64 | SInt32 | SInt64

  /** `Type.name().toLowerCase()`: the type word written into a field definition. */
  function ScalarName(t: ScalarType): string
  {
    match t
    case Double => "double"
    case Float => "float"
    case Int64 => "int64"
    case UInt64 => "uint64"
    case Int32 => "int32"
    case Fixed64 => "fixed64"
    case Fixed32 => "fixed32"
    case Bool => "bool"
    case String => "string"
    case Bytes => "bytes"
    case UInt32 => "uint32"
    case SFixed32 => "sfixed32"
    case SFixed64 => "sfixed64"
    case SInt32 => "sint32"
    case SInt64 => "sint64"
  }

  /** Reads a scalar type word back; the inverse of `ScalarName`. */
  function ScalarByName(s: string): (r: Option<ScalarType>)
    ensures r.Some? ==> ScalarName(r.value) == s
  {
    if s == "double" then Some(Double)
    else if s == "float" then Some(Float)
    else if s == "int64" then Some(Int64)
    else if s == "uint64" then Some(UInt64)
    else if s == "int32" then Some(Int32)
    else if s == "fixed64" then Some(Fixed64)
    else if s == "fixed32" then Some(Fixed32)
    else if s == "bool" then Some(Bool)
    else if s == "string" then Some(String)
    else if s == "bytes" then Some(Bytes)
    else if s == "uint32" then Some(UInt32)
    else if s == "sfixed32" then Some(SFixed32)
    else if s == "sfixed64" then Some(SFixed64)
    else if s == "sint32" then Some(SInt32)
    else if s == "sint64" then Some(SInt64)
    else None
  }

  lemma ScalarNameRoundTrip(t: ScalarType)
    ensures ScalarByName(ScalarName(t)) == Some(t)
  {
    match t
    case Double =>
    case Float =>
    case Int64 =>
    case UInt64 =>
    case Int32 =>
    case Fixed64 =>
    case Fixed32 =>
    case Bool =>
    case String =>
    case Bytes =>
    case UInt32 =>
    case SFixed32 =>
    case SFixed64 =>
    case SInt32 =>
    case SInt64 =>
  }

  /** True of the type words a definition builder reads as a built-in scalar type. */
  predicate IsScalarName(s: string)
  {
    ScalarByName(s).Some?
  }

  /** FieldDescriptorProto.Label. */
  datatype Label = LabelOptional | LabelRequired | LabelRepeated

  /**
   * The kind of a field: a scalar with its declared default (kept as the text the
   * runtime renders it to), or a reference by name to an enum type, a message
   * type, or the synthetic entry type of a map field.
   */
  datatype FieldKind =
    | Scalar(scalar: ScalarType, defaultText: string)
    | EnumField(typeName: string)
    | MessageField(typeName: string)
    | MapField(typeName: string)

  datatype FieldDesc = FieldDesc(name: string, number: int, fieldLabel: Label, kind: FieldKind)

  datatype MessageDesc = MessageDesc(name: string, fields: seq<FieldDesc>, mapEntry: bool)

  datatype EnumValue = EnumValue(name: string, number: int)

  datatype EnumDesc = EnumDesc(name: string, values: seq<EnumValue>)

  /** Every message and enum type reachable from the descriptor, keyed by type name. */
  datatype Pool = Pool(messages: map<string, MessageDesc>, enums: map<string, EnumDesc>)

  /** `Descriptor.findFieldByName`: the field of that name, or none (Java's null). */
  function FindField(fields: seq<FieldDesc>, name: string): (r: Option<FieldDesc>)
    ensures r.Some? ==> r.value in fields && r.value.name == name
    ensures r.None? ==> forall j :: 0 <= j < |fields| ==> fields[j].name != name
  {
    if fields == [] then None
    else if fields[0].name == name then Some(fields[0])
    else FindField(fields[1..], name)
  }

  function FieldNames(fields: seq<FieldDesc>): seq<string>
  {
    seq(|fields|, j requires 0 <= j < |fields| => fields[j].name)
  }

  /** Field names are unique within a message, as protoc guarantees. */
  ghost predicate DistinctFieldNames(fields: seq<FieldDesc>)
  {
    forall i, j :: 0 <= i < j < |fields| ==> fields[i].name != fields[j].name
  }

  /** With unique names, looking up a field's own name finds that very field. */
  lemma {:induction false} FindFieldFindsEach(fields: seq<FieldDesc>, j: int)
    requires DistinctFieldNames(fields)
    requires 0 <= j < |fields|
    ensures FindField(fields, fields[j].name) == Some(fields[j])
  {
    if j > 0 {
      assert fields[0].name != fields[j].name;
      assert DistinctFieldNames(fields[1..]) by {
        forall a, b | 0 <= a < b < |fields[1..]|
          ensures fields[1..][a].name != fields[1..][b].name
        {
          assert fields[1..][a] == fields[a + 1] && fields[1..][b] == fields[b + 1];
        }
      }
      FindFieldFindsEach(fields[1..], j - 1);
      assert fields[1..][j - 1] == fields[j];
    }
  }

  /** A field as the runtime links it: its number is a positive tag and every type it names exists. */
  ghost predicate ValidField(pool: Pool, f: FieldDesc)
  {
    && f.number > 0
    && match f.kind
       case Scalar(_, _) => true
       case EnumField(t) => t in pool.enums
       case MessageField(t) => t in pool.messages && !pool.messages[t].mapEntry
       case MapField(t) => t in pool.messages && pool.messages[t].mapEntry && f.fieldLabel == LabelRepeated
  }

  /**
   * The synthetic entry type of a map: a scalar `key` field and a `value` field
   * that is not itself a map (protobuf has no maps of maps).
   */
  ghost predicate MapEntryShape(m: MessageDesc)
  {
    && FindField(m.fields, "key").Some?
    && FindField(m.fields, "key").value.kind.Scalar?
    && FindField(m.fields, "value").Some?
    && !FindField(m.fields, "value").value.kind.MapField?
  }

  ghost predicate ValidMessage(pool: Pool, m: MessageDesc)
  {
    && DistinctFieldNames(m.fields)
    && (forall f :: f in m.fields ==> ValidField(pool, f))
    && (m.mapEntry ==> MapEntryShape(m))
  }

  /** The linked, consistent descriptor pool the protobuf runtime hands out. */
  ghost predicate ValidPool(pool: Pool)
  {
    && (forall t :: t in pool.messages ==> pool.messages[t].name == t && ValidMessage(pool, pool.messages[t]))
    && (forall t :: t in pool.enums ==> pool.enums[t].name == t)
  }
}
