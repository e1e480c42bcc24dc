/** The reflection-free stand-in for .NET types: the shape of a scalar target, the type of a record
    field, the record descriptors and the values the engine builds. */
module Shapes {
  import opened Errors

  /** Targets of CsvParser.Parse. `Enum` lists the member names in declaration order; `Pair` is a
      generic struct whose two fields are Key/Value (or Value1/Value2); `Custom` is any other
      reference type, left to the user decoders and then to the JSON fallback. */
  datatype Shape =
    | Str
    | Enum(names: seq<string>)
    | Int
    | Pair(key: Shape, value: Shape)
    | Custom(typeName: string)

  /** The type of a record field, as DeserializeObject tells it apart: arrays `T[]`, lists,
      dictionaries, lists of nested records (the element type of a `[]` sub-list) and everything else. */
  datatype FieldType =
    | Scalar(shape: Shape)
    | ArrayField(elem: Shape)
    | ListOf(elem: Shape)
    | DictOf(key: Shape, value: Shape)
    | RecordList(recordName: string, fields: seq<Field>)

  /** One public field of a record type: its name, its type and whether it carries ParseIgnore. */
  datatype Field = Field(name: string, ty: FieldType, ignored: bool)

  /** What the engine produces. `Null` is a null reference; `Opaque(t)` is the JSON reading of `"t"`
      into a custom type; a dictionary keeps its entries in insertion order; a record maps the names
      of the fields that were set to their values (a missing field keeps its default). An enum value is the
      declaration index of its member, which equals the underlying value for enums with implicit values. */
  datatype Value =
    | Null
    | Text(s: string)
    | EnumMember(ordinal: nat)
    | Int32(n: int)
    | KeyValue(key: Value, value: Value)
    | Opaque(text: string)
    | List(items: seq<Value>)
    | Dict(entries: seq<(Value, Value)>)
    | Rec(fields: map<string, Value>)

  /** A user deserializer: given the trimmed text and the target, a value or null. A C# deserializer
      that returns null gives no answer, so `Some(Null)` stands for no value a real deserializer
      produces; no property of the model depends on excluding it. */
  type Decoder = (string, Shape) -> Option<Value>

  const MinInt32: int := -2147483648
  const MaxInt32: int := 2147483647

  /** default(T): null for reference types, zero for numbers and enums, a pair of defaults. */
  function Default(shape: Shape): Value {
    match shape
    case Str => Null
    case Enum(_) => EnumMember(0)
    case Int => Int32(0)
    case Pair(k, v) => KeyValue(Default(k), Default(v))
    case Custom(_) => Null
  }

  /** The value a freshly created record holds in a field: collections of every kind start null. */
  function FieldDefault(ty: FieldType): Value {
    match ty
    case Scalar(s) => Default(s)
    case _ => Null
  }

  /** A value of the given shape: a string target reads null or text, an enum one of its members (or
      the zero default of an enum without members), an integer a 32-bit one. */
  predicate HasShape(v: Value, shape: Shape) {
    match shape
    case Str => v.Null? || v.Text?
    case Enum(names) => v.EnumMember? && (v.ordinal < |names| || v.ordinal == 0)
    case Int => v.Int32? && MinInt32 <= v.n <= MaxInt32
    case Pair(k, w) => v.KeyValue? && HasShape(v.key, k) && HasShape(v.value, w)
    case Custom(_) => v.Null? || v.Opaque? || v.Rec?
  }

  /** Defaults have their shape. */
  lemma {:induction false} DefaultHasShape(shape: Shape)
    ensures HasShape(Default(shape), shape)
  {
    match shape
    case Pair(k, v) =>
      DefaultHasShape(k);
      DefaultHasShape(v);
    case _ =>
  }

  /** Decoders that only ever return values of the shape they were asked for. */
  ghost predicate WellTyped(decoders: seq<Decoder>) {
    forall i, t, s :: 0 <= i < |decoders| && decoders[i](t, s).Some? ==> HasShape(decoders[i](t, s).value, s)
  }

  /** Shapes whose parsing never consults a decoder. */
  predicate DecoderFree(shape: Shape) {
    match shape
    case Str => true
    case Enum(_) => true
    case Pair(k, v) => DecoderFree(k) && DecoderFree(v)
    case _ => false
  }
}
