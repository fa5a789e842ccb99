/**
 * The values the inspector receives and the flat nodes it produces
 * (src/view/components/sidebar/inspect/parseProps.ts, lines 1-26).
 *
 * A runtime value arrives already serialised; `Value` is that serialised
 * form as a closed sum type, so that the classification of parseProps
 * becomes a match instead of `Array.isArray`, `instanceof Set` and
 * `typeof` probes.
 */
module PropValues {

  /** A serialised runtime value. Object keys are given in `Object.keys` order. */
  datatype Value =
    | Str(s: string)
    | Num(n: int)          // a JavaScript number; only its identity matters here
    | Bool(b: bool)
    | BigNum(i: int)       // a bigint
    | Undef
    | FnRaw(fname: string) // a function that reached the inspector unserialised
    | SymRaw(desc: string) // a symbol that reached the inspector unserialised
    | Null
    | NativeSet            // a live `Set` instance
    | Arr(items: seq<Value>)
    | Obj(fields: seq<(string, Value)>)

  /** The `PropDataType` union of string literals. */
  datatype PropType =
    | BooleanType | StringType | NumberType | ArrayType | MapType | SetType
    | ObjectType | NullType | UndefinedType | FunctionType | BigIntType
    | VNodeType | BlobType | SymbolType

  /** One flat node of the catalog (`PropData`; its `meta` field is always null and is dropped). */
  datatype PropData = PropData(
    id: string,
    name: string,
    propType: PropType,
    value: Value,
    editable: bool,
    depth: int,
    children: seq<string>)

  /** The string a `PropType` stands for. */
  function TypeName(t: PropType): string
  {
    match t
    case BooleanType => "boolean"
    case StringType => "string"
    case NumberType => "number"
    case ArrayType => "array"
    case MapType => "map"
    case SetType => "set"
    case ObjectType => "object"
    case NullType => "null"
    case UndefinedType => "undefined"
    case FunctionType => "function"
    case BigIntType => "bigint"
    case VNodeType => "vnode"
    case BlobType => "blob"
    case SymbolType => "symbol"
  }

  /** The values that `typeof` does not call "object": they end in the scalar branch. */
  predicate IsScalar(v: Value)
  {
    v.Str? || v.Num? || v.Bool? || v.BigNum? || v.Undef? || v.FnRaw? || v.SymRaw?
  }

  /** `typeof v` for a scalar value. */
  function TypeOf(v: Value): (t: PropType)
    requires IsScalar(v)
    ensures TypeName(t) in {"string", "number", "boolean", "bigint", "undefined", "function", "symbol"}
    ensures t == UndefinedType <==> v == Undef
  {
    match v
    case Str(_) => StringType
    case Num(_) => NumberType
    case Bool(_) => BooleanType
    case BigNum(_) => BigIntType
    case Undef => UndefinedType
    case FnRaw(_) => FunctionType
    case SymRaw(_) => SymbolType
  }

  /** The marker the serialiser puts where it broke a reference cycle. */
  const Circular: string := "[[Circular]]"

  /** The editability rule of a scalar leaf: not `undefined` and not the cycle marker. */
  predicate EditableScalar(v: Value)
  {
    v != Undef && v != Str(Circular)
  }

  /** The value at the first occurrence of `key`, the property read `data[key]`. */
  function Lookup(fields: seq<(string, Value)>, key: string): (r: Option<Value>)
    ensures r.Some? <==> exists i :: 0 <= i < |fields| && fields[i].0 == key
    ensures r.Some? ==> exists i ::
      && 0 <= i < |fields| && fields[i] == (key, r.value)
      && forall j :: 0 <= j < i ==> fields[j].0 != key
  {
    if |fields| == 0 then None
    else if fields[0].0 == key then Some(fields[0].1)
    else Lookup(fields[1..], key)
  }

  datatype Option<T> = None | Some(value: T)

  /** The tags an envelope may carry in its `type` field, and the node type each one yields. */
  function EnvelopeTypeOf(tag: string): (r: Option<PropType>)
    ensures r.Some? ==> TypeName(r.value) == tag
    ensures r.Some? <==> tag in {"function", "vnode", "set", "map", "blob", "symbol"}
  {
    if tag == "function" then Some(FunctionType)
    else if tag == "vnode" then Some(VNodeType)
    else if tag == "set" then Some(SetType)
    else if tag == "map" then Some(MapType)
    else if tag == "blob" then Some(BlobType)
    else if tag == "symbol" then Some(SymbolType)
    else None
  }

  /**
   * The envelope test: an object with exactly two own keys whose `name` is a
   * string and whose `type` is one of the six tags; the result is the node type.
   */
  function EnvelopeTag(v: Value): (r: Option<PropType>)
    ensures r.Some? ==> v.Obj? && |v.fields| == 2
    ensures r.Some? ==> r.value in {FunctionType, VNodeType, SetType, MapType, BlobType, SymbolType}
    ensures r.Some? ==> Lookup(v.fields, "type") == Some(Str(TypeName(r.value)))
  {
    if v.Obj? && |v.fields| == 2 then
      match (Lookup(v.fields, "name"), Lookup(v.fields, "type"))
      case (Some(Str(_)), Some(Str(tag))) => EnvelopeTypeOf(tag)
      case _ => None
    else None
  }
}
