/**
 * What one call of parseProps writes into its accumulator
 * (src/view/components/sidebar/inspect/parseProps.ts, lines 28-226),
 * as a value: `Catalog(v, path, limit, depth, name)` is the map of the
 * entries the call leaves behind, so that the accumulator after the call
 * is `out + Catalog(...)`. The properties of the normaliser are lemmas
 * about `Catalog`.
 */
module PropCatalogSpec {
  import opened PropValues
  import opened Addressing

  /** The string shown in place of a value below the depth limit. */
  const Ellipsis: string := "…"

  /** The node written when the depth limit is reached (lines 36-47). */
  function Placeholder(path: string, name: string, depth: int): PropData
  {
    PropData(path, name, StringType, Str(Ellipsis), false, depth, [])
  }

  /** A node with no children and not editable: null, a native Set, an envelope. */
  function Leaf(path: string, name: string, depth: int, t: PropType, v: Value): PropData
  {
    PropData(path, name, t, v, false, depth, [])
  }

  /** The entries written for `v` at `path`, `depth` levels below the root. */
  function Catalog(v: Value, path: string, limit: int, depth: int, name: string): map<string, PropData>
    decreases v, 1
  {
    if depth >= limit then
      map[path := Placeholder(path, name, depth)]
    else
      match v
      case Arr(items) =>
        ItemsCatalog(items, |items|, path, limit, depth + 1)
          [path := PropData(path, name, ArrayType, v, false, depth, IndexPaths(path, |items|))]
      case NativeSet =>
        map[path := Leaf(path, name, depth, SetType, Str("Set"))]
      case Null =>
        map[path := Leaf(path, name, depth, NullType, Null)]
      case Obj(fields) =>
        if EnvelopeTag(v).Some? then
          map[path := Leaf(path, name, depth, EnvelopeTag(v).value, v)]
        else
          FieldsCatalog(fields, |fields|, path, limit, depth + 1)
            [path := PropData(path, name, ObjectType, v, false, depth, KeyPaths(path, fields))]
      case _ =>
        map[path := PropData(path, name, TypeOf(v), v, EditableScalar(v), depth, [])]
  }

  /** The entries written for the first `n` items of an array at `path`, the children at `depth`. */
  function ItemsCatalog(items: seq<Value>, n: nat, path: string, limit: int, depth: int): map<string, PropData>
    requires n <= |items|
    decreases Arr(items), 0, n
  {
    if n == 0 then map[]
    else
      ItemsCatalog(items, n - 1, path, limit, depth)
        + Catalog(items[n - 1], ChildPath(path, NatToString(n - 1)), limit, depth, NatToString(n - 1))
  }

  /** The entries written for the first `n` keys of an object at `path`, the children at `depth`. */
  function FieldsCatalog(fields: seq<(string, Value)>, n: nat, path: string, limit: int, depth: int): map<string, PropData>
    requires n <= |fields|
    decreases Obj(fields), 0, n
  {
    if n == 0 then map[]
    else
      assert fields[n - 1] in fields;
      FieldsCatalog(fields, n - 1, path, limit, depth)
        + Catalog(fields[n - 1].1, ChildPath(path, fields[n - 1].0), limit, depth, fields[n - 1].0)
  }

  /** The tags an envelope's `type` field can carry (lines 97, 113, 129, 145, 161, 177). */
  const EnvelopeTags: set<string> := {"function", "vnode", "set", "map", "blob", "symbol"}

  /** The source's envelope test for one tag: two own keys, a string `name`, and `type` equal to `tag`. */
  predicate EnvelopeShape(fields: seq<(string, Value)>, tag: string)
  {
    && |fields| == 2
    && Lookup(fields, "name").Some? && Lookup(fields, "name").value.Str?
    && Lookup(fields, "type") == Some(Str(tag))
  }

  /** The node invariants every entry of a catalog keeps. */
  predicate NodeOk(k: string, n: PropData, d: int, limit: int)
  {
    && n.id == k
    && d <= n.depth && (n.depth <= limit || n.depth == d)
    && (n.depth >= limit ==> n == Placeholder(k, n.name, n.depth))
    && (n.editable <==> n.depth < limit && IsScalarLeaf(n) && EditableScalar(n.value))
    && (n.children != [] ==> n.propType == ArrayType || n.propType == ObjectType)
    && ShapeOk(k, n)
  }

  /** A leaf that holds a scalar under its `typeof` type, as the scalar branch writes it. */
  predicate IsScalarLeaf(n: PropData)
  {
    IsScalar(n.value) && TypeOf(n.value) == n.propType
  }

  /** The node's type agrees with its value, and composites list exactly their children's addresses. */
  predicate ShapeOk(k: string, n: PropData)
  {
    match n.propType
    case ArrayType => n.value.Arr? && n.children == IndexPaths(k, |n.value.items|)
    case ObjectType =>
      n.value.Obj? && EnvelopeTag(n.value) == None && n.children == KeyPaths(k, n.value.fields)
    case NullType => n.value == Null
    case SetType => n.value == Str("Set") || EnvelopeTag(n.value) == Some(SetType)
    case FunctionType => n.value.FnRaw? || EnvelopeTag(n.value) == Some(FunctionType)
    case SymbolType => n.value.SymRaw? || EnvelopeTag(n.value) == Some(SymbolType)
    case MapType => EnvelopeTag(n.value) == Some(MapType)
    case VNodeType => EnvelopeTag(n.value) == Some(VNodeType)
    case BlobType => EnvelopeTag(n.value) == Some(BlobType)
    case _ => IsScalarLeaf(n)
  }

  /** Keys as `Object.keys` returns them: pairwise different. */
  predicate DistinctKeys(fields: seq<(string, Value)>)
  {
    forall i, j :: 0 <= i < j < |fields| ==> fields[i].0 != fields[j].0
  }

  /** Keys none of which contains a dot, so that no two children compete for an address. */
  predicate DotFreeKeys(fields: seq<(string, Value)>)
  {
    forall i :: 0 <= i < |fields| ==> '.' !in fields[i].0
  }
}
