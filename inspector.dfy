/**
 * parseProps itself (src/view/components/sidebar/inspect/parseProps.ts,
 * lines 28-226): a recursive walk that writes into a shared accumulator.
 * The accumulator `out` is the field of a `PropCatalog`; each call is
 * proved to leave `old(out) + Catalog(...)` behind.
 */
module Inspector {
  import opened PropValues
  import opened Addressing
  import opened PropCatalogSpec
  import PropCatalogLemmas

  /** The accumulator map `out` that parseProps fills and returns. */
  class PropCatalog {
    var out: map<string, PropData>

    /** `new Map<string, PropData>()`, the default accumulator (line 34). */
    constructor ()
      ensures out == map[]
    {
      out := map[];
    }

    /** `parseProps(data, path, limit, depth, name, out)`: writes the catalog of `data` at `path`. */
    method ParseProps(data: Value, path: string, limit: int, depth: int, name: string)
      modifies this
      ensures out == old(out) + Catalog(data, path, limit, depth, name)
      decreases data, 1
    {
      if depth >= limit {
        out := out[path := Placeholder(path, name, depth)];
        return;
      }
      if data.Arr? {
        var node := PropData(path, name, ArrayType, data, false, depth, []);
        out := out[path := node];
        var children := ParseItems(data.items, path, limit, depth + 1);
        // The source stores `node` once and then pushes into its `children`
        // array, which the stored node shares; storing the finished node
        // here gives the map that same final entry.
        out := out[path := node.(children := children)];
        OverwriteAfterUnion(old(out), path, node, ItemsCatalog(data.items, |data.items|, path, limit, depth + 1),
          node.(children := children));
        PropCatalogLemmas.ArrayUnfold(data.items, path, limit, depth, name);
      } else if data.NativeSet? {
        out := out[path := Leaf(path, name, depth, SetType, Str("Set"))];
      } else if data.Null? {
        out := out[path := Leaf(path, name, depth, NullType, Null)];
      } else if data.Obj? {
        var tag := EnvelopeTag(data);
        if tag.Some? {
          // lines 94-188: the six envelope branches differ only in the tag they store
          out := out[path := Leaf(path, name, depth, tag.value, data)];
        } else {
          var node := PropData(path, name, ObjectType, data, false, depth, []);
          out := out[path := node];
          var children := ParseFields(data.fields, path, limit, depth + 1);
          // line 208 stores the node again, now holding every child's address
          out := out[path := node.(children := children)];
          OverwriteAfterUnion(old(out), path, node, FieldsCatalog(data.fields, |data.fields|, path, limit, depth + 1),
            node.(children := children));
          PropCatalogLemmas.ObjectUnfold(data.fields, path, limit, depth, name);
        }
      } else {
        out := out[path := PropData(path, name, TypeOf(data), data, EditableScalar(data), depth, [])];
      }
    }

    /**
     * The `data.forEach` loop over an array's items (lines 62-66): pushes
     * each child's address and walks the item one level down.
     */
    method ParseItems(items: seq<Value>, path: string, limit: int, depth: int) returns (children: seq<string>)
      modifies this
      ensures children == IndexPaths(path, |items|)
      ensures out == old(out) + ItemsCatalog(items, |items|, path, limit, depth)
      decreases Arr(items), 0
    {
      children := [];
      var i := 0;
      while i < |items|
        invariant 0 <= i <= |items|
        invariant children == IndexPaths(path, i)
        invariant out == old(out) + ItemsCatalog(items, i, path, limit, depth)
      {
        var key := NatToString(i);
        var childPath := ChildPath(path, key);
        children := children + [childPath];
        ParseProps(items[i], childPath, limit, depth, key);
        UnionAssoc(old(out), ItemsCatalog(items, i, path, limit, depth),
          Catalog(items[i], childPath, limit, depth, key));
        i := i + 1;
      }
    }

    /**
     * The `Object.keys(data).forEach` loop (lines 202-206): pushes each key's
     * address and walks its value one level down.
     */
    method ParseFields(fields: seq<(string, Value)>, path: string, limit: int, depth: int) returns (children: seq<string>)
      modifies this
      ensures children == KeyPaths(path, fields)
      ensures out == old(out) + FieldsCatalog(fields, |fields|, path, limit, depth)
      decreases Obj(fields), 0
    {
      children := [];
      var i := 0;
      while i < |fields|
        invariant 0 <= i <= |fields|
        invariant children == KeyPaths(path, fields[..i])
        invariant out == old(out) + FieldsCatalog(fields, i, path, limit, depth)
      {
        var key := fields[i].0;
        var nextPath := ChildPath(path, key);
        assert fields[..i + 1][..i] == fields[..i];
        children := children + [nextPath];
        assert fields[i] in fields;
        ParseProps(fields[i].1, nextPath, limit, depth, key);
        UnionAssoc(old(out), FieldsCatalog(fields, i, path, limit, depth),
          Catalog(fields[i].1, nextPath, limit, depth, key));
        i := i + 1;
      }
      assert fields[..|fields|] == fields;
    }
  }

  /**
   * `parseProps(data, path, limit)` with the defaults `depth = 0`,
   * `name = path` and a fresh accumulator: the returned catalog holds
   * `path`, only addresses in the subtree at `path`, and nodes that all keep
   * the node invariants (ids equal keys, depths between 0 and the limit,
   * the editability rule, composites listing their children).
   */
  method ParseRoot(data: Value, path: string, limit: int) returns (catalog: map<string, PropData>)
    ensures catalog == Catalog(data, path, limit, 0, path)
    ensures path in catalog && catalog[path].name == path && catalog[path].depth == 0
    ensures forall k :: k in catalog ==> Under(k, path) && NodeOk(k, catalog[k], 0, limit)
  {
    var acc := new PropCatalog();
    acc.ParseProps(data, path, limit, 0, path);
    catalog := acc.out;
    assert catalog == map[] + Catalog(data, path, limit, 0, path);
    assert catalog == Catalog(data, path, limit, 0, path);
    PropCatalogLemmas.CatalogRoot(data, path, limit, 0, path);
    PropCatalogLemmas.CatalogKeysUnder(data, path, limit, 0, path);
    PropCatalogLemmas.CatalogNodesOk(data, path, limit, 0, path);
  }

  lemma UnionAssoc<K, V>(a: map<K, V>, b: map<K, V>, c: map<K, V>)
    ensures (a + b) + c == a + (b + c)
  {
  }

  /** Storing a node at `p`, adding entries, then storing it again: as if only the last store happened. */
  lemma OverwriteAfterUnion<K, V>(m: map<K, V>, p: K, x: V, b: map<K, V>, y: V)
    ensures (m[p := x] + b)[p := y] == m + b[p := y]
  {
  }
}
