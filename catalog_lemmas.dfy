/**
 * Properties of the catalog one parseProps call writes
 * (src/view/components/sidebar/inspect/parseProps.ts).
 */
module PropCatalogLemmas {
  import opened PropValues
  import opened Addressing
  import opened PropCatalogSpec

  // ---------------------------------------------------------------------
  // Addressing: every entry lies in the subtree of the call's path

  /** A call writes only `path` and addresses below `path + "."`. */
  lemma {:induction false} CatalogKeysUnder(v: Value, path: string, limit: int, depth: int, name: string)
    ensures forall k :: k in Catalog(v, path, limit, depth, name) ==> Under(k, path)
    decreases v, 1
  {
    if depth < limit {
      match v
      case Arr(items) => ItemsKeysUnder(items, |items|, path, limit, depth + 1);
      case Obj(fields) =>
        if EnvelopeTag(v).None? {
          FieldsKeysUnder(fields, |fields|, path, limit, depth + 1);
        }
      case _ =>
    }
  }

  /** The children of an array write strictly below the array's own address. */
  lemma {:induction false} ItemsKeysUnder(items: seq<Value>, n: nat, path: string, limit: int, depth: int)
    requires n <= |items|
    ensures forall k :: k in ItemsCatalog(items, n, path, limit, depth) ==> Under(k, path) && k != path
    decreases Arr(items), 0, n
  {
    if n > 0 {
      ItemsKeysUnder(items, n - 1, path, limit, depth);
      var key := NatToString(n - 1);
      CatalogKeysUnder(items[n - 1], ChildPath(path, key), limit, depth, key);
      forall k | k in Catalog(items[n - 1], ChildPath(path, key), limit, depth, key)
        ensures Under(k, path) && k != path
      {
        UnderChild(k, path, key);
      }
    }
  }

  /** The children of an object write strictly below the object's own address. */
  lemma {:induction false} FieldsKeysUnder(fields: seq<(string, Value)>, n: nat, path: string, limit: int, depth: int)
    requires n <= |fields|
    ensures forall k :: k in FieldsCatalog(fields, n, path, limit, depth) ==> Under(k, path) && k != path
    decreases Obj(fields), 0, n
  {
    if n > 0 {
      assert fields[n - 1] in fields;
      FieldsKeysUnder(fields, n - 1, path, limit, depth);
      var key := fields[n - 1].0;
      CatalogKeysUnder(fields[n - 1].1, ChildPath(path, key), limit, depth, key);
      forall k | k in Catalog(fields[n - 1].1, ChildPath(path, key), limit, depth, key)
        ensures Under(k, path) && k != path
      {
        UnderChild(k, path, key);
      }
    }
  }

  // ---------------------------------------------------------------------
  // Node invariants: addresses, depth bounds, editability, shape

  /** A node that is fine one level down is fine for the parent's call too. */
  lemma NodeOkWeaken(k: string, n: PropData, d: int, limit: int)
    requires d < limit && NodeOk(k, n, d + 1, limit)
    ensures NodeOk(k, n, d, limit)
  {
  }

  /** Every entry a call writes keeps the node invariants, for the depth the call started at. */
  lemma {:induction false} CatalogNodesOk(v: Value, path: string, limit: int, depth: int, name: string)
    ensures forall k :: k in Catalog(v, path, limit, depth, name) ==>
      NodeOk(k, Catalog(v, path, limit, depth, name)[k], depth, limit)
    decreases v, 2
  {
    if depth < limit {
      match v
      case Arr(items) => ArrayNodesOk(items, path, limit, depth, name);
      case Obj(fields) =>
        if EnvelopeTag(v).None? {
          ObjectNodesOk(fields, path, limit, depth, name);
        } else {
          LeafNodeOk(v, path, limit, depth, name);
        }
      case _ => LeafNodeOk(v, path, limit, depth, name);
    }
  }

  /** A call that writes a single leaf writes one that keeps the node invariants. */
  lemma LeafNodeOk(v: Value, path: string, limit: int, depth: int, name: string)
    requires depth < limit && !v.Arr? && (v.Obj? ==> EnvelopeTag(v).Some?)
    ensures var c := Catalog(v, path, limit, depth, name);
      c.Keys == {path} && NodeOk(path, c[path], depth, limit)
  {
  }

  /** The array branch: its node and all its children's entries keep the node invariants. */
  lemma {:induction false} ArrayNodesOk(items: seq<Value>, path: string, limit: int, depth: int, name: string)
    requires depth < limit
    ensures var c := Catalog(Arr(items), path, limit, depth, name);
      forall k :: k in c ==> NodeOk(k, c[k], depth, limit)
    decreases Arr(items), 1
  {
    var ic := ItemsCatalog(items, |items|, path, limit, depth + 1);
    ItemsNodesOk(items, |items|, path, limit, depth + 1);
    forall k | k in ic ensures NodeOk(k, ic[k], depth, limit) {
      NodeOkWeaken(k, ic[k], depth, limit);
    }
    var node := PropData(path, name, ArrayType, Arr(items), false, depth, IndexPaths(path, |items|));
    assert Catalog(Arr(items), path, limit, depth, name) == ic[path := node];
    assert NodeOk(path, node, depth, limit);
  }

  /** The generic object branch: its node and all its children's entries keep the node invariants. */
  lemma {:induction false} ObjectNodesOk(fields: seq<(string, Value)>, path: string, limit: int, depth: int, name: string)
    requires depth < limit && EnvelopeTag(Obj(fields)).None?
    ensures var c := Catalog(Obj(fields), path, limit, depth, name);
      forall k :: k in c ==> NodeOk(k, c[k], depth, limit)
    decreases Obj(fields), 1
  {
    var fc := FieldsCatalog(fields, |fields|, path, limit, depth + 1);
    FieldsNodesOk(fields, |fields|, path, limit, depth + 1);
    forall k | k in fc ensures NodeOk(k, fc[k], depth, limit) {
      NodeOkWeaken(k, fc[k], depth, limit);
    }
    var node := PropData(path, name, ObjectType, Obj(fields), false, depth, KeyPaths(path, fields));
    ObjectUnfold(fields, path, limit, depth, name);
    assert NodeOk(path, node, depth, limit);
  }

  /** The entries an array's children write keep the node invariants at the children's depth. */
  lemma {:induction false} ItemsNodesOk(items: seq<Value>, n: nat, path: string, limit: int, depth: int)
    requires n <= |items|
    ensures forall k :: k in ItemsCatalog(items, n, path, limit, depth) ==>
      NodeOk(k, ItemsCatalog(items, n, path, limit, depth)[k], depth, limit)
    decreases Arr(items), 0, n
  {
    if n > 0 {
      ItemsNodesOk(items, n - 1, path, limit, depth);
      var key := NatToString(n - 1);
      CatalogNodesOk(items[n - 1], ChildPath(path, key), limit, depth, key);
    }
  }

  /** The entries an object's children write keep the node invariants at the children's depth. */
  lemma {:induction false} FieldsNodesOk(fields: seq<(string, Value)>, n: nat, path: string, limit: int, depth: int)
    requires n <= |fields|
    ensures forall k :: k in FieldsCatalog(fields, n, path, limit, depth) ==>
      NodeOk(k, FieldsCatalog(fields, n, path, limit, depth)[k], depth, limit)
    decreases Obj(fields), 0, n
  {
    if n > 0 {
      assert fields[n - 1] in fields;
      FieldsNodesOk(fields, n - 1, path, limit, depth);
      var key := fields[n - 1].0;
      CatalogNodesOk(fields[n - 1].1, ChildPath(path, key), limit, depth, key);
    }
  }

  // ---------------------------------------------------------------------
  // Children own their subtrees

  /** No item at index `n` or later has written anything among the first `n` items' entries. */
  lemma {:induction false} ItemsMiss(items: seq<Value>, n: nat, path: string, limit: int, depth: int, i: nat, k: string)
    requires n <= i && n <= |items|
    requires Under(k, ChildPath(path, NatToString(i)))
    ensures k !in ItemsCatalog(items, n, path, limit, depth)
  {
    if n > 0 {
      var key := NatToString(n - 1);
      ItemsMiss(items, n - 1, path, limit, depth, i, k);
      CatalogKeysUnder(items[n - 1], ChildPath(path, key), limit, depth, key);
      if NatToString(i) == key {
        NatToStringInjective(i, n - 1);
      }
      DisjointSubtrees(path, NatToString(i), key, k);
    }
  }

  /** After the first `n` items, the subtree of item `i < n` holds exactly what item `i` wrote. */
  lemma {:induction false} ItemsOwn(items: seq<Value>, n: nat, path: string, limit: int, depth: int, i: nat, k: string)
    requires i < n <= |items|
    requires Under(k, ChildPath(path, NatToString(i)))
    ensures var ic := ItemsCatalog(items, n, path, limit, depth);
      var ci := Catalog(items[i], ChildPath(path, NatToString(i)), limit, depth, NatToString(i));
      (k in ic <==> k in ci) && (k in ci ==> ic[k] == ci[k])
  {
    var key := NatToString(n - 1);
    if i == n - 1 {
      ItemsMiss(items, n - 1, path, limit, depth, i, k);
    } else {
      ItemsOwn(items, n - 1, path, limit, depth, i, k);
      CatalogKeysUnder(items[n - 1], ChildPath(path, key), limit, depth, key);
      if NatToString(i) == key {
        NatToStringInjective(i, n - 1);
      }
      DisjointSubtrees(path, NatToString(i), key, k);
    }
  }

  /** No key at position `n` or later has written anything among the first `n` keys' entries. */
  lemma {:induction false} FieldsMiss(fields: seq<(string, Value)>, n: nat, path: string, limit: int, depth: int, i: nat, k: string)
    requires n <= i < |fields| && DistinctKeys(fields) && DotFreeKeys(fields)
    requires Under(k, ChildPath(path, fields[i].0))
    ensures k !in FieldsCatalog(fields, n, path, limit, depth)
  {
    if n > 0 {
      var key := fields[n - 1].0;
      FieldsMiss(fields, n - 1, path, limit, depth, i, k);
      CatalogKeysUnder(fields[n - 1].1, ChildPath(path, key), limit, depth, key);
      DisjointSubtrees(path, fields[i].0, key, k);
    }
  }

  /** After the first `n` keys, the subtree of key `i < n` holds exactly what that key's value wrote. */
  lemma {:induction false} FieldsOwn(fields: seq<(string, Value)>, n: nat, path: string, limit: int, depth: int, i: nat, k: string)
    requires i < n <= |fields| && DistinctKeys(fields) && DotFreeKeys(fields)
    requires Under(k, ChildPath(path, fields[i].0))
    ensures var fc := FieldsCatalog(fields, n, path, limit, depth);
      var ci := Catalog(fields[i].1, ChildPath(path, fields[i].0), limit, depth, fields[i].0);
      (k in fc <==> k in ci) && (k in ci ==> fc[k] == ci[k])
  {
    var key := fields[n - 1].0;
    if i == n - 1 {
      FieldsMiss(fields, n - 1, path, limit, depth, i, k);
    } else {
      FieldsOwn(fields, n - 1, path, limit, depth, i, k);
      CatalogKeysUnder(fields[n - 1].1, ChildPath(path, key), limit, depth, key);
      DisjointSubtrees(path, fields[i].0, key, k);
    }
  }

  /** The entry written at a call's own address: its id, name and depth are the call's. */
  lemma CatalogRoot(v: Value, path: string, limit: int, depth: int, name: string)
    ensures path in Catalog(v, path, limit, depth, name)
    ensures var n := Catalog(v, path, limit, depth, name)[path];
      n.id == path && n.name == name && n.depth == depth
  {
  }

  /**
   * Arrays (lines 50-66): the node lists `path.0, …, path.(n-1)` in index
   * order, and the subtree at `path.i` is exactly what item `i` writes at
   * `path.i` with name `"" + i` one level down; in particular that child's
   * node is named `i` and sits at `depth + 1`.
   */
  lemma ArrayChildren(items: seq<Value>, path: string, limit: int, depth: int, name: string)
    requires depth < limit
    ensures var c := Catalog(Arr(items), path, limit, depth, name);
      && c[path].propType == ArrayType && !c[path].editable && c[path].value == Arr(items)
      && c[path].children == IndexPaths(path, |items|)
      && forall i, k :: 0 <= i < |items| && Under(k, ChildPath(path, NatToString(i))) ==>
           var ci := Catalog(items[i], ChildPath(path, NatToString(i)), limit, depth + 1, NatToString(i));
           (k in c <==> k in ci) && (k in ci ==> c[k] == ci[k])
    ensures var c := Catalog(Arr(items), path, limit, depth, name);
      forall i :: 0 <= i < |items| ==>
        var child := ChildPath(path, NatToString(i));
        child in c && c[child].id == child && c[child].name == NatToString(i) && c[child].depth == depth + 1
  {
    var c := Catalog(Arr(items), path, limit, depth, name);
    ArrayUnfold(items, path, limit, depth, name);
    forall i, k | 0 <= i < |items| && Under(k, ChildPath(path, NatToString(i)))
      ensures var ci := Catalog(items[i], ChildPath(path, NatToString(i)), limit, depth + 1, NatToString(i));
        (k in c <==> k in ci) && (k in ci ==> c[k] == ci[k])
    {
      UnderChild(k, path, NatToString(i));
      ItemsOwn(items, |items|, path, limit, depth + 1, i, k);
    }
    forall i | 0 <= i < |items|
      ensures var child := ChildPath(path, NatToString(i));
        child in c && c[child].id == child && c[child].name == NatToString(i) && c[child].depth == depth + 1
    {
      var child := ChildPath(path, NatToString(i));
      CatalogRoot(items[i], child, limit, depth + 1, NatToString(i));
      UnderChild(child, path, NatToString(i));
      ItemsOwn(items, |items|, path, limit, depth + 1, i, child);
    }
  }

  /**
   * Generic objects (lines 189-208): the node lists `path.key` for every own
   * key in key order, and, when the keys are dot-free (as well as distinct,
   * as `Object.keys` gives them), the subtree at `path.key` is exactly what
   * that key's value writes there with name `key` one level down.
   */
  lemma ObjectChildren(fields: seq<(string, Value)>, path: string, limit: int, depth: int, name: string)
    requires depth < limit && EnvelopeTag(Obj(fields)).None?
    ensures var c := Catalog(Obj(fields), path, limit, depth, name);
      && c[path].propType == ObjectType && !c[path].editable && c[path].value == Obj(fields)
      && c[path].children == KeyPaths(path, fields)
    ensures DistinctKeys(fields) && DotFreeKeys(fields) ==>
      var c := Catalog(Obj(fields), path, limit, depth, name);
      forall i, k :: 0 <= i < |fields| && Under(k, ChildPath(path, fields[i].0)) ==>
        var ci := Catalog(fields[i].1, ChildPath(path, fields[i].0), limit, depth + 1, fields[i].0);
        (k in c <==> k in ci) && (k in ci ==> c[k] == ci[k])
    ensures DistinctKeys(fields) && DotFreeKeys(fields) ==>
      var c := Catalog(Obj(fields), path, limit, depth, name);
      forall i :: 0 <= i < |fields| ==>
        var child := ChildPath(path, fields[i].0);
        child in c && c[child].id == child && c[child].name == fields[i].0 && c[child].depth == depth + 1
  {
    if DistinctKeys(fields) && DotFreeKeys(fields) {
      var c := Catalog(Obj(fields), path, limit, depth, name);
      forall i, k | 0 <= i < |fields| && Under(k, ChildPath(path, fields[i].0))
        ensures var ci := Catalog(fields[i].1, ChildPath(path, fields[i].0), limit, depth + 1, fields[i].0);
          (k in c <==> k in ci) && (k in ci ==> c[k] == ci[k])
      {
        UnderChild(k, path, fields[i].0);
        FieldsOwn(fields, |fields|, path, limit, depth + 1, i, k);
      }
      forall i | 0 <= i < |fields|
        ensures var child := ChildPath(path, fields[i].0);
          child in c && c[child].id == child && c[child].name == fields[i].0 && c[child].depth == depth + 1
      {
        var child := ChildPath(path, fields[i].0);
        CatalogRoot(fields[i].1, child, limit, depth + 1, fields[i].0);
        UnderChild(child, path, fields[i].0);
        FieldsOwn(fields, |fields|, path, limit, depth + 1, i, child);
      }
    }
  }

  // ---------------------------------------------------------------------
  // One branch at a time

  /** Depth cutoff (lines 36-47): one placeholder at `path`, and nothing else, whatever the value. */
  lemma DepthCutoff(v: Value, path: string, limit: int, depth: int, name: string)
    requires depth >= limit
    ensures Catalog(v, path, limit, depth, name).Keys == {path}
    ensures var n := Catalog(v, path, limit, depth, name)[path];
      n.propType == StringType && n.value == Str("…") && !n.editable && n.children == [] && n.depth == depth
  {
  }

  /** The envelope test holds for exactly the source's six two-key shapes, each with its own node type. */
  lemma EnvelopeTagIff(fields: seq<(string, Value)>, t: PropType)
    ensures EnvelopeTag(Obj(fields)) == Some(t) <==>
      TypeName(t) in EnvelopeTags && EnvelopeShape(fields, TypeName(t))
  {
  }

  /**
   * Envelope atomicity (lines 92-188): below the limit, a two-key object with
   * a string `name` and one of the six tags as `type` becomes one
   * non-editable leaf whose type is that tag and whose value is the object;
   * no other address is written.
   */
  lemma EnvelopeLeaf(fields: seq<(string, Value)>, tag: string, path: string, limit: int, depth: int, name: string)
    requires depth < limit && tag in EnvelopeTags && EnvelopeShape(fields, tag)
    ensures Catalog(Obj(fields), path, limit, depth, name).Keys == {path}
    ensures var n := Catalog(Obj(fields), path, limit, depth, name)[path];
      TypeName(n.propType) == tag && n.value == Obj(fields) && !n.editable && n.children == []
  {
  }

  /**
   * A two-key object whose `type` is no tag, or whose `name` is not a
   * string, falls through to the generic object branch (line 189).
   */
  lemma TwoKeyFallThrough(fields: seq<(string, Value)>, path: string, limit: int, depth: int, name: string)
    requires depth < limit && |fields| == 2
    requires forall tag :: tag in EnvelopeTags ==> !EnvelopeShape(fields, tag)
    ensures var n := Catalog(Obj(fields), path, limit, depth, name)[path];
      n.propType == ObjectType && n.children == KeyPaths(path, fields)
  {
  }

  /** `null` (lines 80-90) and a native Set (lines 67-78) give one leaf each, and neither is walked. */
  lemma NullAndSetLeaves(path: string, limit: int, depth: int, name: string)
    requires depth < limit
    ensures Catalog(Null, path, limit, depth, name).Keys == {path}
    ensures var n := Catalog(Null, path, limit, depth, name)[path];
      n.propType == NullType && n.value == Null && !n.editable && n.children == []
    ensures Catalog(NativeSet, path, limit, depth, name).Keys == {path}
    ensures var n := Catalog(NativeSet, path, limit, depth, name)[path];
      n.propType == SetType && n.value == Str("Set") && !n.editable && n.children == []
  {
  }

  /**
   * Scalars (lines 211-222): one leaf typed by `typeof`, editable exactly
   * when the value is neither `undefined` nor the cycle marker.
   */
  lemma ScalarLeaf(v: Value, path: string, limit: int, depth: int, name: string)
    requires depth < limit && IsScalar(v)
    ensures Catalog(v, path, limit, depth, name).Keys == {path}
    ensures var n := Catalog(v, path, limit, depth, name)[path];
      && n.propType == TypeOf(v) && n.value == v && n.children == []
      && (n.editable <==> v != Undef && v != Str(Circular))
  {
  }

  // ---------------------------------------------------------------------
  // The accumulator

  /**
   * A call into an accumulator `out` (lines 34, 225) leaves `path` in it,
   * keeps everything outside the subtree at `path` as it was, and
   * normalising the same value again changes nothing.
   */
  lemma AccumulatorFrame(out: map<string, PropData>, v: Value, path: string, limit: int, depth: int, name: string)
    ensures var r := out + Catalog(v, path, limit, depth, name);
      && path in r
      && (forall k :: !Under(k, path) ==> (k in r <==> k in out) && (k in out ==> r[k] == out[k]))
      && r + Catalog(v, path, limit, depth, name) == r
  {
    CatalogKeysUnder(v, path, limit, depth, name);
    CatalogRoot(v, path, limit, depth, name);
  }

  // ---------------------------------------------------------------------
  // One-step unfoldings

  /** The array branch, unfolded once. */
  lemma ArrayUnfold(items: seq<Value>, path: string, limit: int, depth: int, name: string)
    requires depth < limit
    ensures Catalog(Arr(items), path, limit, depth, name)
      == ItemsCatalog(items, |items|, path, limit, depth + 1)
           [path := PropData(path, name, ArrayType, Arr(items), false, depth, IndexPaths(path, |items|))]
  {
  }

  /** The generic object branch, unfolded once. */
  lemma ObjectUnfold(fields: seq<(string, Value)>, path: string, limit: int, depth: int, name: string)
    requires depth < limit && EnvelopeTag(Obj(fields)).None?
    ensures Catalog(Obj(fields), path, limit, depth, name)
      == FieldsCatalog(fields, |fields|, path, limit, depth + 1)
           [path := PropData(path, name, ObjectType, Obj(fields), false, depth, KeyPaths(path, fields))]
  {
  }

  // ---------------------------------------------------------------------
  // Worked inputs

  /** `[1, "[[Circular]]"]` at "root" with limit 5. */
  lemma ExampleArray()
    ensures var c := Catalog(Arr([Num(1), Str(Circular)]), "root", 5, 0, "root");
      && c.Keys == {"root", "root.0", "root.1"}
      && c["root"].propType == ArrayType && c["root"].children == ["root.0", "root.1"]
      && c["root.0"] == PropData("root.0", "0", NumberType, Num(1), true, 1, [])
      && c["root.1"] == PropData("root.1", "1", StringType, Str(Circular), false, 1, [])
  {
    var items := [Num(1), Str(Circular)];
    var n0 := PropData("root.0", "0", NumberType, Num(1), true, 1, []);
    var n1 := PropData("root.1", "1", StringType, Str(Circular), false, 1, []);
    assert NatToString(0) == "0" && NatToString(1) == "1";
    assert ChildPath("root", "0") == "root.0" && ChildPath("root", "1") == "root.1";
    assert Catalog(items[0], "root.0", 5, 1, "0") == map["root.0" := n0];
    assert Catalog(items[1], "root.1", 5, 1, "1") == map["root.1" := n1];
    assert ItemsCatalog(items, 1, "root", 5, 1) == map[] + map["root.0" := n0];
    assert ItemsCatalog(items, 2, "root", 5, 1) == map[] + map["root.0" := n0] + map["root.1" := n1];
    assert IndexPaths("root", 2) == ["root.0", "root.1"];
  }

  /** `{a: {b: 1}}` at "root" with limit 1: `root.a` is already the placeholder. */
  lemma ExampleCutoff()
    ensures var c := Catalog(Obj([("a", Obj([("b", Num(1))]))]), "root", 1, 0, "root");
      && c.Keys == {"root", "root.a"}
      && c["root"].propType == ObjectType && c["root"].children == ["root.a"]
      && c["root.a"] == Placeholder("root.a", "a", 1)
  {
    var fields := [("a", Obj([("b", Num(1))]))];
    assert ChildPath("root", "a") == "root.a";
    assert Lookup(fields, "name") == None;
    assert KeyPaths("root", fields) == ["root.a"];
  }

  /** `{name: "onClick", type: "function"}` at "root" with limit 5: one function leaf. */
  lemma ExampleFunctionEnvelope()
    ensures var v := Obj([("name", Str("onClick")), ("type", Str("function"))]);
      Catalog(v, "root", 5, 0, "root") == map["root" := PropData("root", "root", FunctionType, v, false, 0, [])]
  {
  }

  /**
   * Keys may contain dots, and then two nodes compete for one address: in
   * `{"a.b": 1, a: {b: 2}}` at `p` the later key wins `p.a.b` (lines 203, 205).
   */
  lemma AddressCollision(p: string, limit: int)
    requires limit > 2
    ensures var c := Catalog(Obj([("a.b", Num(1)), ("a", Obj([("b", Num(2))]))]), p, limit, 0, p);
      && c[p].children == [p + ".a.b", p + ".a"]
      && c[p + ".a"].children == [p + ".a.b"]
      && c[p + ".a.b"] == PropData(p + ".a.b", "b", NumberType, Num(2), true, 2, [])
  {
    var fields := [("a.b", Num(1)), ("a", Obj([("b", Num(2))]))];
    var ab, a := p + ".a.b", p + ".a";
    assert ChildPath(p, "a.b") == ab && ChildPath(p, "a") == a;
    assert ab != a && ab != p && a != p;
    assert Lookup(fields, "name") == None;
    assert KeyPaths(p, fields) == [ab, a];
    var first := Catalog(Num(1), ab, limit, 1, "a.b");
    var second := Catalog(Obj([("b", Num(2))]), a, limit, 1, "a");
    assert FieldsCatalog(fields, 2, p, limit, 1) == map[] + first + second;
    CollisionInner(p, limit);
    ObjectUnfold(fields, p, limit, 0, p);
  }

  /** The inner object `{b: 2}` of the collision example, written at `p.a`. */
  lemma CollisionInner(p: string, limit: int)
    requires limit > 2
    ensures var c := Catalog(Obj([("b", Num(2))]), p + ".a", limit, 1, "a");
      && c.Keys == {p + ".a", p + ".a.b"}
      && c[p + ".a"].children == [p + ".a.b"]
      && c[p + ".a.b"] == PropData(p + ".a.b", "b", NumberType, Num(2), true, 2, [])
  {
    var inner := [("b", Num(2))];
    var a := p + ".a";
    assert ChildPath(a, "b") == p + ".a.b";
    assert a != p + ".a.b";
    assert Lookup(inner, "name") == None;
    assert KeyPaths(a, inner) == [p + ".a.b"];
    assert FieldsCatalog(inner, 1, a, limit, 2) == map[] + Catalog(Num(2), p + ".a.b", limit, 2, "b");
    ObjectUnfold(inner, a, limit, 1, "a");
  }
}
