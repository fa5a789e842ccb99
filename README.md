# parseProps: the prop-value normaliser of the Preact devtools sidebar

The devtools sidebar shows the props and state of the selected component.
Those values arrive already serialised, and they may be large or deeply
nested. `parseProps` (`src/view/components/sidebar/inspect/parseProps.ts`)
turns such a value into a flat `Map<string, PropData>` with one node per
addressable slot:

- The node at `path` has children at `path.0`, `path.1`, … for an array, or at `path.key` for an object.
- Each node records its display `name`, its `type` tag, its `value`, whether the UI may edit it, its `depth`, and its children's addresses.
- The walk stops at a depth limit and puts a `"…"` placeholder there.
- Arrays are walked item by item.
- A native `Set` and `null` become leaves.
- Objects pass the "envelope" test when they have exactly two keys, a string `name`, and a `type` of `function`, `vnode`, `set`, `map`, `blob` or `symbol`. Such an object becomes one atomic leaf of that type.
- Any other object is walked key by key.
- Everything else is a scalar leaf, typed by `typeof`. It is editable unless it is `undefined` or the cycle marker `"[[Circular]]"`.

## Layout

- `values.dfy` (module `PropValues`) holds the data model:
  - the serialised input as a closed datatype `Value`;
  - the `PropDataType` union as `PropType`;
  - the `PropData` record;
  - `typeof` on scalars;
  - the envelope test `EnvelopeTag`.
- `addressing.dfy` (module `Addressing`) holds the addresses:
  - `ChildPath(p, key) = p + "." + key`;
  - the subtree relation `Under`;
  - the decimal index strings `NatToString`;
  - the children lists `IndexPaths` and `KeyPaths`.
- `catalog.dfy` (module `PropCatalogSpec`) holds two kinds of definition:
  - `Catalog(v, path, limit, depth, name)`, the entries one call writes, as a map. After a call the accumulator is `out + Catalog(...)`. `ItemsCatalog` and `FieldsCatalog` give the entries written by an array's items and an object's keys.
  - `NodeOk`, the invariants every written node keeps.
- `catalog_lemmas.dfy` (module `PropCatalogLemmas`) proves the properties of `Catalog`.
- `inspector.dfy` (module `Inspector`) holds the imperative walk.
  - The class `PropCatalog` holds the accumulator `out`.
  - Its recursive method `ParseProps` and the two `forEach` loops `ParseItems` and `ParseFields` update `out` in place, as the source does.
  - Each method is proved to leave exactly `old(out) + Catalog(...)`.
  - `ParseRoot` is the call with the default arguments.

## Model

| member | source | states |
|---|---|---|
| `PropValues.TypeOf` | src/view/components/sidebar/inspect/parseProps.ts:211-217 | `typeof` of a scalar is one of string, number, boolean, bigint, undefined, function or symbol, and it is `undefined` exactly for the undefined value |
| `PropValues.Lookup` | src/view/components/sidebar/inspect/parseProps.ts:96-97 | a property read finds a value exactly when the key is among the object's own keys, and the value found is the one at the key's first occurrence |
| `PropValues.EnvelopeTypeOf` | src/view/components/sidebar/inspect/parseProps.ts:97-177 | exactly the six tags function, vnode, set, map, blob and symbol are recognised, and each yields the node type of the same name |
| `PropValues.EnvelopeTag` | src/view/components/sidebar/inspect/parseProps.ts:92-188 | an object classified as an envelope has exactly two keys, and its `type` field holds the name of the node type it yields, which is one of the six envelope types |
| `PropCatalogLemmas.EnvelopeTagIff` | src/view/components/sidebar/inspect/parseProps.ts:92-188 | the envelope test yields type `t` if and only if `t` is one of the six tags and the object has two keys, a string `name` and `type` equal to `t`'s name |
| `Addressing.ChildPath` | src/view/components/sidebar/inspect/parseProps.ts:63 | a child address is the parent address, then a dot, then the key, and nothing else |
| `Addressing.NatToString` | src/view/components/sidebar/inspect/parseProps.ts:63-65 | the index string is a non-empty run of decimal digits (so it contains no dot), and it is one character long exactly for indices below ten |
| `Addressing.NatToStringValue` | src/view/components/sidebar/inspect/parseProps.ts:63-65 | the index string read back as a decimal number is the index itself, so it is the decimal string of `i` |
| `Addressing.NatToStringInjective` | src/view/components/sidebar/inspect/parseProps.ts:63 | two different indices never share an address |
| `Addressing.UnderChild` | src/view/components/sidebar/inspect/parseProps.ts:63 | every address in a child's subtree is in the parent's subtree and differs from the parent's address |
| `Addressing.DisjointSubtrees` | src/view/components/sidebar/inspect/parseProps.ts:203 | the subtrees of two different dot-free keys of one parent share no address |
| `Addressing.IndexPaths` | src/view/components/sidebar/inspect/parseProps.ts:62-64 | an array node's children list has one entry per item, and entry `i` is `path.i` |
| `Addressing.KeyPaths` | src/view/components/sidebar/inspect/parseProps.ts:202-204 | an object node's children list has one entry per key, in key order, and entry `i` is `path.key_i` |
| `PropCatalogLemmas.CatalogKeysUnder` | src/view/components/sidebar/inspect/parseProps.ts:36-208 | a call writes only its own `path` and addresses below `path + "."` |
| `PropCatalogLemmas.ItemsKeysUnder` | src/view/components/sidebar/inspect/parseProps.ts:62-66 | an array's items write strictly below the array's address, never at it |
| `PropCatalogLemmas.FieldsKeysUnder` | src/view/components/sidebar/inspect/parseProps.ts:202-206 | an object's keys write strictly below the object's address, never at it |
| `PropCatalogLemmas.CatalogNodesOk` | src/view/components/sidebar/inspect/parseProps.ts:36-222 | every node a call writes keeps the node invariants listed below |
| `PropCatalogLemmas.LeafNodeOk` | src/view/components/sidebar/inspect/parseProps.ts:67-188 | a value that is neither an array nor a generic object writes exactly one valid node, at `path` |
| `PropCatalogLemmas.ArrayNodesOk` | src/view/components/sidebar/inspect/parseProps.ts:50-66 | the array node and every entry written by its items are valid nodes |
| `PropCatalogLemmas.ObjectNodesOk` | src/view/components/sidebar/inspect/parseProps.ts:189-208 | the object node and every entry written by its keys are valid nodes |
| `PropCatalogLemmas.ItemsNodesOk` | src/view/components/sidebar/inspect/parseProps.ts:62-66 | every entry an array's items write is a valid node at the items' depth |
| `PropCatalogLemmas.FieldsNodesOk` | src/view/components/sidebar/inspect/parseProps.ts:202-206 | every entry an object's keys write is a valid node at the keys' depth |
| `PropCatalogLemmas.NodeOkWeaken` | src/view/components/sidebar/inspect/parseProps.ts:65 | a node valid for a child's call at `depth + 1` is valid for the parent's call at `depth` |
| `PropCatalogLemmas.ItemsMiss` | src/view/components/sidebar/inspect/parseProps.ts:62-66 | nothing written by the first `n` items lies in the subtree of an item with index `n` or above |
| `PropCatalogLemmas.ItemsOwn` | src/view/components/sidebar/inspect/parseProps.ts:62-66 | after the walk of the items, the subtree at `path.i` holds exactly what item `i` wrote: later items do not overwrite it |
| `PropCatalogLemmas.FieldsMiss` | src/view/components/sidebar/inspect/parseProps.ts:202-206 | with distinct dot-free keys, nothing written by the first `n` keys lies in the subtree of key `n` or a later one |
| `PropCatalogLemmas.FieldsOwn` | src/view/components/sidebar/inspect/parseProps.ts:202-206 | with distinct dot-free keys, the subtree at `path.key` holds exactly what that key's value wrote |
| `PropCatalogLemmas.CatalogRoot` | src/view/components/sidebar/inspect/parseProps.ts:36-222 | the call's own path is always written, with that id, the given name and the given depth |
| `PropCatalogLemmas.ArrayChildren` | src/view/components/sidebar/inspect/parseProps.ts:50-66 | an array node is a non-editable array node that holds the array itself and whose children are exactly `path.0 … path.(n-1)` in order. The subtree at `path.i` is exactly what item `i` writes there. That child is named with the decimal string of `i` and sits at `depth + 1` |
| `PropCatalogLemmas.ObjectChildren` | src/view/components/sidebar/inspect/parseProps.ts:189-208 | a non-envelope object gives a non-editable object node holding the object, whose children are `path.key` for each key in order. With distinct dot-free keys, each subtree at `path.key` is exactly the child's own entries, and the child is named `key` at `depth + 1` |
| `PropCatalogLemmas.DepthCutoff` | src/view/components/sidebar/inspect/parseProps.ts:36-48 | at or past the limit, the call writes only `path`: a non-editable string placeholder `"…"` with no children at the call's depth, whatever the value |
| `PropCatalogLemmas.EnvelopeLeaf` | src/view/components/sidebar/inspect/parseProps.ts:92-188 | an envelope writes only `path`: a non-editable leaf whose type names the tag and whose value is the whole object |
| `PropCatalogLemmas.TwoKeyFallThrough` | src/view/components/sidebar/inspect/parseProps.ts:92-208 | a two-key object that fails the envelope test for every tag becomes a generic object node listing its keys' addresses |
| `PropCatalogLemmas.NullAndSetLeaves` | src/view/components/sidebar/inspect/parseProps.ts:67-90 | `null` writes one non-editable null leaf; a native Set writes one non-editable set leaf with value `"Set"`; neither is walked |
| `PropCatalogLemmas.ScalarLeaf` | src/view/components/sidebar/inspect/parseProps.ts:211-222 | a scalar writes one leaf typed by `typeof` that holds the value, and the leaf is editable exactly when the value is neither undefined nor `"[[Circular]]"` |
| `PropCatalogLemmas.AccumulatorFrame` | src/view/components/sidebar/inspect/parseProps.ts:28-226 | after a call the accumulator holds `path`, every entry outside the subtree at `path` is as it was, and normalising the same value again changes nothing |
| `PropCatalogLemmas.ExampleArray` | src/view/components/sidebar/inspect/parseProps.ts:50-66 | `[1, "[[Circular]]"]` gives an array root with children `root.0` and `root.1`: an editable number and a non-editable cycle marker |
| `PropCatalogLemmas.ExampleCutoff` | src/view/components/sidebar/inspect/parseProps.ts:36-48 | `{a: {b: 1}}` with limit 1 gives an object root whose only child `root.a` is the placeholder at depth 1 |
| `PropCatalogLemmas.ExampleFunctionEnvelope` | src/view/components/sidebar/inspect/parseProps.ts:94-108 | `{name: "onClick", type: "function"}` gives exactly one function leaf holding the object |
| `PropCatalogLemmas.AddressCollision` | src/view/components/sidebar/inspect/parseProps.ts:202-206 | in `{"a.b": 1, a: {b: 2}}` both keys reach `path.a.b`, and the later one's node (named `b`, value 2, depth 2) is the one left |
| `PropCatalogLemmas.CollisionInner` | src/view/components/sidebar/inspect/parseProps.ts:189-208 | the inner object `{b: 2}` at `path.a` writes just `path.a` and `path.a.b` |
| `Inspector.PropCatalog.constructor` | src/view/components/sidebar/inspect/parseProps.ts:34 | a fresh accumulator is empty |
| `Inspector.PropCatalog.ParseProps` | src/view/components/sidebar/inspect/parseProps.ts:28-226 | the walk updates the accumulator in place, and afterwards it is exactly the old accumulator overridden by the call's catalog |
| `Inspector.PropCatalog.ParseItems` | src/view/components/sidebar/inspect/parseProps.ts:62-66 | the item loop returns the children list `path.0 … path.(n-1)` and adds exactly the items' entries to the accumulator |
| `Inspector.PropCatalog.ParseFields` | src/view/components/sidebar/inspect/parseProps.ts:202-206 | the key loop returns `path.key` for each key in order and adds exactly the keys' entries to the accumulator |
| `Inspector.ParseRoot` | src/view/components/sidebar/inspect/parseProps.ts:28-35 | with depth 0, name `path` and a fresh map, the result is the catalog of the value. It holds `path` and only addresses in its subtree, and every node in it is valid |
| `Inspector.UnionAssoc` | src/view/components/sidebar/inspect/parseProps.ts:62-66 | proof step of the item and key loops, not a model of a source line: map union is associative, so adding one child's entries after the earlier children's entries equals adding all of them together |
| `Inspector.OverwriteAfterUnion` | src/view/components/sidebar/inspect/parseProps.ts:200-208 | storing the object node before and after walking the keys leaves only the second store |

A node is valid (`NodeOk(k, n, d, limit)`, for a call that starts at depth `d`) when all of these hold:

- the node's `id` is its key;
- `d <= depth`, and `depth <= limit` unless the depth is `d` itself;
- every node at or past the limit is the `"…"` placeholder;
- it is editable exactly when it is a scalar leaf below the limit whose value is neither undefined nor the cycle marker;
- only array and object nodes have children;
- its type agrees with its value. An array node lists `path.0 … path.(n-1)`, and an object node holds a non-envelope object and lists `path.key` for its keys in order.

Re-running on the same input with fresh accumulators gives equal maps. This follows from `ParseRoot`: its result is a function of its inputs.

## Left out

- `src/shells/shared/panel/settings.ts` is not part of this model. It is asynchronous browser storage and DOM plumbing.
- `src/view/components/Sidebar.tsx` is not part of this model. It is UI rendering.
- The `meta` field of `PropData` is always `null` and is dropped.
- JavaScript's runtime probes are replaced by the closed `Value` datatype: `Array.isArray`, `instanceof Set`, `typeof`, prototype-inherited properties, the ordering of integer-like keys in `Object.keys`, and holes in sparse arrays (which `forEach` skips). Object keys are a given sequence.
- Numbers and bigints are opaque payloads (`Num(int)`, `BigNum(int)`). Floating point is not modelled. `limit` and `depth` are unbounded integers, so a `NaN` or fractional limit is not modelled.
- The aliasing of the node's `children` array is not modelled as shared state. The source stores the array node once and then pushes into the `children` array that the stored node shares. The model stores the finished node again after the loop (`ParseProps`, array branch). The final map is the same, because no descendant writes the parent's own address (`ItemsKeysUnder`).
- The six envelope branches at lines 94-188 are one branch in `ParseProps`. They differ only in the tag they store, and their tests are mutually exclusive.
- `PropCatalogLemmas.ObjectChildren`: per-child ownership of `path.key` is proved only when the keys are distinct and contain no dot. Dotted keys can make two nodes compete for one address, and then the later write wins. `AddressCollision` states this behaviour on a concrete input.
- Element nodes are tagged `vnode` (lines 13 and 113), and `EnvelopeTypeOf` uses that tag.
- `PropCatalogSpec.NodeOk`: an empty array or object has no children either, so "no children" does not imply "leaf". Only one direction is stated: non-empty children imply an array or object node.
- `PropCatalogSpec.NodeOk`: a placeholder sits exactly at the limit only when the call starts at or below the limit. In general its depth is at most the larger of the start depth and the limit.
- Addresses are not unique when keys contain dots: two nodes can be written to the same address, and the later one wins (`AddressCollision`).
- Duplicate keys in one `Obj` are outside the input domain, since `Object.keys` never returns a key twice. On such an input the envelope test would read the first occurrence (`Lookup`) while the key walk would leave the last one's entries.
