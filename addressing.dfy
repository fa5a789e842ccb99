/**
 * Dotted addresses of catalog nodes: a child of the node at `p` under key
 * `key` lives at `p + "." + key` (parseProps.ts, lines 63 and 203), and an
 * array index is written as its decimal string (line 65, `"" + i`).
 */
module Addressing {

  /** The address of the child `key` of the node at `p`. */
  function ChildPath(p: string, key: string): (r: string)
    ensures |r| == |p| + 1 + |key|
    ensures r[..|p| + 1] == p + "." && r[|p| + 1..] == key
  {
    p + "." + key
  }

  /** `k` is the address `p` itself or an address inside the subtree at `p`. */
  predicate Under(k: string, p: string)
  {
    k == p || p + "." <= k
  }

  /** The decimal digit for `d`. */
  function Digit(d: nat): (c: char)
    requires d < 10
    ensures '0' <= c <= '9' && c as int - '0' as int == d
  {
    (48 + d) as char
  }

  /** The decimal string of `n`, as JavaScript's `"" + n` writes a non-negative integer. */
  function NatToString(n: nat): (s: string)
    ensures 1 <= |s|
    ensures n < 10 <==> |s| == 1
    ensures forall i :: 0 <= i < |s| ==> '0' <= s[i] <= '9'
    ensures '.' !in s
  {
    if n < 10 then [Digit(n)] else NatToString(n / 10) + [Digit(n % 10)]
  }

  /** The number a string of decimal digits denotes, read most significant digit first. */
  function DecValue(s: string): int
  {
    if |s| == 0 then 0 else DecValue(s[..|s| - 1]) * 10 + (s[|s| - 1] as int - '0' as int)
  }

  /** `NatToString(n)` reads back as `n`: it is the decimal string of `n`. */
  lemma {:induction false} NatToStringValue(n: nat)
    ensures DecValue(NatToString(n)) == n
  {
    var s := NatToString(n);
    if n >= 10 {
      assert s[..|s| - 1] == NatToString(n / 10);
      NatToStringValue(n / 10);
    }
  }

  /** Different indices have different decimal strings. */
  lemma {:induction false} NatToStringInjective(a: nat, b: nat)
    requires NatToString(a) == NatToString(b)
    ensures a == b
  {
    var s := NatToString(a);
    if a >= 10 && b >= 10 {
      assert NatToString(a / 10) == s[..|s| - 1] == NatToString(b / 10);
      NatToStringInjective(a / 10, b / 10);
      assert Digit(a % 10) == s[|s| - 1] == Digit(b % 10);
    } else if a < 10 && b < 10 {
      assert Digit(a) == s[0] == Digit(b);
    }
  }

  /** Every address inside a child's subtree is inside the parent's subtree, and is not the parent. */
  lemma UnderChild(k: string, p: string, key: string)
    requires Under(k, ChildPath(p, key))
    ensures Under(k, p) && k != p
  {
  }

  /**
   * The subtrees of two different dot-free keys of one parent share no
   * address: this is what makes each child own its subtree.
   */
  lemma DisjointSubtrees(p: string, a: string, b: string, k: string)
    requires '.' !in a && '.' !in b && a != b
    requires Under(k, ChildPath(p, a))
    ensures !Under(k, ChildPath(p, b))
  {
    var ca, cb := ChildPath(p, a), ChildPath(p, b);
    assert ca <= k;
    if |a| == |b| {
      assert ca[|p| + 1..] != cb[|p| + 1..];
      assert k[..|cb|] == ca != cb;
    } else if |a| < |b| {
      var j := |ca|;
      if k != ca {
        assert ca + "." <= k;
        assert k[j] == '.';
        assert cb[j] == b[j - |p| - 1];
        assert cb[j] != k[j];
      }
    } else {
      var j := |cb|;
      assert k[j] == ca[j] == a[j - |p| - 1];
      assert k[j] != '.';
    }
  }

  /** The addresses `p.0, p.1, …, p.(n-1)`: the children of an array node with `n` items. */
  function IndexPaths(p: string, n: nat): (r: seq<string>)
    ensures |r| == n
    ensures forall i :: 0 <= i < n ==> r[i] == ChildPath(p, NatToString(i))
  {
    if n == 0 then [] else IndexPaths(p, n - 1) + [ChildPath(p, NatToString(n - 1))]
  }

  /** The addresses `p.key` for each key in order: the children of an object node. */
  function KeyPaths<V>(p: string, fields: seq<(string, V)>): (r: seq<string>)
    ensures |r| == |fields|
    ensures forall i :: 0 <= i < |fields| ==> r[i] == ChildPath(p, fields[i].0)
  {
    if |fields| == 0 then []
    else KeyPaths(p, fields[..|fields| - 1]) + [ChildPath(p, fields[|fields| - 1].0)]
  }
}
