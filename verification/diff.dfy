/**
  The cost model `analyze/diff.py` hands to the tree-edit-distance library:
  `DOMTreeConfig.rename` and `DOMTreeConfig.children`. The edit-distance
  computation itself belongs to that library and is not part of this model.
 */
module Diff {
  import opened Wrappers
  import opened Models
  import opened Text

  /** The attribute keys of either node. */
  function KeyUnion(a: Node, b: Node): set<string> {
    a.attributes.Keys + b.attributes.Keys
  }

  /** The keys on which the two nodes disagree; an absent key differs from
      any present value. */
  function Mismatched(a: Node, b: Node): (ks: set<string>)
    ensures ks <= KeyUnion(a, b)
  {
    set k | k in KeyUnion(a, b) && Get(a.attributes, k) != Get(b.attributes, k)
  }

  function Min(x: real, y: real): real {
    if x <= y then x else y
  }

  /** `DOMTreeConfig.rename(a, b)`, in exact rational arithmetic. */
  function Rename(a: Node, b: Node): (cost: real)
    ensures a.tag != b.tag ==> cost == 1.0
    ensures a.tag == b.tag ==> 0.0 <= cost <= 0.5
  {
    if a.tag != b.tag then 1.0
    else
      var keys := KeyUnion(a, b);
      if |keys| == 0 then 0.0
      else
        var m := |Mismatched(a, b)|;
        SubsetCardinality(Mismatched(a, b), keys);
        RatioAtMostOne(m, |keys|);
        Min(0.5, (m as real / |keys| as real) * 0.5)
  }

  lemma SubsetCardinality(x: set<string>, y: set<string>)
    requires x <= y
    ensures |x| <= |y|
  {
    assert y == x + (y - x);
  }

  lemma RatioAtMostOne(m: nat, k: nat)
    requires 0 < k && m <= k
    ensures 0.0 <= m as real / k as real <= 1.0
  {
  }

  /** `DOMTreeConfig.children(node)`: the node's children, in order, with
      no re-sorting or deduplication. */
  function Children(n: Node): (cs: seq<Node>)
    ensures |cs| == |n.children|
    ensures forall i | 0 <= i < |cs| :: cs[i] == n.children[i]
  {
    n.children
  }

  /** The `min(0.5, ...)` cap never binds: a same-tag rename costs exactly
      half the fraction of mismatched keys. */
  lemma CapNeverBinds(a: Node, b: Node)
    requires a.tag == b.tag && |KeyUnion(a, b)| > 0
    ensures Rename(a, b) == 0.5 * (|Mismatched(a, b)| as real / |KeyUnion(a, b)| as real)
  {
    var keys := KeyUnion(a, b);
    SubsetCardinality(Mismatched(a, b), keys);
    RatioAtMostOne(|Mismatched(a, b)|, |keys|);
  }

  /** A same-tag rename is free exactly when the attribute maps are equal. */
  lemma RenameFreeIffSameAttributes(a: Node, b: Node)
    requires a.tag == b.tag
    ensures Rename(a, b) == 0.0 <==> a.attributes == b.attributes
  {
    var keys := KeyUnion(a, b);
    if a.attributes == b.attributes {
      assert Mismatched(a, b) == {};
    } else {
      var k := DisagreeingKey(a.attributes, b.attributes);
      assert k in Mismatched(a, b);
      assert |Mismatched(a, b)| > 0;
      assert |keys| > 0;
      CapNeverBinds(a, b);
      PositiveRatio(|Mismatched(a, b)|, |keys|);
    }
  }

  lemma PositiveRatio(m: nat, k: nat)
    requires 0 < m && 0 < k
    ensures m as real / k as real > 0.0
  {
  }

  /** Two different maps disagree on some key of either. */
  lemma DisagreeingKey(x: map<string, string>, y: map<string, string>) returns (k: string)
    requires x != y
    ensures k in x.Keys + y.Keys && Get(x, k) != Get(y, k)
  {
    if x.Keys != y.Keys {
      if k0 :| k0 in x.Keys && k0 !in y.Keys {
        k := k0;
      } else {
        k :| k in y.Keys && k !in x.Keys;
      }
    } else {
      k :| k in x && x[k] != y[k];
    }
  }

  /** The cost is symmetric. */
  lemma RenameSymmetric(a: Node, b: Node)
    ensures Rename(a, b) == Rename(b, a)
  {
    assert KeyUnion(a, b) == KeyUnion(b, a);
    assert Mismatched(a, b) == Mismatched(b, a);
  }

  /** Equal nodes rename for free, but a free rename does not make two
      nodes equal: the cost never looks at the text, which equality does. */
  lemma FreeRenameIsNotEquality()
    ensures forall a: Node, b: Node :: Same(a, b) ==> Rename(a, b) == 0.0
    ensures var a := Node("p", map[], [], "old");
            var b := Node("p", map[], [], "new");
            Rename(a, b) == 0.0 && Differs(a, b)
  {
    forall a: Node, b: Node | Same(a, b)
      ensures Rename(a, b) == 0.0
    {
      RenameFreeIffSameAttributes(a, b);
    }
  }

  /** The snapshot `body > div` with the div's `id` set to `v`, as in the
      example at the bottom of `analyze/diff.py` (there `v` is `a` or `b`). */
  function ExampleTree(v: string): Snapshot {
    Snapshot(Some("body"), None, None, Listed([ExampleDiv(v)]), None)
  }

  function ExampleDiv(v: string): Snapshot {
    Snapshot(Some("div"), Some(map["id" := v]), None, Missing, None)
  }

  /** The example tree parses to a bare `body` with one `div` child carrying
      just the id. */
  lemma ParseExample(v: string)
    ensures Parse(ExampleTree(v)).tag == "body" && Parse(ExampleTree(v)).attributes == map[]
    ensures |Parse(ExampleTree(v)).children| == 1
    ensures Parse(ExampleTree(v)).children[0].tag == "div"
    ensures Parse(ExampleTree(v)).children[0].attributes == map["id" := v]
  {
    var d := ExampleDiv(v);
    var t := ExampleTree(v);
    assert Lower("body") == "body";
    assert Lower("div") == "div";
    assert KeptChildren([d]) == [d];
    ParsedChildren(t);
  }

  /** The example: two trees differing only in the div's id. The bodies
      rename for free and the divs cost 0.5, one key of one differing. */
  lemma BundledExample(x: string, y: string)
    requires x != y
    ensures var r1 := Parse(ExampleTree(x));
            var r2 := Parse(ExampleTree(y));
            && |r1.children| == 1 && |r2.children| == 1
            && Rename(r1, r2) == 0.0
            && Rename(r1.children[0], r2.children[0]) == 0.5
  {
    ParseExample(x);
    ParseExample(y);
    var r1 := Parse(ExampleTree(x));
    var r2 := Parse(ExampleTree(y));
    assert KeyUnion(r1, r2) == {};
    OneKeyDiffers(r1.children[0], r2.children[0], x, y);
  }

  /** Same-tag nodes whose only attribute is `id`, with different values,
      cost half. */
  lemma OneKeyDiffers(a: Node, b: Node, x: string, y: string)
    requires a.tag == b.tag && x != y
    requires a.attributes == map["id" := x] && b.attributes == map["id" := y]
    ensures Rename(a, b) == 0.5
  {
    assert KeyUnion(a, b) == {"id"};
    assert Mismatched(a, b) == {"id"};
    CapNeverBinds(a, b);
  }
}
