/**
  `ingest/cleaner.py`: removal of framework-generated attribute keys from
  a captured snapshot, recursively through children and shadow roots.
  The six key patterns are anchored regular expressions; each is modelled
  as the exact, prefix or `ember`-plus-digits test it amounts to.
 */
module Cleaner {
  import opened Wrappers
  import opened Models

  /** The shapes the six anchored patterns take. */
  datatype Pattern =
    | Exactly(s: string)        // ^s$
    | StartsWith(s: string)     // ^s.*$
    | DigitsAfter(s: string)    // ^s\d+$

  /** `dynamic_patterns`, in order. */
  const DynamicPatterns: seq<Pattern> := [
    Exactly("data-reactid"),
    StartsWith("ng-content-"),
    StartsWith("_ngcontent-"),
    StartsWith("data-v-"),
    DigitsAfter("ember"),
    StartsWith("react-id")
  ]

  predicate IsDigit(c: char) {
    '0' <= c <= '9'
  }

  /** `pattern.match(key)`. */
  predicate PatternMatches(p: Pattern, key: string) {
    match p
    case Exactly(s) => key == s
    case StartsWith(s) => s <= key
    case DigitsAfter(s) =>
      s <= key && |key| > |s| && forall i | |s| <= i < |key| :: IsDigit(key[i])
  }

  /** The loop of `_is_dynamic` over the compiled patterns: true as soon as
      one matches. */
  function AnyMatch(ps: seq<Pattern>, key: string): (r: bool)
    ensures r <==> exists i | 0 <= i < |ps| :: PatternMatches(ps[i], key)
  {
    if ps == [] then false
    else if PatternMatches(ps[0], key) then true
    else
      var r := AnyMatch(ps[1..], key);
      assert forall i | 1 <= i < |ps| :: ps[i] == ps[1..][i - 1];
      r
  }

  /** The keys the cleaner removes, spelt out. */
  predicate DynamicKey(key: string) {
    || key == "data-reactid"
    || "ng-content-" <= key
    || "_ngcontent-" <= key
    || "data-v-" <= key
    || ("ember" <= key && |key| > 5 && forall i | 5 <= i < |key| :: IsDigit(key[i]))
    || "react-id" <= key
  }

  /** Some pattern of the list matches exactly when the key has one of the
      six shapes. */
  lemma DynamicPatternsMatch(key: string)
    ensures AnyMatch(DynamicPatterns, key) <==> DynamicKey(key)
  {
    var ps := DynamicPatterns;
    if DynamicKey(key) {
      if key == "data-reactid" {
        assert PatternMatches(ps[0], key);
      } else if "ng-content-" <= key {
        assert PatternMatches(ps[1], key);
      } else if "_ngcontent-" <= key {
        assert PatternMatches(ps[2], key);
      } else if "data-v-" <= key {
        assert PatternMatches(ps[3], key);
      } else if "react-id" <= key {
        assert PatternMatches(ps[5], key);
      } else {
        assert PatternMatches(ps[4], key);
      }
    }
  }

  /** `_is_dynamic(key, value)`: a key is dynamic exactly when it has one of
      the six shapes. The value test on `id` does nothing, so the value is
      never consulted. */
  function IsDynamic(key: string, value: string): (r: bool)
    ensures r <==> DynamicKey(key)
  {
    DynamicPatternsMatch(key);
    AnyMatch(DynamicPatterns, key)
  }

  /** The attribute map without its dynamic keys. */
  function CleanAttributes(m: map<string, string>): (r: map<string, string>)
    ensures r.Keys <= m.Keys
    ensures forall k | k in r :: r[k] == m[k] && !DynamicKey(k)
    ensures forall k | k in m && !DynamicKey(k) :: k in r
  {
    map k | k in m && !IsDynamic(k, m[k]) :: m[k]
  }

  /** The `attributes` entry after cleaning: only a present, non-empty map
      is filtered. */
  function CleanAttributeEntry(a: Option<map<string, string>>): (r: Option<map<string, string>>)
    ensures r.Some? <==> a.Some?
    ensures a.Some? ==> r.value == CleanAttributes(a.value)
  {
    if a.Some? && a.value != map[] then Some(CleanAttributes(a.value)) else a
  }

  /** `clean(dom_node)`: the snapshot rebuilt with every attribute map of the
      tree filtered, children and shadow root included. */
  function Clean(d: Snapshot): (r: Snapshot)
    ensures r.nodeName == d.nodeName && r.nodeValue == d.nodeValue
    ensures r.attributes == CleanAttributeEntry(d.attributes)
    ensures r.children.Listed? <==> d.children.Listed?
    ensures |Items(r.children)| == |Items(d.children)|
    ensures r.shadowRoot.Some? <==> d.shadowRoot.Some?
    ensures IsEmpty(r) <==> IsEmpty(d)
    decreases d, 1
  {
    Snapshot(
      d.nodeName,
      CleanAttributeEntry(d.attributes),
      d.nodeValue,
      if d.children.Listed? then Listed(CleanAll(d.children.items)) else Missing,
      if d.shadowRoot.Some? then Some(Clean(d.shadowRoot.value)) else None)
  }

  /** The loop over `children`, each child cleaned in place. */
  function CleanAll(cs: seq<Snapshot>): (rs: seq<Snapshot>)
    ensures |rs| == |cs|
    decreases cs, 0
  {
    if cs == [] then [] else [Clean(cs[0])] + CleanAll(cs[1..])
  }

  lemma {:induction false} CleanAllAt(cs: seq<Snapshot>)
    ensures forall j | 0 <= j < |cs| :: CleanAll(cs)[j] == Clean(cs[j])
    decreases |cs|
  {
    if cs != [] {
      CleanAllAt(cs[1..]);
    }
  }

  /** No attribute map anywhere in the tree has a dynamic key. */
  predicate Clear(d: Snapshot)
    decreases d, 1
  {
    && (d.attributes.Some? ==> forall k | k in d.attributes.value :: !DynamicKey(k))
    && (d.children.Listed? ==> AllClear(d.children.items))
    && (d.shadowRoot.Some? ==> Clear(d.shadowRoot.value))
  }

  predicate AllClear(cs: seq<Snapshot>)
    decreases cs, 0
  {
    cs == [] || (Clear(cs[0]) && AllClear(cs[1..]))
  }

  /** After cleaning, no attribute key anywhere in the tree is dynamic. */
  lemma {:induction false} CleanLeavesNoDynamicKey(d: Snapshot)
    ensures Clear(Clean(d))
    decreases d, 1
  {
    if d.children.Listed? {
      CleanAllLeavesNoDynamicKey(d.children.items);
    }
    if d.shadowRoot.Some? {
      CleanLeavesNoDynamicKey(d.shadowRoot.value);
    }
  }

  lemma {:induction false} CleanAllLeavesNoDynamicKey(cs: seq<Snapshot>)
    ensures AllClear(CleanAll(cs))
    decreases cs, 0
  {
    if cs != [] {
      CleanLeavesNoDynamicKey(cs[0]);
      CleanAllLeavesNoDynamicKey(cs[1..]);
      assert CleanAll(cs)[1..] == CleanAll(cs[1..]);
    }
  }

  /** A tree with no dynamic key is left as it is. */
  lemma {:induction false} CleanKeepsClearTree(d: Snapshot)
    requires Clear(d)
    ensures Clean(d) == d
    decreases d, 1
  {
    if d.attributes.Some? {
      assert CleanAttributes(d.attributes.value) == d.attributes.value;
    }
    if d.children.Listed? {
      CleanAllKeepsClearTrees(d.children.items);
    }
    if d.shadowRoot.Some? {
      CleanKeepsClearTree(d.shadowRoot.value);
    }
  }

  lemma {:induction false} CleanAllKeepsClearTrees(cs: seq<Snapshot>)
    requires AllClear(cs)
    ensures CleanAll(cs) == cs
    decreases cs, 0
  {
    if cs != [] {
      CleanKeepsClearTree(cs[0]);
      CleanAllKeepsClearTrees(cs[1..]);
    }
  }

  /** Cleaning is idempotent. */
  lemma CleanIdempotent(d: Snapshot)
    ensures Clean(Clean(d)) == Clean(d)
  {
    CleanLeavesNoDynamicKey(d);
    CleanKeepsClearTree(Clean(d));
  }

  // ---------------------------------------------------------------------
  // Cleaning, then parsing
  // ---------------------------------------------------------------------

  /** The parsed tree with every node's attributes filtered. */
  function CleanNode(n: Node): Node
    decreases n, 1
  {
    n.(attributes := CleanAttributes(n.attributes), children := CleanNodes(n.children))
  }

  function CleanNodes(ns: seq<Node>): (rs: seq<Node>)
    ensures |rs| == |ns|
    decreases ns, 0
  {
    if ns == [] then [] else [CleanNode(ns[0])] + CleanNodes(ns[1..])
  }

  lemma {:induction false} CleanNodesConcat(a: seq<Node>, b: seq<Node>)
    ensures CleanNodes(a + b) == CleanNodes(a) + CleanNodes(b)
    decreases |a|
  {
    if a == [] {
      assert a + b == b;
    } else {
      assert (a + b)[1..] == a[1..] + b;
      CleanNodesConcat(a[1..], b);
    }
  }

  lemma KeptUnchanged(c: Snapshot)
    ensures Kept(Clean(c)) <==> Kept(c)
    ensures HasShadow(Clean(c)) <==> HasShadow(c)
  {
  }

  /** Parsing a cleaned snapshot gives the parsed snapshot with its
      attribute maps filtered: the cleaner changes nothing `from_json` reads
      but the attributes. */
  lemma {:induction false} ParseAfterClean(d: Snapshot)
    ensures Parse(Clean(d)) == CleanNode(Parse(d))
    decreases d, 2
  {
    var c := Clean(d);
    KeptUnchanged(d);
    if !IsEmpty(d) {
      ParseShape(d);
      ParseShape(c);
      assert TagFor(c.nodeName) == TagFor(d.nodeName);
      if d.children.Listed? {
        ParseChildrenAfterClean(d.children.items);
      }
      assert ParseChildren(Items(c.children)) == CleanNodes(ParseChildren(Items(d.children)));
      ShadowAfterClean(d);
      var tail := if HasShadow(d) then [ShadowWrapper(d)] else [];
      CleanNodesConcat(ParseChildren(Items(d.children)), tail);
    } else {
      assert CleanAttributes(map[]) == map[];
    }
  }

  /** The shadow-root wrapper of a cleaned snapshot is the cleaned wrapper. */
  lemma {:induction false} ShadowAfterClean(d: Snapshot)
    ensures CleanNodes(if HasShadow(d) then [ShadowWrapper(d)] else []) ==
            (if HasShadow(Clean(d)) then [ShadowWrapper(Clean(d))] else [])
    decreases d, 1
  {
    KeptUnchanged(d);
    if HasShadow(d) {
      ParseAfterClean(d.shadowRoot.value);
      assert ShadowWrapper(Clean(d)) == CleanNode(ShadowWrapper(d));
    }
  }

  lemma {:induction false} ParseChildrenAfterClean(cs: seq<Snapshot>)
    ensures ParseChildren(CleanAll(cs)) == CleanNodes(ParseChildren(cs))
    decreases cs, 0
  {
    if cs != [] {
      KeptUnchanged(cs[0]);
      ParseChildrenAfterClean(cs[1..]);
      assert CleanAll(cs)[0] == Clean(cs[0]);
      assert CleanAll(cs)[1..] == CleanAll(cs[1..]);
      if Kept(cs[0]) {
        ParseAfterClean(cs[0]);
        CleanNodesConcat([Parse(cs[0])], ParseChildren(cs[1..]));
      }
    }
  }
}
