/**
  `generator/robula.py`: the weight table of `RobulaPlus`, the match
  counter behind `_is_unique`, and `generate_xpath`, which tries an id
  selector, then class selectors, and falls back to a tag selector,
  accepting the first candidate the counter finds unique in the context
  tree.
 */
module Robula {
  import opened Wrappers
  import opened Text
  import opened Models
  import opened Selector

  /** Attribute trust weights, keyed by attribute class. */
  type Weights = map<string, real>

  /** `weights.get(k, 0)`. */
  function WeightOf(w: Weights, k: string): real {
    if k in w then w[k] else 0.0
  }

  /** `weights.setdefault(k, v)`. */
  function SetDefault(w: Weights, k: string, v: real): (r: Weights)
    ensures r.Keys == w.Keys + {k}
    ensures forall j | j in w :: r[j] == w[j]
    ensures k !in w ==> r[k] == v
  {
    if k in w then w else w[k := v]
  }

  /** The first three `setdefault` calls, for the attribute classes. */
  function AttributeDefaults(w: Weights): (r: Weights)
    ensures r.Keys == w.Keys + {"id", "class", "name"}
    ensures forall k | k in w :: r[k] == w[k]
    ensures "id" !in w ==> r["id"] == 1.0
    ensures "class" !in w ==> r["class"] == 0.8
    ensures "name" !in w ==> r["name"] == 0.8
  {
    SetDefault(SetDefault(SetDefault(w, "id", 1.0), "class", 0.8), "name", 0.8)
  }

  /** `RobulaPlus(adaptive_weights).weights`: the caller's table with the
      five defaults filled in where a key is missing. */
  function WithDefaults(w: Weights): (r: Weights)
    ensures r.Keys == w.Keys + {"id", "class", "name", "text", "tag"}
    ensures forall k | k in w :: r[k] == w[k]
    ensures "id" !in w ==> r["id"] == 1.0
    ensures "class" !in w ==> r["class"] == 0.8
    ensures "name" !in w ==> r["name"] == 0.8
    ensures "text" !in w ==> r["text"] == 0.5
    ensures "tag" !in w ==> r["tag"] == 0.2
  {
    SetDefault(SetDefault(AttributeDefaults(w), "text", 0.5), "tag", 0.2)
  }

  /** The table of `RobulaPlus()` built without weights. */
  function DefaultWeights(): (w: Weights)
    ensures w == map["id" := 1.0, "class" := 0.8, "name" := 0.8, "text" := 0.5, "tag" := 0.2]
  {
    WithDefaults(map[])
  }

  // ---------------------------------------------------------------------
  // Counting matches
  // ---------------------------------------------------------------------

  /** `traverse`'s test of one node: every target that is set (truthy) must
      hold; a tag target of `*` holds of every node. */
  predicate Matches(q: Query, n: Node) {
    && (!Truthy(q.tag) || q.tag.value == "*" || n.tag == q.tag.value)
    && (!Truthy(q.id) || IdOf(n) == q.id)
    && (!Truthy(q.exactClass) || Get(n.attributes, "class") == q.exactClass)
    && (!Truthy(q.containsClass) || q.containsClass.value in ClassesOf(n))
  }

  /** `traverse`: the matching nodes of the subtree, root included. */
  function CountQuery(q: Query, n: Node): nat
    decreases n, 1
  {
    (if Matches(q, n) then 1 else 0) + CountQueryAll(q, n.children)
  }

  function CountQueryAll(q: Query, ns: seq<Node>): nat
    decreases ns, 0
  {
    if ns == [] then 0 else CountQuery(q, ns[0]) + CountQueryAll(q, ns[1..])
  }

  /** Number of entries of `ns` the query matches. */
  function MatchingIn(q: Query, ns: seq<Node>): (k: nat)
    ensures k <= |ns|
  {
    if ns == [] then 0 else (if Matches(q, ns[0]) then 1 else 0) + MatchingIn(q, ns[1..])
  }

  lemma {:induction false} MatchingInConcat(q: Query, a: seq<Node>, b: seq<Node>)
    ensures MatchingIn(q, a + b) == MatchingIn(q, a) + MatchingIn(q, b)
    decreases |a|
  {
    if a == [] {
      assert a + b == b;
    } else {
      assert (a + b)[1..] == a[1..] + b;
      MatchingInConcat(q, a[1..], b);
    }
  }

  /** The recursive traversal counts exactly the matching entries of the
      tree's pre-order listing, every node including the root once. */
  lemma {:induction false} CountIsPreOrderCount(q: Query, n: Node)
    ensures CountQuery(q, n) == MatchingIn(q, PreOrder(n))
    decreases n, 1
  {
    CountAllIsPreOrderCount(q, n.children);
    MatchingInConcat(q, [n], PreOrderAll(n.children));
  }

  lemma {:induction false} CountAllIsPreOrderCount(q: Query, ns: seq<Node>)
    ensures CountQueryAll(q, ns) == MatchingIn(q, PreOrderAll(ns))
    decreases ns, 0
  {
    if ns != [] {
      CountIsPreOrderCount(q, ns[0]);
      CountAllIsPreOrderCount(q, ns[1..]);
      MatchingInConcat(q, PreOrder(ns[0]), PreOrderAll(ns[1..]));
    }
  }

  lemma {:induction false} MatchingInAll(q: Query, ns: seq<Node>)
    requires q == NoConstraint
    ensures MatchingIn(q, ns) == |ns|
    decreases |ns|
  {
    if ns != [] {
      MatchingInAll(q, ns[1..]);
    }
  }

  lemma {:induction false} MatchingInMember(q: Query, ns: seq<Node>, j: nat)
    requires j < |ns| && Matches(q, ns[j])
    ensures MatchingIn(q, ns) >= 1
    decreases |ns|
  {
    if j > 0 {
      MatchingInMember(q, ns[1..], j - 1);
    }
  }

  /** A count never exceeds the size of the tree, a selector with no
      recognised constraint counts every node, and a node of the tree that
      satisfies the constraints is counted. */
  lemma CountBounds(q: Query, tree: Node)
    ensures CountQuery(q, tree) <= |PreOrder(tree)|
    ensures q == NoConstraint ==> CountQuery(q, tree) == |PreOrder(tree)|
    ensures forall j | 0 <= j < |PreOrder(tree)| && Matches(q, PreOrder(tree)[j]) :: CountQuery(q, tree) >= 1
  {
    CountIsPreOrderCount(q, tree);
    if q == NoConstraint {
      MatchingInAll(q, PreOrder(tree));
    }
    forall j | 0 <= j < |PreOrder(tree)| && Matches(q, PreOrder(tree)[j])
      ensures CountQuery(q, tree) >= 1
    {
      MatchingInMember(q, PreOrder(tree), j);
    }
  }

  /** `_count_matches(x, tree)`: the number of nodes of the tree, root
      included, that satisfy what the reader finds in `x`. */
  function CountMatches(x: string, tree: Node): (n: nat)
    ensures n == MatchingIn(ParseSelector(x), PreOrder(tree))
    ensures n <= |PreOrder(tree)|
  {
    CountIsPreOrderCount(ParseSelector(x), tree);
    CountQuery(ParseSelector(x), tree)
  }

  /** Entry `j` is the one entry of `ns` the query matches. */
  predicate OnlyMatch(q: Query, ns: seq<Node>, j: nat) {
    j < |ns| && Matches(q, ns[j]) && forall i | 0 <= i < |ns| && Matches(q, ns[i]) :: i == j
  }

  /** `_is_unique(x, tree)`: exactly one node of the tree satisfies the
      selector. */
  function IsUnique(x: string, tree: Node): (r: bool)
    ensures r ==> exists j: nat :: OnlyMatch(ParseSelector(x), PreOrder(tree), j)
    ensures (exists j: nat :: OnlyMatch(ParseSelector(x), PreOrder(tree), j)) ==> r
  {
    UniqueCountMeaning(x, tree);
    CountMatches(x, tree) == 1
  }

  lemma UniqueCountMeaning(x: string, tree: Node)
    ensures CountMatches(x, tree) == 1 ==> exists j: nat :: OnlyMatch(ParseSelector(x), PreOrder(tree), j)
    ensures (exists j: nat :: OnlyMatch(ParseSelector(x), PreOrder(tree), j)) ==> CountMatches(x, tree) == 1
  {
    var q, ns := ParseSelector(x), PreOrder(tree);
    if CountMatches(x, tree) == 1 {
      var j := OnlyMatchOfOne(q, ns);
      assert OnlyMatch(q, ns, j);
    }
    if j: nat :| OnlyMatch(q, ns, j) {
      OneOfOnlyMatch(q, ns, j);
      assert CountMatches(x, tree) == MatchingIn(q, ns);
    }
  }

  lemma {:induction false} MatchingInNone(q: Query, ns: seq<Node>)
    requires forall i | 0 <= i < |ns| :: !Matches(q, ns[i])
    ensures MatchingIn(q, ns) == 0
    decreases |ns|
  {
    if ns != [] {
      MatchingInNone(q, ns[1..]);
    }
  }

  lemma {:induction false} OnlyMatchOfOne(q: Query, ns: seq<Node>) returns (j: nat)
    requires MatchingIn(q, ns) == 1
    ensures OnlyMatch(q, ns, j)
    decreases |ns|
  {
    if Matches(q, ns[0]) {
      j := 0;
      forall i | 0 < i < |ns| && Matches(q, ns[i])
        ensures false
      {
        MatchingInMember(q, ns[1..], i - 1);
      }
    } else {
      var j' := OnlyMatchOfOne(q, ns[1..]);
      j := j' + 1;
      assert forall i | 0 < i < |ns| :: ns[i] == ns[1..][i - 1];
    }
  }

  lemma {:induction false} OneOfOnlyMatch(q: Query, ns: seq<Node>, j: nat)
    requires OnlyMatch(q, ns, j)
    ensures MatchingIn(q, ns) == 1
    decreases |ns|
  {
    assert forall i | 0 < i < |ns| :: ns[i] == ns[1..][i - 1];
    if j == 0 {
      MatchingInNone(q, ns[1..]);
    } else {
      OneOfOnlyMatch(q, ns[1..], j - 1);
    }
  }

  /** An unrecognised selector, such as the positional fallback `//div[1]`,
      imposes no constraint: `_count_matches` counts every node. */
  lemma UnrecognisedSelectorCountsEveryNode(t: string, tree: Node)
    requires '\'' !in t
    ensures CountMatches(Render(ByTagFirst(t)), tree) == |PreOrder(tree)|
  {
    PositionalIsUnconstrained(t);
    CountBounds(NoConstraint, tree);
  }

  // ---------------------------------------------------------------------
  // generate_xpath
  // ---------------------------------------------------------------------

  /** The id tier is tried: the node has a truthy id and the id weight is
      above 0.5. */
  predicate IdTierOpen(node: Node, w: Weights) {
    HasId(node) && WeightOf(w, "id") > 0.5
  }

  /** The class tiers are tried: the node has a class and the class weight
      is above 0.5. */
  predicate ClassTierOpen(node: Node, w: Weights) {
    |ClassesOf(node)| > 0 && WeightOf(w, "class") > 0.5
  }

  /** The position of the first element of `cs` that passes `p`; `|cs|`
      when none does. */
  function FirstPassing(cs: seq<string>, p: string -> bool): (k: nat)
    ensures k <= |cs|
    ensures k < |cs| ==> p(cs[k])
    ensures forall j | 0 <= j < k :: !p(cs[j])
  {
    if cs == [] then 0
    else if p(cs[0]) then 0
    else
      var k := FirstPassing(cs[1..], p);
      assert forall j | 1 <= j < |cs| :: cs[j] == cs[1..][j - 1];
      k + 1
  }

  /** Whether the `contains(@class, c)` selector for `tag` is unique. */
  predicate UniqueContains(tag: string, c: string, ctx: Node) {
    IsUnique(Render(ByContainsClass(tag, c)), ctx)
  }

  /** The position of the first class, in declaration order, whose
      `contains(@class, ...)` selector is unique; `|cs|` when there is none. */
  function FirstUniqueIndex(tag: string, cs: seq<string>, ctx: Node): (k: nat)
    ensures k <= |cs|
    ensures k < |cs| ==> UniqueContains(tag, cs[k], ctx)
    ensures forall j | 0 <= j < k :: !UniqueContains(tag, cs[j], ctx)
  {
    FirstPassing(cs, c => UniqueContains(tag, c, ctx))
  }

  /** The loop over `node.classes` trying `contains(@class, ...)`: the
      first class, in declaration order, whose selector is unique. */
  function FirstUniqueContains(tag: string, cs: seq<string>, ctx: Node): (r: Option<Locator>)
    ensures r.Some? ==>
      exists k | 0 <= k < |cs| ::
        && r.value == ByContainsClass(tag, cs[k])
        && IsUnique(Render(r.value), ctx)
        && forall j | 0 <= j < k :: !IsUnique(Render(ByContainsClass(tag, cs[j])), ctx)
    ensures r.None? ==>
      forall k | 0 <= k < |cs| :: !IsUnique(Render(ByContainsClass(tag, cs[k])), ctx)
  {
    var k := FirstUniqueIndex(tag, cs, ctx);
    if k < |cs| then Some(ByContainsClass(tag, cs[k])) else None
  }

  /** `generate_xpath(node, context)` under weight table `w`, as the
      structured locator whose `Render` is the returned string. */
  function GenerateXPath(node: Node, ctx: Node, w: Weights): (l: Locator)
    // Every attribute-based result passed its tier's gate and is unique.
    ensures l.ById? ==>
      IdTierOpen(node, w) && IdOf(node) == Some(l.id) && IsUnique(Render(l), ctx)
    ensures l.ByExactClass? ==>
      ClassTierOpen(node, w) && ClassesOf(node) == [l.cls] && l.tag == node.tag
      && IsUnique(Render(l), ctx)
    ensures l.ByContainsClass? ==>
      ClassTierOpen(node, w) && l.cls in ClassesOf(node) && l.tag == node.tag
      && IsUnique(Render(l), ctx)
    // The tag fallback is `//tag` exactly when the tag counts at most once.
    ensures l.ByTag? || l.ByTagFirst? ==>
      l.tag == node.tag && (l.ByTag? <==> CountMatches(Render(ByTag(node.tag)), ctx) <= 1)
    // First unique candidate wins.
    ensures IdTierOpen(node, w) && IsUnique(Render(ById(IdOf(node).value)), ctx) ==>
      l == ById(IdOf(node).value)
    ensures l.ByContainsClass? ==>
      |ClassesOf(node)| == 1 ==> !IsUnique(Render(ByExactClass(node.tag, l.cls)), ctx)
    // The fallback is reached only when no attribute candidate was unique.
    ensures l.ByTag? || l.ByTagFirst? ==>
      && !(IdTierOpen(node, w) && IsUnique(Render(ById(IdOf(node).value)), ctx))
      && (ClassTierOpen(node, w) ==>
            && (|ClassesOf(node)| == 1 ==> !IsUnique(Render(ByExactClass(node.tag, ClassesOf(node)[0])), ctx))
            && forall c | c in ClassesOf(node) :: !IsUnique(Render(ByContainsClass(node.tag, c)), ctx))
  {
    if IdTierOpen(node, w) && IsUnique(Render(ById(IdOf(node).value)), ctx) then
      ById(IdOf(node).value)
    else
      var cs := ClassesOf(node);
      var classTier :=
        if ClassTierOpen(node, w) then
          if |cs| == 1 && IsUnique(Render(ByExactClass(node.tag, cs[0])), ctx) then
            Some(ByExactClass(node.tag, cs[0]))
          else
            FirstUniqueContains(node.tag, cs, ctx)
        else None;
      if classTier.Some? then classTier.value
      else if CountMatches(Render(ByTag(node.tag)), ctx) <= 1 then ByTag(node.tag)
      else ByTagFirst(node.tag)
  }

  /** Within the contains tier, the class chosen is the first in declaration
      order whose selector is unique. */
  lemma ContainsTierTakesFirstUniqueClass(node: Node, ctx: Node, w: Weights)
    requires GenerateXPath(node, ctx, w).ByContainsClass?
    ensures var l := GenerateXPath(node, ctx, w);
            var cs := ClassesOf(node);
            exists k | 0 <= k < |cs| ::
              && l.cls == cs[k]
              && forall j | 0 <= j < k :: !IsUnique(Render(ByContainsClass(node.tag, cs[j])), ctx)
  {
    var cs := ClassesOf(node);
    var r := FirstUniqueContains(node.tag, cs, ctx);
    assert r.Some?;
  }

  /** What a synthesised selector selects, read through the selector
      reader: unless it is the positional fallback, exactly one node of the
      context satisfies the id, tag and class it names. For the `//tag`
      fallback this needs the target itself to be in the context. */
  lemma SynthesisedSelectorSelectsOneNode(node: Node, ctx: Node, w: Weights)
    requires var l := GenerateXPath(node, ctx, w); !l.ByTagFirst? && Recoverable(l)
    requires GenerateXPath(node, ctx, w).ByTag? ==> node in PreOrder(ctx)
    ensures var l := GenerateXPath(node, ctx, w); CountQuery(Intended(l), ctx) == 1
  {
    var l := GenerateXPath(node, ctx, w);
    RoundTrip(l);
    if l.ByTag? {
      var j :| 0 <= j < |PreOrder(ctx)| && PreOrder(ctx)[j] == node;
      assert Matches(Intended(l), node);
      CountBounds(Intended(l), ctx);
    }
  }

  /** The positional fallback `//tag[1]` is never unique: the tag already
      occurs at least twice, and the reader counts every node for it. */
  lemma PositionalFallbackIsNotUnique(node: Node, ctx: Node, w: Weights)
    requires GenerateXPath(node, ctx, w).ByTagFirst?
    requires '\'' !in node.tag
    ensures CountMatches(Render(GenerateXPath(node, ctx, w)), ctx) == |PreOrder(ctx)| >= 2
  {
    UnrecognisedSelectorCountsEveryNode(node.tag, ctx);
    CountBounds(ParseSelector(Render(ByTag(node.tag))), ctx);
  }

  // ---------------------------------------------------------------------
  // The two scenarios of verify_fix.py
  // ---------------------------------------------------------------------

  lemma SingleClass(n: Node, c: string)
    requires "class" in n.attributes && n.attributes["class"] == c
    requires c != [] && NoSpace(c)
    ensures ClassesOf(n) == [c]
  {
    WordsOfSingleWord(c);
  }

  /** The class of verify_fix.py's target. */
  const LinkClass: string := "link-text-2"

  /** A class value that `split()` keeps whole and the selector reader
      recovers. */
  predicate OneWordClass(c: string) {
    c != [] && NoSpace(c) && PlainValue(c)
  }

  lemma LinkClassIsOneWord()
    ensures OneWordClass(LinkClass) && LinkClass != "navbar" && LinkClass != "footer"
  {
    forall i | 0 <= i < |LinkClass|
      ensures !IsSpace(LinkClass[i]) && LinkClass[i] != '\'' && LinkClass[i] != '['
    {
      assert LinkClass[i] in {'l', 'i', 'n', 'k', '-', 't', 'e', 'x', '2'};
    }
  }

  lemma DefaultGates()
    ensures WeightOf(DefaultWeights(), "id") == 1.0
    ensures WeightOf(DefaultWeights(), "class") == 0.8
  {
  }

  /** Without an id, a single class whose exact selector is unique wins. */
  lemma ExactFormWins(node: Node, ctx: Node, w: Weights, c: string)
    requires !HasId(node) && ClassesOf(node) == [c] && WeightOf(w, "class") > 0.5
    requires IsUnique(Render(ByExactClass(node.tag, c)), ctx)
    ensures GenerateXPath(node, ctx, w) == ByExactClass(node.tag, c)
  {
  }

  /** Without an id, a single class with no unique selector and a repeated
      tag give the positional fallback. */
  lemma PositionalFormWhenNothingUnique(node: Node, ctx: Node, w: Weights, c: string)
    requires !HasId(node) && ClassesOf(node) == [c]
    requires !IsUnique(Render(ByExactClass(node.tag, c)), ctx)
    requires !IsUnique(Render(ByContainsClass(node.tag, c)), ctx)
    requires CountMatches(Render(ByTag(node.tag)), ctx) > 1
    ensures GenerateXPath(node, ctx, w) == ByTagFirst(node.tag)
  {
    assert FirstUniqueContains(node.tag, [c], ctx) == None;
  }

  lemma CountLeaf(q: Query, n: Node)
    requires n.children == []
    ensures CountQuery(q, n) == if Matches(q, n) then 1 else 0
  {
  }

  lemma CountOneChild(q: Query, n: Node)
    requires |n.children| == 1
    ensures CountQuery(q, n) == (if Matches(q, n) then 1 else 0) + CountQuery(q, n.children[0])
  {
    assert n.children[1..] == [];
    assert CountQueryAll(q, n.children) == CountQuery(q, n.children[0]) + CountQueryAll(q, []);
  }

  lemma CountTwoChildren(q: Query, n: Node)
    requires |n.children| == 2
    ensures CountQuery(q, n) ==
      (if Matches(q, n) then 1 else 0) + CountQuery(q, n.children[0]) + CountQuery(q, n.children[1])
  {
    var cs := n.children;
    assert cs[1..][1..] == [];
    assert CountQueryAll(q, cs[1..]) == CountQuery(q, cs[1]) + CountQueryAll(q, []);
    assert CountQueryAll(q, cs) == CountQuery(q, cs[0]) + CountQueryAll(q, cs[1..]);
  }

  /** The target of the first scenario of verify_fix.py, with class `c`. */
  function FirstTarget(c: string): Node {
    Node("div", map["class" := c], [], "Login")
  }

  /** `body > (div.navbar > target), div.footer`. */
  function FirstRoot(c: string): Node {
    Node("body", map[], [
      Node("div", map["class" := "navbar"], [FirstTarget(c)], ""),
      Node("div", map["class" := "footer"], [], "Copyright")], "")
  }

  lemma FirstScenarioCount(c: string)
    requires OneWordClass(c) && c != "navbar" && c != "footer"
    ensures IsUnique(Render(ByExactClass("div", c)), FirstRoot(c))
  {
    RoundTripExactClass("div", c);
    var q := Query(Some("div"), None, Some(c), None);
    var root := FirstRoot(c);
    var navbar := root.children[0];
    var footer := root.children[1];
    CountLeaf(q, FirstTarget(c));
    CountOneChild(q, navbar);
    CountLeaf(q, footer);
    CountTwoChildren(q, root);
  }

  /** A target whose single class occurs nowhere else gets the exact-class
      selector: the exact form is tried before any `contains` form. With
      verify_fix.py's class `link-text-2` this is `//div[@class='link-text-2']`,
      not the `contains` selector that script expects. */
  lemma UniqueClassGivesExactForm(c: string)
    requires OneWordClass(c) && c != "navbar" && c != "footer"
    ensures GenerateXPath(FirstTarget(c), FirstRoot(c), DefaultWeights()) == ByExactClass("div", c)
    ensures Render(ByExactClass("div", c)) != Render(ByContainsClass("div", c))
  {
    SingleClass(FirstTarget(c), c);
    FirstScenarioCount(c);
    DefaultGates();
    ExactFormWins(FirstTarget(c), FirstRoot(c), DefaultWeights(), c);
    ExactDiffersFromContains("div", c);
  }

  /** The exact-class and contains-class selectors never coincide. */
  lemma ExactDiffersFromContains(t: string, c: string)
    ensures Render(ByExactClass(t, c)) != Render(ByContainsClass(t, c))
  {
    var e := Render(ByExactClass(t, c));
    var k := Render(ByContainsClass(t, c));
    assert e == ("//" + t + "[") + ("@class='" + c + "']");
    assert k == ("//" + t + "[") + ("contains(@class, '" + c + "')]");
    assert e[|t| + 3] == '@' && k[|t| + 3] == 'c';
  }

  /** The second scenario: two sibling `div`s with the same class `c`. */
  function SecondTarget(c: string): Node {
    Node("div", map["class" := c], [], "Link 1")
  }

  function SecondRoot(c: string): Node {
    Node("body", map[], [SecondTarget(c), Node("div", map["class" := c], [], "Link 2")], "")
  }

  lemma SecondScenarioExactCount(c: string)
    requires OneWordClass(c)
    ensures CountMatches(Render(ByExactClass("div", c)), SecondRoot(c)) == 2
  {
    var root := SecondRoot(c);
    RoundTripExactClass("div", c);
    var q := Query(Some("div"), None, Some(c), None);
    CountLeaf(q, root.children[0]);
    CountLeaf(q, root.children[1]);
    CountTwoChildren(q, root);
  }

  lemma SecondScenarioContainsCount(c: string)
    requires OneWordClass(c)
    ensures CountMatches(Render(ByContainsClass("div", c)), SecondRoot(c)) == 2
  {
    var root := SecondRoot(c);
    SingleClass(root.children[0], c);
    SingleClass(root.children[1], c);
    RoundTripContainsClass("div", c);
    var q := Query(Some("div"), None, None, Some(c));
    assert ClassesOf(root) == [];
    CountLeaf(q, root.children[0]);
    CountLeaf(q, root.children[1]);
    CountTwoChildren(q, root);
  }

  lemma SecondScenarioTagCount(c: string)
    ensures CountMatches(Render(ByTag("div")), SecondRoot(c)) == 2
  {
    var root := SecondRoot(c);
    RoundTripTag("div");
    var q := Query(Some("div"), None, None, None);
    CountLeaf(q, root.children[0]);
    CountLeaf(q, root.children[1]);
    CountTwoChildren(q, root);
  }

  /** Two siblings sharing one class: neither class selector is unique, the
      tag occurs twice, and the positional fallback `//div[1]` is returned,
      with no `contains` in it. */
  lemma SharedClassFallsBackToPosition(c: string)
    requires OneWordClass(c)
    ensures GenerateXPath(SecondTarget(c), SecondRoot(c), DefaultWeights()) == ByTagFirst("div")
    ensures !Contains(Render(ByTagFirst("div")), "contains")
  {
    var t := SecondTarget(c);
    SingleClass(t, c);
    SecondScenarioExactCount(c);
    SecondScenarioContainsCount(c);
    SecondScenarioTagCount(c);
    PositionalFormWhenNothingUnique(t, SecondRoot(c), DefaultWeights(), c);
    PositionalHasNoContains();
  }

  lemma PositionalHasNoContains()
    ensures !Contains(Render(ByTagFirst("div")), "contains")
  {
    MissingCharNotContained(Render(ByTagFirst("div")), "contains", 0);
  }

  /** Both scenarios with verify_fix.py's own class. */
  lemma VerifyFixScenarios()
    ensures GenerateXPath(FirstTarget(LinkClass), FirstRoot(LinkClass), DefaultWeights())
            == ByExactClass("div", LinkClass)
    ensures GenerateXPath(SecondTarget(LinkClass), SecondRoot(LinkClass), DefaultWeights())
            == ByTagFirst("div")
  {
    LinkClassIsOneWord();
    UniqueClassGivesExactForm(LinkClass);
    SharedClassFallsBackToPosition(LinkClass);
  }
}
