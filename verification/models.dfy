/**
  The tree model of `common/models.py`: the `Node` record with its derived
  `id` and `classes`, label-only equality, the bracket serialisation handed
  to the edit-distance library, and `from_json`, which parses a captured
  snapshot (a nested JSON object) into a `Node` tree.
 */
module Models {
  import opened Wrappers
  import opened Text

  /** One element of a captured document tree. */
  datatype Node = Node(tag: string, attributes: map<string, string>, children: seq<Node>, text: string)

  const Unknown: string := "unknown"
  const ShadowRootTag: string := "shadow-root"
  const TextMarker: string := "#text"

  /** `Node(tag, attributes, children, text)`. An empty `tag` or `text` is
      Python's falsy argument; `None` for `attributes`/`children` is an
      omitted argument or one that is not a dict/list. */
  function NewNode(tag: string, attributes: Option<map<string, string>>,
                   children: Option<seq<Node>>, text: string): (n: Node)
    ensures n.tag != ""
    ensures tag != "" ==> n.tag == tag
    ensures tag == "" ==> n.tag == Unknown
    ensures n.attributes == attributes.GetOr(map[])
    ensures n.children == children.GetOr([])
    ensures n.text == text
  {
    Node(if tag == "" then Unknown else tag, attributes.GetOr(map[]), children.GetOr([]), text)
  }

  /** `attrs.get(k)`. */
  function Get(m: map<string, string>, k: string): (v: Option<string>)
    ensures v.Some? <==> k in m
    ensures v.Some? ==> v.value == m[k]
  {
    if k in m then Some(m[k]) else None
  }

  /** Python truthiness of an optional string: present and non-empty. */
  predicate Truthy(o: Option<string>) {
    o.Some? && o.value != ""
  }

  /** `node.id`: the `id` attribute, when there is one. */
  function IdOf(n: Node): (id: Option<string>)
    ensures id.Some? <==> "id" in n.attributes
    ensures id.Some? ==> id.value == n.attributes["id"]
  {
    Get(n.attributes, "id")
  }

  /** `if node.id:`. */
  predicate HasId(n: Node) {
    Truthy(IdOf(n))
  }

  /** `node.classes`: the whitespace-separated tokens of the `class`
      attribute, or none when the node has no `class` attribute. */
  function ClassesOf(n: Node): (cs: seq<string>)
    ensures forall k | 0 <= k < |cs| :: cs[k] != [] && NoSpace(cs[k])
    ensures "class" !in n.attributes ==> cs == []
    ensures "class" in n.attributes ==> Flatten(cs) == NonSpace(n.attributes["class"])
    // The classes are the maximal runs: whitespace separates every two.
    ensures "class" in n.attributes ==> exists gaps :: SpacedBy(n.attributes["class"], cs, gaps)
  {
    if "class" in n.attributes then
      WordsKeepEveryNonSpace(n.attributes["class"]);
      WordsAreMaximalRuns(n.attributes["class"]);
      Words(n.attributes["class"])
    else []
  }

  /** `a == b` on nodes: the label (tag, attributes, text) decides; the
      children are never compared. */
  predicate Same(a: Node, b: Node) {
    a.tag == b.tag && a.attributes == b.attributes && a.text == b.text
  }

  /** `a != b` on nodes. */
  predicate Differs(a: Node, b: Node) {
    !Same(a, b)
  }

  /** Node equality is an equivalence relation, `!=` is its negation, and
      replacing a node's children never changes whether it is equal to
      another node. */
  lemma SameIsLabelEquivalence(a: Node, b: Node, c: Node, kids: seq<Node>)
    ensures Same(a, a)
    ensures Same(a, b) ==> Same(b, a)
    ensures Same(a, b) && Same(b, c) ==> Same(a, c)
    ensures Differs(a, b) <==> !Same(a, b)
    ensures Same(a, b) <==> Same(a.(children := kids), b)
  {
  }

  // ---------------------------------------------------------------------
  // Pre-order listing and the bracket format
  // ---------------------------------------------------------------------

  /** All nodes of the tree rooted at `n`, root first, then each child's
      subtree in order. */
  function PreOrder(n: Node): (ns: seq<Node>)
    ensures |ns| >= 1 && ns[0] == n
  {
    [n] + PreOrderAll(n.children)
  }

  function PreOrderAll(ns: seq<Node>): seq<Node> {
    if ns == [] then [] else PreOrder(ns[0]) + PreOrderAll(ns[1..])
  }

  /** One node's label in bracket notation. */
  function Label(n: Node): string {
    "{" + n.tag + "}"
  }

  /** `node.to_apted_format()`. */
  function Bracket(n: Node): string {
    Label(n) + BracketAll(n.children)
  }

  function BracketAll(ns: seq<Node>): string {
    if ns == [] then [] else Bracket(ns[0]) + BracketAll(ns[1..])
  }

  /** The labels of a list of nodes, concatenated in order. */
  function Labels(ns: seq<Node>): string {
    if ns == [] then [] else Label(ns[0]) + Labels(ns[1..])
  }

  lemma {:induction false} LabelsConcat(a: seq<Node>, b: seq<Node>)
    ensures Labels(a + b) == Labels(a) + Labels(b)
    decreases |a|
  {
    if a == [] {
      assert a + b == b;
    } else {
      assert (a + b)[1..] == a[1..] + b;
      LabelsConcat(a[1..], b);
    }
  }

  /** The bracket format is the pre-order listing of the tree's labels:
      each node contributes `{tag}`, before its descendants and after its
      earlier siblings' subtrees. */
  lemma {:induction false} BracketIsPreOrderLabels(n: Node)
    ensures Bracket(n) == Labels(PreOrder(n))
    decreases n, 1
  {
    BracketAllIsPreOrderLabels(n.children);
    LabelsConcat([n], PreOrderAll(n.children));
  }

  lemma {:induction false} BracketAllIsPreOrderLabels(ns: seq<Node>)
    ensures BracketAll(ns) == Labels(PreOrderAll(ns))
    decreases ns, 0
  {
    if ns != [] {
      BracketIsPreOrderLabels(ns[0]);
      BracketAllIsPreOrderLabels(ns[1..]);
      LabelsConcat(PreOrder(ns[0]), PreOrderAll(ns[1..]));
    }
  }

  lemma {:induction false} LabelsOpenBraces(ns: seq<Node>)
    requires forall k | 0 <= k < |ns| :: '{' !in ns[k].tag
    ensures CountChar(Labels(ns), '{') == |ns|
    decreases |ns|
  {
    if ns != [] {
      LabelsOpenBraces(ns[1..]);
      var t := ns[0].tag;
      CountCharAbsent(t, '{');
      CountCharAbsent("}", '{');
      CountCharConcat("{", t, '{');
      CountCharConcat("{" + t, "}", '{');
      CountCharConcat(Label(ns[0]), Labels(ns[1..]), '{');
    }
  }

  /** When no tag holds a `{`, the bracket format has one `{` per node of
      the tree. */
  lemma BracketOpensOncePerNode(n: Node)
    requires forall k | 0 <= k < |PreOrder(n)| :: '{' !in PreOrder(n)[k].tag
    ensures CountChar(Bracket(n), '{') == |PreOrder(n)|
  {
    BracketIsPreOrderLabels(n);
    LabelsOpenBraces(PreOrder(n));
  }

  // ---------------------------------------------------------------------
  // Snapshots and from_json
  // ---------------------------------------------------------------------

  /** A captured snapshot object. Each field is `None` when its key is
      absent. */
  datatype Snapshot = Snapshot(
    nodeName: Option<string>,
    attributes: Option<map<string, string>>,
    nodeValue: Option<string>,
    children: ChildList,
    shadowRoot: Option<Snapshot>)

  /** The `children` entry of a snapshot: absent, or a list. */
  datatype ChildList = Missing | Listed(items: seq<Snapshot>)

  function Items(c: ChildList): seq<Snapshot> {
    if c.Listed? then c.items else []
  }

  /** An empty dict: the only falsy snapshot object. */
  predicate IsEmpty(d: Snapshot) {
    && d.nodeName.None?
    && d.attributes.None?
    && d.nodeValue.None?
    && d.children.Missing?
    && d.shadowRoot.None?
  }

  /** `data.get('shadowRoot')` is truthy. */
  predicate HasShadow(d: Snapshot) {
    d.shadowRoot.Some? && !IsEmpty(d.shadowRoot.value)
  }

  /** A child entry that `from_json` parses: non-empty and not a text node. */
  predicate Kept(c: Snapshot) {
    !IsEmpty(c) && c.nodeName != Some(TextMarker)
  }

  /** The child entries `from_json` keeps, in order. */
  function KeptChildren(cs: seq<Snapshot>): (k: seq<Snapshot>)
    ensures |k| <= |cs|
    ensures forall j | 0 <= j < |k| :: Kept(k[j])
    ensures forall j | 0 <= j < |cs| :: Kept(cs[j]) ==> cs[j] in k
  {
    if cs == [] then []
    else (if Kept(cs[0]) then [cs[0]] else []) + KeptChildren(cs[1..])
  }

  /** Keeping distributes over concatenation: the kept children of a list
      are those of its first part followed by those of the rest. */
  lemma {:induction false} KeptChildrenConcat(a: seq<Snapshot>, b: seq<Snapshot>)
    ensures KeptChildren(a + b) == KeptChildren(a) + KeptChildren(b)
    decreases |a|
  {
    if a == [] {
      assert a + b == b;
    } else {
      assert (a + b)[1..] == a[1..] + b;
      KeptChildrenConcat(a[1..], b);
    }
  }

  /** With `KeptChildrenConcat`, this makes `KeptChildren` exactly the
      order- and multiplicity-preserving filter by `Kept`. */
  lemma KeptChildrenOne(c: Snapshot)
    ensures KeptChildren([c]) == if Kept(c) then [c] else []
  {
    assert [c][1..] == [];
  }

  /** The tag `from_json` gives a non-empty snapshot. */
  function TagFor(nodeName: Option<string>): string {
    Lower(nodeName.GetOr(""))
  }

  /** `Node.from_json(data)`, where `None` is a missing argument. */
  function FromJson(data: Option<Snapshot>): (n: Node)
    ensures data.None? ==> n == Node(Unknown, map[], [], "")
    ensures data.Some? ==> n == Parse(data.value)
  {
    if data.None? then NewNode(Unknown, None, None, "") else Parse(data.value)
  }

  /** `from_json` on a snapshot object. */
  function Parse(d: Snapshot): (n: Node)
    ensures n.tag != ""
    ensures IsEmpty(d) ==> n == Node(Unknown, map[], [], "")
    ensures !IsEmpty(d) ==> n.attributes == d.attributes.GetOr(map[])
    ensures !IsEmpty(d) ==> n.text == d.nodeValue.GetOr("")
    ensures !IsEmpty(d) && TagFor(d.nodeName) != "" ==> n.tag == TagFor(d.nodeName)
    ensures !IsEmpty(d) && TagFor(d.nodeName) == "" ==> n.tag == Unknown
    ensures !IsEmpty(d) ==>
      |n.children| == |KeptChildren(Items(d.children))| + (if HasShadow(d) then 1 else 0)
    ensures HasShadow(d) ==>
      var w := n.children[|n.children| - 1];
      w.tag == ShadowRootTag && w.attributes == map[] && w.text == ""
      && w.children == Parse(d.shadowRoot.value).children
    decreases d, 1
  {
    if IsEmpty(d) then NewNode(Unknown, None, None, "")
    else
      var node := NewNode(TagFor(d.nodeName), Some(d.attributes.GetOr(map[])), None, d.nodeValue.GetOr(""));
      var kids := if d.children.Listed? then ParseChildren(d.children.items) else [];
      var shadow :=
        if HasShadow(d) then [NewNode(ShadowRootTag, None, Some(Parse(d.shadowRoot.value).children), "")]
        else [];
      node.(children := kids + shadow)
  }

  /** The loop of `from_json` over `children`: empty entries and `#text`
      entries are skipped, the others parsed in order. */
  function ParseChildren(cs: seq<Snapshot>): (ns: seq<Node>)
    ensures |ns| == |KeptChildren(cs)|
    decreases cs, 0
  {
    if cs == [] then []
    else if !Kept(cs[0]) then ParseChildren(cs[1..])
    else [Parse(cs[0])] + ParseChildren(cs[1..])
  }

  /** The parsed children are, position by position, the parses of the kept
      child entries. */
  lemma {:induction false} ParseChildrenInOrder(cs: seq<Snapshot>)
    ensures var ks := KeptChildren(cs);
            forall j | 0 <= j < |ks| :: ParseChildren(cs)[j] == Parse(ks[j])
    decreases |cs|
  {
    if cs != [] {
      ParseChildrenInOrder(cs[1..]);
    }
  }

  /** Children of a parsed node, in order: the parses of the kept child
      entries, followed by the shadow-root wrapper when there is a truthy
      `shadowRoot`. */
  lemma ParsedChildren(d: Snapshot)
    requires !IsEmpty(d)
    ensures var ks := KeptChildren(Items(d.children));
            var n := Parse(d);
            && (forall j | 0 <= j < |ks| :: n.children[j] == Parse(ks[j]))
            && (HasShadow(d) <==> |n.children| == |ks| + 1)
  {
    ParseChildrenInOrder(Items(d.children));
  }

  /** Every tag of the tree is non-empty and has no ASCII capital. */
  predicate WellFormed(n: Node)
    decreases n, 1
  {
    && n.tag != ""
    && LowerCaseTag(n.tag)
    && AllWellFormed(n.children)
  }

  predicate AllWellFormed(ns: seq<Node>)
    decreases ns, 0
  {
    ns == [] || (WellFormed(ns[0]) && AllWellFormed(ns[1..]))
  }

  lemma {:induction false} AllWellFormedConcat(a: seq<Node>, b: seq<Node>)
    requires AllWellFormed(a) && AllWellFormed(b)
    ensures AllWellFormed(a + b)
    decreases |a|
  {
    if a != [] {
      assert (a + b)[1..] == a[1..] + b;
      AllWellFormedConcat(a[1..], b);
    } else {
      assert a + b == b;
    }
  }

  /** The shadow-root wrapper `from_json` appends for `d`. */
  function ShadowWrapper(d: Snapshot): Node
    requires HasShadow(d)
  {
    NewNode(ShadowRootTag, None, Some(Parse(d.shadowRoot.value).children), "")
  }

  lemma ParseShape(d: Snapshot)
    requires !IsEmpty(d)
    ensures Parse(d).tag == NewNode(TagFor(d.nodeName), None, None, "").tag
    ensures Parse(d).children ==
      ParseChildren(Items(d.children)) + (if HasShadow(d) then [ShadowWrapper(d)] else [])
  {
  }

  predicate LowerCaseTag(t: string) {
    forall i | 0 <= i < |t| :: !IsAsciiUpper(t[i])
  }

  lemma FixedTagsLowerCase()
    ensures LowerCaseTag(Unknown) && LowerCaseTag(ShadowRootTag)
  {
    assert Unknown == Lower(Unknown);
    assert ShadowRootTag == Lower(ShadowRootTag);
  }

  /** Every tree `from_json` builds has non-empty, lower-case tags
      throughout, shadow-root wrappers included. */
  lemma {:induction false} ParsedTreeWellFormed(d: Snapshot)
    ensures WellFormed(Parse(d))
    decreases d, 1
  {
    if !IsEmpty(d) {
      var kids := ParseChildren(Items(d.children));
      if d.children.Listed? {
        ParsedChildrenWellFormed(d.children.items);
      }
      LowerIdempotent(d.nodeName.GetOr(""));
      FixedTagsLowerCase();
      ParseShape(d);
      if HasShadow(d) {
        ParsedTreeWellFormed(d.shadowRoot.value);
        var w := ShadowWrapper(d);
        assert w.tag == ShadowRootTag;
        assert AllWellFormed(w.children);
        assert WellFormed(w);
        AllWellFormedConcat(kids, [w]);
      } else {
        assert Parse(d).children == kids;
      }
    }
  }

  lemma {:induction false} ParsedChildrenWellFormed(cs: seq<Snapshot>)
    ensures AllWellFormed(ParseChildren(cs))
    decreases cs, 0
  {
    if cs != [] {
      ParsedChildrenWellFormed(cs[1..]);
      if Kept(cs[0]) {
        ParsedTreeWellFormed(cs[0]);
        assert ParseChildren(cs)[1..] == ParseChildren(cs[1..]);
      }
    }
  }
}
