/**
  `generator/bundle.py`: the three-way locator bundle for a target node,
  an XPath from the synthesiser under default weights, a CSS selector and
  a text selector with an `xpath=` fallback.
 */
module Bundle {
  import opened Wrappers
  import opened Text
  import opened Models
  import opened Selector
  import opened Robula

  const PrimaryKey: string := "primary"
  const SecondaryKey: string := "secondary"
  const TertiaryKey: string := "tertiary"

  /** Longest stripped text (exclusive) that the tertiary selector quotes. */
  const TextLimit: nat := 50

  /** `_generate_primary`. The synthesiser is called with the default weight
      table; `raised` stands for it raising (for a `Node` target, only
      Python's recursion limit on a very deep context can), in which case
      the id or tag form is built directly. */
  function Primary(node: Node, ctx: Node, raised: bool): (x: string)
    ensures !raised ==> x == Render(GenerateXPath(node, ctx, DefaultWeights()))
    ensures raised && HasId(node) ==> x == Render(ById(IdOf(node).value))
    ensures raised && !HasId(node) ==> x == Render(ByTag(node.tag))
  {
    if !raised then Render(GenerateXPath(node, ctx, DefaultWeights()))
    else if HasId(node) then "//*[@id='" + IdOf(node).value + "']"
    else "//" + node.tag
  }

  /** `_generate_secondary`: `#id`, else the classes joined by `.`, else
      the bare tag. */
  function Secondary(node: Node): (x: string)
    ensures HasId(node) ==> x == ['#'] + IdOf(node).value
    ensures !HasId(node) && ClassesOf(node) != [] ==> x != [] && x[0] == '.'
    // Splitting on `.` gives the classes back unless a class holds a dot.
    ensures !HasId(node) && ClassesOf(node) != [] &&
            (forall k | 0 <= k < |ClassesOf(node)| :: '.' !in ClassesOf(node)[k]) ==>
              SplitOn(x[1..], '.') == ClassesOf(node)
    // A class holding a dot reads back as more classes than the node has.
    ensures !HasId(node) && ClassesOf(node) != [] &&
            (exists k | 0 <= k < |ClassesOf(node)| :: '.' in ClassesOf(node)[k]) ==>
              |SplitOn(x[1..], '.')| > |ClassesOf(node)|
    ensures !HasId(node) && ClassesOf(node) == [] ==> x == node.tag
  {
    if HasId(node) then "#" + IdOf(node).value
    else if ClassesOf(node) != [] then
      var cs := ClassesOf(node);
      var x := "." + Join(cs, '.');
      assert x[1..] == Join(cs, '.');
      DotJoinSplits(cs);
      x
    else node.tag
  }

  lemma DotJoinSplits(cs: seq<string>)
    requires |cs| >= 1
    ensures (forall k | 0 <= k < |cs| :: '.' !in cs[k]) ==> SplitOn(Join(cs, '.'), '.') == cs
    ensures (exists k | 0 <= k < |cs| :: '.' in cs[k]) ==> |SplitOn(Join(cs, '.'), '.')| > |cs|
  {
    if forall k | 0 <= k < |cs| :: '.' !in cs[k] {
      SplitJoin(cs, '.');
    } else {
      var k :| 0 <= k < |cs| && '.' in cs[k];
      SplitJoinOverflows(cs, '.', k);
    }
  }

  /** The tertiary selector quotes the text. */
  predicate QuotesText(node: Node) {
    node.text != "" && |Strip(node.text)| < TextLimit
  }

  /** `_generate_tertiary`. */
  function Tertiary(node: Node): (x: string)
    ensures QuotesText(node) ==>
      && "text='" <= x && |x| >= 7 && x[|x| - 1] == '\''
      && UnescapeQuotes(x[6..|x| - 1]) == Strip(node.text)
    // The quoted text is the stripped text with every quote escaped, so no
    // quote inside it can end the literal early.
    ensures QuotesText(node) ==> x == "text='" + EscapeQuotes(Strip(node.text)) + "'"
    ensures QuotesText(node) ==>
      forall i | 6 <= i < |x| - 1 && x[i] == '\'' :: x[i - 1] == '\\'
    ensures !QuotesText(node) ==> x == "xpath=//" + node.tag
  {
    if QuotesText(node) then
      var e := EscapeQuotes(Strip(node.text));
      var x := "text='" + e + "'";
      assert x[6..|x| - 1] == e;
      assert forall i | 6 <= i < |x| - 1 :: x[i] == e[i - 6];
      UnescapeEscape(Strip(node.text));
      x
    else "xpath=//" + node.tag
  }

  /** `generate_bundle`. */
  function GenerateBundle(node: Node, ctx: Node, raised: bool): (b: map<string, string>)
    ensures b.Keys == {PrimaryKey, SecondaryKey, TertiaryKey}
    ensures b[PrimaryKey] == Primary(node, ctx, raised)
    ensures b[SecondaryKey] == Secondary(node) && b[TertiaryKey] == Tertiary(node)
  {
    map[PrimaryKey := Primary(node, ctx, raised),
        SecondaryKey := Secondary(node),
        TertiaryKey := Tertiary(node)]
  }

  /** The secondary and tertiary entries depend only on the target, never on
      the context tree or on whether the synthesiser raised. */
  lemma ContextOnlyAffectsPrimary(node: Node, ctx1: Node, ctx2: Node, r1: bool, r2: bool)
    ensures GenerateBundle(node, ctx1, r1)[SecondaryKey] == GenerateBundle(node, ctx2, r2)[SecondaryKey]
    ensures GenerateBundle(node, ctx1, r1)[TertiaryKey] == GenerateBundle(node, ctx2, r2)[TertiaryKey]
  {
  }

  /** The exception fallback writes one of the shapes the synthesiser
      writes, and the selector reader recovers the id or tag from it. */
  lemma FallbackIsReadable(node: Node, ctx: Node)
    requires HasId(node) ==> '\'' !in IdOf(node).value
    requires !HasId(node) ==> '[' !in node.tag && '/' !in node.tag
    ensures HasId(node) ==> ParseSelector(Primary(node, ctx, true)) == Query(None, IdOf(node), None, None)
    ensures !HasId(node) ==> ParseSelector(Primary(node, ctx, true)) == Query(Some(node.tag), None, None, None)
  {
    if HasId(node) {
      RoundTrip(ById(IdOf(node).value));
    } else {
      RoundTrip(ByTag(node.tag));
    }
  }

  /** Text made only of whitespace is truthy, so it is quoted, and what is
      quoted is its empty strip: the selector is `text=''`. */
  lemma WhitespaceTextQuotesNothing(node: Node)
    requires node.text != "" && AllSpace(node.text)
    ensures Tertiary(node) == "text=''"
  {
    assert Strip(node.text) == [];
  }

  /** Texts whose strips differ give different tertiary selectors when both
      are quoted: quoting loses nothing. */
  lemma TertiaryDistinguishesTexts(a: Node, b: Node)
    requires QuotesText(a) && QuotesText(b) && Strip(a.text) != Strip(b.text)
    ensures Tertiary(a) != Tertiary(b)
  {
  }
}
