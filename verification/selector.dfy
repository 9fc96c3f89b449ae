/**
  The selector strings of `generator/robula.py`: the five shapes
  `generate_xpath` writes, and the ad-hoc reader at the top of
  `_count_matches` that recovers a tag, id or class from such a string by
  substring tests and `split`. The reader is modelled exactly, so a string
  it does not recognise, or a value holding a quote, is read the way the
  code reads it.
 */
module Selector {
  import opened Wrappers
  import opened Text

  /** The five shapes of selector the synthesiser writes. */
  datatype Locator =
    | ById(id: string)                          // //*[@id='v']
    | ByExactClass(tag: string, cls: string)    // //tag[@class='c']
    | ByContainsClass(tag: string, cls: string) // //tag[contains(@class, 'c')]
    | ByTag(tag: string)                        // //tag
    | ByTagFirst(tag: string)                   // //tag[1]

  const IdPrefix: string := "//*[@id='"
  const ExactClassMarker: string := "[@class='"
  const ContainsClassMarker: string := "[contains(@class, '"

  /** The selector string of a locator, as the f-strings of
      `generate_xpath` build it. */
  function Render(l: Locator): (x: string)
    // Every shape searches the whole document, and every shape but the id
    // one names its tag right after the `//`.
    ensures "//" <= x
    ensures !l.ById? ==> "//" + l.tag <= x
  {
    match l
    case ById(v) => IdPrefix + v + "']"
    case ByExactClass(t, c) => "//" + t + ExactClassMarker + c + "']"
    case ByContainsClass(t, c) => "//" + t + ContainsClassMarker + c + "')]"
    case ByTag(t) => "//" + t
    case ByTagFirst(t) => "//" + t + "[1]"
  }

  /** The four targets `_count_matches` fills in; `None` is Python's `None`. */
  datatype Query = Query(
    tag: Option<string>,
    id: Option<string>,
    exactClass: Option<string>,
    containsClass: Option<string>)

  const NoConstraint: Query := Query(None, None, None, None)

  /** The selector reader of `_count_matches`: the first test that
      succeeds decides which targets are set. */
  function ParseSelector(x: string): (q: Query)
    ensures q.id.Some? ==> Contains(x, IdPrefix)
    ensures q.exactClass.Some? ==> !Contains(x, IdPrefix) && Contains(x, ExactClassMarker)
    ensures q.containsClass.Some? ==>
      !Contains(x, IdPrefix) && !Contains(x, ExactClassMarker) && Contains(x, ContainsClassMarker)
    ensures q == NoConstraint <==>
      && !Contains(x, IdPrefix) && !Contains(x, ExactClassMarker) && !Contains(x, ContainsClassMarker)
      && !("//" <= x && '[' !in x)
    // Conversely, each test that succeeds sets its targets and only those;
    // a value read between quotes holds no quote, and a tag read back
    // holds no `//`.
    ensures Contains(x, IdPrefix) ==>
      q.tag.None? && q.id.Some? && q.exactClass.None? && q.containsClass.None?
      && '\'' !in q.id.value
    ensures !Contains(x, IdPrefix) && Contains(x, ExactClassMarker) ==>
      q.tag.Some? && q.id.None? && q.exactClass.Some? && q.containsClass.None?
      && '\'' !in q.exactClass.value && NoDoubleSlash(q.tag.value)
    ensures !Contains(x, IdPrefix) && !Contains(x, ExactClassMarker) && Contains(x, ContainsClassMarker) ==>
      q.tag.Some? && q.id.None? && q.exactClass.None? && q.containsClass.Some?
      && '\'' !in q.containsClass.value && NoDoubleSlash(q.tag.value)
    ensures !Contains(x, IdPrefix) && !Contains(x, ExactClassMarker) && !Contains(x, ContainsClassMarker)
            && "//" <= x && '[' !in x ==>
      q == Query(Some(q.tag.value), None, None, None) && NoDoubleSlash(q.tag.value)
  {
    if Contains(x, IdPrefix) then
      Query(None, Some(SecondField(x, '\'')), None, None)
    else if Contains(x, ExactClassMarker) then
      Query(Some(DropDoubleSlashes(Before(x, '['))), None, Some(SecondField(x, '\'')), None)
    else if Contains(x, ContainsClassMarker) then
      Query(Some(DropDoubleSlashes(Before(x, '['))), None, None, Some(SecondField(x, '\'')))
    else if "//" <= x && '[' !in x then
      Query(Some(DropDoubleSlashes(x)), None, None, None)
    else
      NoConstraint
  }

  /** What a locator is meant to select: the constraints its string encodes.
      The positional `[1]` of `ByTagFirst` is not a constraint the reader
      knows, so it has no intended query here. */
  function Intended(l: Locator): Query
    requires !l.ByTagFirst?
  {
    match l
    case ById(v) => Query(None, Some(v), None, None)
    case ByExactClass(t, c) => Query(Some(t), None, Some(c), None)
    case ByContainsClass(t, c) => Query(Some(t), None, None, Some(c))
    case ByTag(t) => Query(Some(t), None, None, None)
  }

  /** A tag the reader recovers intact. */
  predicate PlainTag(t: string) {
    '\'' !in t && '[' !in t && '/' !in t
  }

  /** A class or id value the reader recovers intact. */
  predicate PlainValue(v: string) {
    '\'' !in v && '[' !in v
  }

  /** The values embedded in `l` survive the reader: no quote in any of them,
      no `[` in a tag or class, and no `/` in a tag. */
  predicate Recoverable(l: Locator) {
    match l
    case ById(v) => '\'' !in v
    case ByExactClass(t, c) => PlainTag(t) && PlainValue(c)
    case ByContainsClass(t, c) => PlainTag(t) && PlainValue(c)
    case ByTag(t) => '[' !in t && '/' !in t
    case ByTagFirst(t) => '\'' !in t
  }

  // ---------------------------------------------------------------------
  // Round trip: reading a rendered selector
  // ---------------------------------------------------------------------

  /** A character that occurs once in `a + [c] + b` is found only there. */
  lemma OnlyOccurrence(a: string, c: char, b: string)
    requires c !in a && c !in b
    ensures forall j | 0 <= j < |a + [c] + b| && (a + [c] + b)[j] == c :: j == |a|
  {
    var s := a + [c] + b;
    forall j | 0 <= j < |s| && j != |a|
      ensures s[j] != c
    {
      if j < |a| {
        assert s[j] == a[j];
        assert a[j] in a;
      } else {
        assert s[j] == b[j - |a| - 1];
        assert b[j - |a| - 1] in b;
      }
    }
  }

  lemma TagAfterSlashes(t: string)
    requires '/' !in t
    ensures DropDoubleSlashes("//" + t) == t
  {
    assert ("//" + t)[2..] == t;
    DropDoubleSlashesWithoutSlash(t);
  }

  lemma RoundTripId(v: string)
    requires '\'' !in v
    ensures ParseSelector(Render(ById(v))) == Query(None, Some(v), None, None)
  {
    var x := Render(ById(v));
    assert OccursAt(x, IdPrefix, 0);
    assert x == "//*[@id=" + ['\''] + (v + "']");
    SplitAtFirst("//*[@id=", '\'', v + "']");
    assert v + "']" == v + ['\''] + "]";
    SplitAtFirst(v, '\'', "]");
  }

  lemma RoundTripExactClass(t: string, c: string)
    requires PlainTag(t) && PlainValue(c)
    ensures ParseSelector(Render(ByExactClass(t, c))) == Query(Some(t), None, Some(c), None)
  {
    ExactClassShape(t, c);
    ExactClassTag(t, c);
    ExactClassValue(t, c);
  }

  lemma ExactClassShape(t: string, c: string)
    requires PlainTag(t) && PlainValue(c)
    ensures var x := Render(ByExactClass(t, c));
            !Contains(x, IdPrefix) && Contains(x, ExactClassMarker)
  {
    var x := Render(ByExactClass(t, c));
    var a := "//" + t;
    var tail := c + "']";
    assert x == a + ExactClassMarker + tail;
    OccursBetween(a, ExactClassMarker, tail);
    ExactClassAnchor(t, c);
    AnchoredMismatch(x, IdPrefix, 3, |t| - 1, 5);
  }

  /** The only `[` of an exact-class selector opens the marker, and two
      characters on stands the `c` of `class`. */
  lemma ExactClassAnchor(t: string, c: string)
    requires PlainTag(t) && PlainValue(c)
    ensures var x := Render(ByExactClass(t, c));
            && |x| > |t| + 4
            && (forall j | 0 <= j < |x| && x[j] == '[' :: j == |t| + 2)
            && x[|t| + 4] == 'c'
  {
    var x := Render(ByExactClass(t, c));
    var a := "//" + t;
    var rest := "@class='" + c + "']";
    assert x == a + ['['] + rest;
    OnlyOccurrence(a, '[', rest);
    assert x[|a| + 2] == rest[1];
  }

  lemma ExactClassTag(t: string, c: string)
    requires PlainTag(t) && PlainValue(c)
    ensures DropDoubleSlashes(Before(Render(ByExactClass(t, c)), '[')) == t
  {
    var a := "//" + t;
    var rest := "@class='" + c + "']";
    assert Render(ByExactClass(t, c)) == a + ['['] + rest;
    SplitAtFirst(a, '[', rest);
    TagAfterSlashes(t);
  }

  lemma ExactClassValue(t: string, c: string)
    requires PlainTag(t) && PlainValue(c)
    ensures SecondField(Render(ByExactClass(t, c)), '\'') == c
  {
    var pre := "//" + t + "[@class=";
    assert Render(ByExactClass(t, c)) == pre + ['\''] + (c + "']");
    SplitAtFirst(pre, '\'', c + "']");
    assert c + "']" == c + ['\''] + "]";
    SplitAtFirst(c, '\'', "]");
  }

  lemma RoundTripContainsClass(t: string, c: string)
    requires PlainTag(t) && PlainValue(c)
    ensures ParseSelector(Render(ByContainsClass(t, c))) == Query(Some(t), None, None, Some(c))
  {
    ContainsClassShape(t, c);
    ContainsClassTag(t, c);
    ContainsClassValue(t, c);
  }

  lemma ContainsClassShape(t: string, c: string)
    requires PlainTag(t) && PlainValue(c)
    ensures var x := Render(ByContainsClass(t, c));
            !Contains(x, IdPrefix) && !Contains(x, ExactClassMarker) && Contains(x, ContainsClassMarker)
  {
    var x := Render(ByContainsClass(t, c));
    var a := "//" + t;
    var tail := c + "')]";
    assert x == a + ContainsClassMarker + tail;
    OccursBetween(a, ContainsClassMarker, tail);
    ContainsClassAnchor(t, c);
    AnchoredMismatch(x, IdPrefix, 3, |t| - 1, 4);
    AnchoredMismatch(x, ExactClassMarker, 0, |a|, 1);
  }

  /** The only `[` of a contains-class selector opens the marker, and the
      character after it is the `c` of `contains`. */
  lemma ContainsClassAnchor(t: string, c: string)
    requires PlainTag(t) && PlainValue(c)
    ensures var x := Render(ByContainsClass(t, c));
            && |x| > |t| + 3
            && (forall j | 0 <= j < |x| && x[j] == '[' :: j == |t| + 2)
            && x[|t| + 3] == 'c'
  {
    var x := Render(ByContainsClass(t, c));
    var a := "//" + t;
    var rest := "contains(@class, '" + c + "')]";
    assert x == a + ['['] + rest;
    OnlyOccurrence(a, '[', rest);
    assert x[|a| + 1] == rest[0];
  }

  lemma ContainsClassTag(t: string, c: string)
    requires PlainTag(t) && PlainValue(c)
    ensures DropDoubleSlashes(Before(Render(ByContainsClass(t, c)), '[')) == t
  {
    var a := "//" + t;
    var rest := "contains(@class, '" + c + "')]";
    assert Render(ByContainsClass(t, c)) == a + ['['] + rest;
    SplitAtFirst(a, '[', rest);
    TagAfterSlashes(t);
  }

  lemma ContainsClassValue(t: string, c: string)
    requires PlainTag(t) && PlainValue(c)
    ensures SecondField(Render(ByContainsClass(t, c)), '\'') == c
  {
    var pre := "//" + t + "[contains(@class, ";
    assert Render(ByContainsClass(t, c)) == pre + ['\''] + (c + "')]");
    SplitAtFirst(pre, '\'', c + "')]");
    assert c + "')]" == c + ['\''] + ")]";
    SplitAtFirst(c, '\'', ")]");
  }

  lemma RoundTripTag(t: string)
    requires '[' !in t && '/' !in t
    ensures ParseSelector(Render(ByTag(t))) == Query(Some(t), None, None, None)
  {
    var x := Render(ByTag(t));
    assert '[' !in x;
    MissingCharNotContained(x, IdPrefix, 3);
    MissingCharNotContained(x, ExactClassMarker, 0);
    MissingCharNotContained(x, ContainsClassMarker, 0);
    TagAfterSlashes(t);
  }

  /** Reading a rendered selector gives back exactly the tag, id and class
      that were written into it, provided they are `Recoverable`. */
  lemma RoundTrip(l: Locator)
    requires Recoverable(l) && !l.ByTagFirst?
    ensures ParseSelector(Render(l)) == Intended(l)
  {
    match l
    case ById(v) => RoundTripId(v);
    case ByExactClass(t, c) => RoundTripExactClass(t, c);
    case ByContainsClass(t, c) => RoundTripContainsClass(t, c);
    case ByTag(t) => RoundTripTag(t);
  }

  /** The positional fallback `//tag[1]` matches none of the shapes the
      reader knows, so it is read as carrying no constraint at all. */
  lemma PositionalIsUnconstrained(t: string)
    requires '\'' !in t
    ensures ParseSelector(Render(ByTagFirst(t))) == NoConstraint
  {
    var x := Render(ByTagFirst(t));
    assert '\'' !in x;
    MissingCharNotContained(x, IdPrefix, 8);
    MissingCharNotContained(x, ExactClassMarker, 8);
    MissingCharNotContained(x, ContainsClassMarker, 18);
    assert x[|x| - 3] == '[';
  }
}
