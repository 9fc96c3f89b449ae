# plr_system core, modelled in Dafny

plr_system captures a web page's DOM as nested JSON snapshots and parses
them into `Node` trees. It strips framework-generated attributes, measures
how far two trees drift apart, and writes locators for a target element:
a robust XPath (a ROBULA+ style synthesiser), a CSS selector, and a text
selector. It also fingerprints page text with SimHash. This project models
that core as pure Dafny functions and methods and proves properties of it.

| module | file | models |
|---|---|---|
| `Wrappers` | `wrappers.dfy` | `Option` with `GetOr`, for Python's `None` and `dict.get` |
| `Text` | `text.dfy` | the Python string operations the core uses: `split()`, `strip()`, ASCII `lower()`, substring `in`, `split(c)[0]`/`[1]`, `replace("//", "")`, `join`, and the escaping of quotes |
| `Models` | `models.dfy` | `common/models.py`: `Node`, its `id` and `classes`, `__eq__`, the bracket notation, and `Node.from_json` over a `Snapshot` (the captured JSON dictionary) |
| `Diff` | `diff.dfy` | `analyze/diff.py`: the rename cost and the children function of `DOMTreeConfig` |
| `Selector` | `selector.dfy` | the five XPath shapes the synthesiser writes, and the reader inside `_count_matches` that turns an XPath back into a query |
| `Robula` | `robula.dfy` | `generator/robula.py`: the weight table, match counting, and `generate_xpath`; also the two scenarios of `verify_fix.py` |
| `Bundle` | `bundle.dfy` | `generator/bundle.py`: the primary, secondary and tertiary locators |
| `Adaptive` | `adaptive.dfy` | `generator/adaptive.py`: the adaptive weight table |
| `Cleaner` | `cleaner.dfy` | `ingest/cleaner.py`: removal of dynamic attribute keys |
| `Bits` | `bits.dfy` | non-negative integers as bit strings: shift-and-mask, `^`, `&`, popcount, `hex()`, `zfill`, `int(s, 16)` |
| `SimHash` | `simhash.dfy` | `common/simhash.py`: the fingerprint, its hex text, and the Hamming distance |

## How the model is built

- `generate_xpath` returns a string. The model returns a structured `Locator` whose
  `Render` is exactly that string.
  - Uniqueness is still decided on the rendered string, through the same reader
    the source uses (`Selector.ParseSelector`).
  - So the match counter sees what the source sees.
  - `Selector.RoundTrip` proves that the reader recovers the id, tag and class
    the synthesiser wrote, under the condition `Selector.Recoverable`:
    - an id holds no `'`;
    - in the two class forms, the tag holds no `'`, `[` or `/`, and the class
      holds no `'` or `[`;
    - a bare tag holds no `[` or `/`.
- Exceptions become values or parameters.
  - `int(s, 16)` failing is `None`.
  - The synthesiser raising inside `_generate_primary` is the boolean `raised`.
    For a `Node` target, only Python's recursion limit on a very deep tree can
    cause it.
  - `main.py:103-125` can also hand `generate_bundle` a `None` target (a node
    the diff mapping pairs with nothing). Then the fallback raises as well.
    That case is outside the model, where the target is always a `Node`.
- The SimHash token hash (MD5 of the UTF-8 bytes) and the `\w+` tokeniser are
  function parameters. Every property about them holds for any hash and any
  tokeniser.
- The cleaner's six regular expressions are anchored. Each one is modelled as
  the exact-match, prefix or `ember`-then-digits test it amounts to.
- Integers are unbounded. This matches Python, where the source's `int`
  arithmetic never wraps.

## Behaviour worth knowing

- The `contains(@class, ...)` tier of `generate_xpath` needs the class weight
  to be above 0.5, like the exact-class tier: `generator/robula.py:29` gates
  both tiers with one test.
- A selector that the reader recognises as none of its four shapes (the
  positional `//tag[1]`) puts no constraint on nodes, so every node of the
  tree counts. `Robula.UnrecognisedSelectorCountsEveryNode` states this, and
  `Robula.PositionalFallbackIsNotUnique` shows that the positional form
  therefore never counts as unique.
- `verify_fix.py:22` expects the `contains(@class, ...)` form for a node
  whose single class is unique. The exact-class tier (`generator/robula.py:31-34`)
  is tried first and already succeeds, so `generate_xpath` returns
  `//div[@class='link-text-2']`
  (`Robula.UniqueClassGivesExactForm`, `Robula.VerifyFixScenarios`).
- A node whose text is all whitespace has truthy text, so the test at
  `generator/bundle.py:42` passes, and lines 43-44 quote its empty strip:
  `text=''`
  (`Bundle.WhitespaceTextQuotesNothing`).
- The adaptive table has no `text` key and gives `tag` 0.5. Handed to the
  synthesiser, it gains `text` 0.5 from the defaults and keeps its own `tag`
  weight instead of the synthesiser's 0.2.

## Model

| member | source | states |
|---|---|---|
| `Models.NewNode` | common/models.py:8-18 | the tag is never empty (`unknown` replaces an empty one); missing attributes or children become empty; the text is kept |
| `Models.Get` | analyze/diff.py:26 | `attrs.get(k)` is present exactly when `k` is a key, and then it is that key's value |
| `Models.IdOf` | common/models.py:13 | the id is present exactly when the attribute map has an `id` key, and it is that value |
| `Models.ClassesOf` | common/models.py:14-18 | the classes are non-empty, whitespace-free words that together hold every non-space character of the `class` attribute, in order; they are its maximal runs, so whitespace separates every two of them; no `class` key gives no classes |
| `Models.SameIsLabelEquivalence` | common/models.py:20-30 | node equality is reflexive, symmetric and transitive, `!=` is its negation, and children never affect it |
| `Models.BracketIsPreOrderLabels` | common/models.py:39-49 | the bracket notation is the `{tag}` labels of the nodes in pre-order |
| `Models.BracketOpensOncePerNode` | common/models.py:39-49 | when no tag holds `{`, the notation opens exactly one brace per node of the tree |
| `Models.FromJson` | common/models.py:54-57 | empty or missing data gives the bare `unknown` node; anything else is parsed |
| `Models.Parse` | common/models.py:59-75 | a parsed node carries the snapshot's attributes and text and the lower-cased tag (`unknown` when that is empty); it has one child per kept child entry, plus one `shadow-root` wrapper, holding the shadow tree's children, exactly when a non-empty shadow root is present |
| `Models.KeptChildren` | common/models.py:64-67 | only non-empty entries that are not `#text` are kept, and every such entry is kept |
| `Models.KeptChildrenConcat` | common/models.py:64-67 | the kept entries of a list are those of its first part followed by those of the rest |
| `Models.KeptChildrenOne` | common/models.py:64-67 | a single entry is kept exactly when it is non-empty and not `#text`; with `Models.KeptChildrenConcat`, the kept entries are the others removed, order and repeats intact |
| `Models.ParsedChildren` | common/models.py:64-73 | the kept children are parsed in their original order, and the shadow wrapper comes last |
| `Models.ParsedTreeWellFormed` | common/models.py:54-75 | every tag of a parsed tree is non-empty and has no ASCII capital |
| `Text.WordsKeepEveryNonSpace` | common/models.py:16 | `split()` loses only whitespace: concatenating the words gives the non-space characters of the input |
| `Text.Words` | common/models.py:16 | every word of `split()` is non-empty and holds no whitespace |
| `Text.WordsAreMaximalRuns` | common/models.py:16 | the input is exactly its words, in order, with whitespace before, between and after them, and at least one whitespace character between every two words |
| `Text.MaximalRunsAreWords` | common/models.py:16 | conversely, any way of writing the input as non-empty whitespace-free words separated by whitespace is the one `split()` returns |
| `Text.WordsOfSingleWord` | common/models.py:16 | a non-empty string without whitespace splits into itself alone |
| `Text.Strip` | generator/bundle.py:42-43 | `strip()` removes a whitespace prefix and suffix and leaves no whitespace at either end; the result is empty exactly when the input is all whitespace |
| `Text.Lower` | common/models.py:60 | `lower()` keeps the length and lowers each character on its own |
| `Text.LowerIdempotent` | common/simhash.py:18 | lower-casing twice is lower-casing once, and leaves no ASCII capital |
| `Text.SplitAtFirst` | generator/robula.py:74-80 | in `a + c + b` with no `c` in `a`, the first `c` sits right after `a`, at the length of `a`, with `a` before it and `b` after it; these are the pieces that `split(c)[0]` and `split(c)[1]` are cut from |
| `Text.SplitJoin` | generator/bundle.py:36 | splitting a `join` on its separator gives the parts back when no part holds the separator |
| `Text.SplitOnCount` | generator/bundle.py:36 | `split(c)` yields one more part than the text holds `c` characters |
| `Text.JoinCount` | generator/bundle.py:36 | a join holds a separator between every two parts, on top of those the parts hold |
| `Text.SplitJoinOverflows` | generator/bundle.py:36 | when a part holds the separator, splitting the join yields more parts than were joined |
| `Text.DropDoubleSlashes` | generator/robula.py:76 | `replace("//", "")` leaves no `//`, never lengthens the text, keeps a first character that is not a slash, and keeps every character other than `/`, in order |
| `Text.EscapeQuotes` | generator/bundle.py:43 | `replace("'", "\\'")` never shortens the text, and every `'` in the result comes right after a backslash |
| `Text.UnescapeEscape` | generator/bundle.py:43 | escaping `'` as `\'` loses nothing: unescaping gives the text back |
| `Diff.Rename` | analyze/diff.py:7-31 | different tags cost 1; the same tag costs between 0 and 0.5 |
| `Diff.CapNeverBinds` | analyze/diff.py:24-31 | the `min(0.5, ...)` cap never applies: a same-tag rename costs half the fraction of keys whose values differ (as an exact rational; see `Diff.Rename` under Left out) |
| `Diff.RenameFreeIffSameAttributes` | analyze/diff.py:11-31 | a same-tag rename is free exactly when the two attribute maps are equal |
| `Diff.RenameSymmetric` | analyze/diff.py:7-31 | renaming `a` to `b` costs the same as renaming `b` to `a` |
| `Diff.FreeRenameIsNotEquality` | analyze/diff.py:11-31 | equal nodes rename for free, but two nodes differing only in text also rename for free while comparing unequal |
| `Diff.Children` | analyze/diff.py:33-34 | the tree-edit distance sees a node's children in their stored order, none added or dropped |
| `Diff.BundledExample` | analyze/diff.py:71-74 | in the built-in example (`body > div` with two different ids) the bodies rename for free and the divs cost 0.5 |
| `Robula.SetDefault` | generator/robula.py:12-16 | `setdefault` adds the key only when it is missing and changes no existing entry |
| `Robula.WithDefaults` | generator/robula.py:9-16 | the table holds the caller's keys plus `id`, `class`, `name`, `text` and `tag`; the caller's values win, and missing ones get 1.0, 0.8, 0.8, 0.5 and 0.2 |
| `Robula.DefaultWeights` | generator/robula.py:9-16 | without caller weights the table is exactly the five defaults |
| `Selector.Render` | generator/robula.py:24-52 | every selector starts with `//`, and every shape but the id one names its tag right after it |
| `Selector.ParseSelector` | generator/robula.py:73-82 | the reader tries the id shape, then the exact-class shape, then the contains shape, then a bare tag; the first test that succeeds sets exactly its own targets, a value read between quotes holds no quote, and a tag read back holds no `//`; it returns the empty query exactly when none of the four applies (the selectors `//` and `//*` pass the bare-tag test, yet the tags `""` and `*` they give constrain no node when matching) |
| `Selector.RoundTripId` | generator/robula.py:73-74 | the reader recovers the id from `//*[@id='v']` (written at line 24) when `v` holds no quote |
| `Selector.RoundTripExactClass` | generator/robula.py:75-77 | the reader recovers tag and class from `//t[@class='c']` |
| `Selector.RoundTripContainsClass` | generator/robula.py:78-80 | the reader recovers tag and class from `//t[contains(@class, 'c')]` |
| `Selector.RoundTripTag` | generator/robula.py:81-82 | the reader recovers the tag from `//t` |
| `Selector.RoundTrip` | generator/robula.py:22-82 | every shape but the positional one reads back as the id, tag and class it was written from |
| `Selector.PositionalIsUnconstrained` | generator/robula.py:73-82 | the positional form `//t[1]` reads back as no constraint at all |
| `Robula.CountMatches` | generator/robula.py:60-104 | the count is the number of nodes of the tree's pre-order, root included, that satisfy what the reader finds in the selector, so never more than the number of nodes |
| `Robula.IsUnique` | generator/robula.py:54-58 | a selector is unique exactly when one node of the tree, and no other, satisfies it |
| `Robula.UniqueCountMeaning` | generator/robula.py:54-58 | a count of one is a single matching node, and the other way round |
| `Robula.CountIsPreOrderCount` | generator/robula.py:84-103 | the recursive traversal counts the matching nodes of the tree's pre-order |
| `Robula.CountBounds` | generator/robula.py:60-104 | the count is at most the number of nodes, equals it for an unconstrained query, and is at least 1 when some node matches |
| `Robula.UnrecognisedSelectorCountsEveryNode` | generator/robula.py:73-104 | the positional selector matches every node of the tree |
| `Robula.FirstUniqueIndex` | generator/robula.py:37-40 | the index found is of a class whose `contains` selector is unique, and no earlier class's is |
| `Robula.FirstUniqueContains` | generator/robula.py:37-40 | the contains loop returns the first class, in declaration order, whose selector is unique, or nothing when none is |
| `Robula.GenerateXPath` | generator/robula.py:18-52 | each attribute form passed its tier's weight gate and is unique; a unique id wins; `//tag` is returned exactly when the tag counts at most once; the fallback is reached only when no attribute candidate was unique |
| `Robula.ContainsTierTakesFirstUniqueClass` | generator/robula.py:36-40 | a contains-form result names the first class whose selector is unique |
| `Robula.SynthesisedSelectorSelectsOneNode` | generator/robula.py:22-48 | read back, any non-positional result selects exactly one node of the context |
| `Robula.PositionalFallbackIsNotUnique` | generator/robula.py:46-52 | the positional fallback matches every node, and there are at least two |
| `Robula.ExactFormWins` | generator/robula.py:29-34 | with no id, a single class and an open class tier, a unique exact-class selector is returned |
| `Robula.PositionalFormWhenNothingUnique` | generator/robula.py:28-52 | with a single class that is unique in neither form and a tag that occurs more than once, the result is the positional form |
| `Robula.UniqueClassGivesExactForm` | verify_fix.py:8-26 | in the first scenario (target class unique, siblings `navbar` and `footer`) the result is the exact-class form, which differs from the `contains` form the test expects |
| `Robula.SharedClassFallsBackToPosition` | verify_fix.py:28-42 | in the second scenario (two divs share the class) the result is the positional form, which holds no `contains` |
| `Robula.VerifyFixScenarios` | verify_fix.py:8-42 | both scenarios, instantiated with `link-text-2` |
| `Bundle.Primary` | generator/bundle.py:20-25 | the synthesiser's XPath under default weights; if it raises, the id form when the node has an id, else the tag form |
| `Bundle.Secondary` | generator/bundle.py:27-38 | `#id`; else a `.` followed by the classes, which splitting on `.` gives back when no class holds a dot and which splits into more parts than there are classes when one does; else the bare tag |
| `Bundle.Tertiary` | generator/bundle.py:40-47 | when the text is truthy and strips to under 50 characters, `text='...'` around the stripped text with every `'` escaped as `\'`, so no quote inside can end the literal, and the unescaped body is the stripped text; otherwise `xpath=//tag` |
| `Bundle.GenerateBundle` | generator/bundle.py:9-18 | exactly the keys `primary`, `secondary`, `tertiary`, holding the three locators |
| `Bundle.ContextOnlyAffectsPrimary` | generator/bundle.py:13-18 | the secondary and tertiary entries depend on the target alone |
| `Bundle.FallbackIsReadable` | generator/bundle.py:24-25 | the exception fallback reads back as the node's id, or as its tag |
| `Bundle.WhitespaceTextQuotesNothing` | generator/bundle.py:42-44 | whitespace-only text gives `text=''` |
| `Bundle.TertiaryDistinguishesTexts` | generator/bundle.py:42-44 | two quoted texts whose strips differ give different tertiary locators |
| `Adaptive.NewWeighter` | generator/adaptive.py:8-10 | a new weighter has an empty history and penalty factor 0.5 |
| `Adaptive.FindUnstableAttributes` | generator/adaptive.py:29-31 | no attribute class is ever reported unstable |
| `Adaptive.WeightTable` | generator/adaptive.py:13-25 | keys `id`, `class`, `name`, `tag`; class and name 0.8, tag 0.5; id 1.0, or the penalty when ids are unstable |
| `Adaptive.GetWeights` | generator/adaptive.py:12-27 | the table handed out is always the unpenalised one |
| `Adaptive.WeightsIgnoreHistory` | generator/adaptive.py:12-31 | the history never changes the table |
| `Adaptive.OnlyIdPenalised` | generator/adaptive.py:22-25 | the penalty scales the id weight by the factor and changes no other entry |
| `Adaptive.AdaptiveTableUnderDefaults` | generator/adaptive.py:13-18 | handed to the synthesiser, the table gains `text` 0.5 and keeps `tag` 0.5 instead of the default 0.2 |
| `Adaptive.PenaltyClosesIdTier` | generator/adaptive.py:22-25 | a penalised id weight of exactly 0.5 fails the `> 0.5` gate, so the synthesiser never returns the id form |
| `Adaptive.AdaptiveTableOpensSameTiers` | generator/adaptive.py:13-18 | unpenalised, the adaptive table opens the id and class tiers exactly when the defaults do |
| `Cleaner.AnyMatch` | ingest/cleaner.py:51-53 | the pattern loop answers true exactly when some pattern matches |
| `Cleaner.DynamicPatternsMatch` | ingest/cleaner.py:7-14 | some pattern of the list matches a key exactly when it is `data-reactid`, starts with `ng-content-`, `_ngcontent-`, `data-v-` or `react-id`, or is `ember` followed by digits |
| `Cleaner.IsDynamic` | ingest/cleaner.py:49-63 | a key is dynamic exactly when it has one of those six shapes; the value never matters |
| `Cleaner.CleanAttributes` | ingest/cleaner.py:33-40 | the filtered map keeps exactly the non-dynamic keys, with their values |
| `Cleaner.CleanAttributeEntry` | ingest/cleaner.py:33 | only a present, non-empty attribute map is filtered |
| `Cleaner.Clean` | ingest/cleaner.py:17-47 | cleaning changes only attribute maps: names, values, and the presence and number of children and shadow roots stay |
| `Cleaner.CleanLeavesNoDynamicKey` | ingest/cleaner.py:32-47 | no attribute map anywhere in a cleaned tree, shadow roots included, has a dynamic key |
| `Cleaner.CleanKeepsClearTree` | ingest/cleaner.py:32-47 | a tree with no dynamic key is left as it is |
| `Cleaner.CleanIdempotent` | ingest/cleaner.py:17-47 | cleaning twice is cleaning once |
| `Cleaner.ParseAfterClean` | ingest/cleaner.py:32-47 | parsing a cleaned snapshot gives the parsed snapshot with its attributes filtered |
| `Bits.BitOfFromBits` | common/simhash.py:36-39 | bit `i` of the assembled number is the `i`-th flag |
| `Bits.FromBitsBound` | common/simhash.py:36-39 | a number assembled from `w` flags is below `2**w` |
| `Bits.ClearLowestBit` | common/simhash.py:51-53 | `x &= x - 1` clears exactly one set bit |
| `Bits.MaskedXorCountsDifferences` | common/simhash.py:49 | the set bits of `(h1 ^ h2) & ((1 << w) - 1)` are the positions below `w` where the two numbers differ |
| `Bits.DiffCountSymmetric` | common/simhash.py:43-54 | the number of differing positions is symmetric |
| `Bits.ParseHex` | common/simhash.py:47-48 | `int(s, 16)` succeeds exactly on non-empty text of hex digits |
| `Bits.HexDigits` | common/simhash.py:41 | `hex(x)[2:]` has at least one digit and no leading zero unless `x` is 0; `Bits.HexRoundTrip` reads it back |
| `Bits.ZFill` | common/simhash.py:41 | `zfill(n)` pads with zeros on the left to length `n` and keeps the text as its suffix |
| `Bits.HexRoundTrip` | common/simhash.py:41-48 | reading `hex(x)[2:].zfill(n)` as hex gives `x` back |
| `Bits.HexWidth` | common/simhash.py:41 | a number below `2**w` writes in at most `w/4` hex digits, so the zero-filled text has exactly `w/4` |
| `SimHash.FingerprintBit` | common/simhash.py:23-39 | a fingerprint bit is set exactly when it is below the width and at least as many tokens have that hash bit set as have it clear |
| `SimHash.NoTokensSetsEveryBit` | common/simhash.py:36-39 | with no tokens every vote is 0, so every bit of the width is set |
| `SimHash.FingerprintIgnoresOrder` | common/simhash.py:23-33 | the fingerprint depends only on the multiset of tokens |
| `SimHash.Votes` | common/simhash.py:21-33 | the vote at each position is the number of tokens with that hash bit set minus the number with it clear |
| `SimHash.Assemble` | common/simhash.py:36-39 | or-ing in `1 << i` for every non-negative vote builds the number whose bits are those flags |
| `SimHash.Compute` | common/simhash.py:12-41 | the hex text reads back as the fingerprint of the lower-cased tokens and, for a width that is a positive multiple of 4, has exactly `width/4` digits |
| `SimHash.Distance` | common/simhash.py:43-54 | fails exactly when either text is not hex; otherwise it is the number of differing bit positions below the width |
| `SimHash.GetSimhashDistance` | common/simhash.py:56-60 | the distance of two texts is the number of differing fingerprint bits, at most 64, and 0 when the texts agree after lower-casing |
| `SimHash.CaseBlind` | common/simhash.py:18 | ASCII case never reaches the fingerprint |

## Left out

- The tree-edit distance (`StructuralDiffer.diff`, from the APTED library) is a foreign library call; only the cost model handed to it is modelled.
- Capture, the beacon, recovery, the registry, git operations, `main.py` and the diagnostic scripts are outside the modelled core.
- The MD5 token hash and the `\w+` tokeniser of `common/simhash.py` are parameters of `SimHash.Compute`; their own behaviour is not modelled.
- Text.Lower: only ASCII capitals are lowered; Python's `lower()` also lowers non-ASCII letters.
- Cleaner.DynamicPatternsMatch: `\d` is taken as the ASCII digits; Python's `re` also accepts other Unicode decimal digits, `$` also accepts a key that ends in one newline, and the `.*` of the prefix patterns does not match a newline, so a key with a newline after its prefix (other than one final newline) is kept by the source but dropped by the model.
- The value test of `_is_dynamic` (`key == 'id'` with three trailing digits) has no effect in the source and is not modelled beyond ignoring the value.
- Models.Parse: JSON `null` values, non-dictionary values and keys other than `nodeName`, `attributes`, `nodeValue`, `children` and `shadowRoot` are not modelled; a snapshot is empty exactly when those five fields are absent.
- Bits.ParseHex: Python's `int(s, 16)` also accepts a `0x` prefix, underscores, surrounding whitespace and a sign; the model accepts plain hex digits only.
- SimHash.Compute: the width is a natural number; a negative width is not modelled.
- Bundle.Primary: what makes the synthesiser raise is left out; whether it did is the parameter `raised`. A `None` target, which `main.py` can pass, is not modelled.
- Robula.WithDefaults: returns a new table, where the source fills in the caller's own dictionary, which the caller then sees changed.
- Cleaner.Clean: returns a new snapshot, as the source does through `copy.deepcopy`; the in-place deletion inside the copy is not modelled step by step.
- Diff.Rename: costs are exact rationals, where `analyze/diff.py:30` computes `(mismatches / len(keys)) * 0.5` in double-precision floating point and so rounds, for example, 1 mismatch in 3 keys. The bounds between 0 and 0.5, the symmetry, and the zero cost exactly when no value differs hold either way, since the rounded division is monotone and halving is exact.
- Diff.BundledExample: states the example for any two different ids, of which `a` and `b` are one instance; the printing of the distance and the mapping is output only.
- Robula.UniqueClassGivesExactForm and Robula.SharedClassFallsBackToPosition are stated for any single-word class (other than `navbar` and `footer` in the first scenario), with `link-text-2` as one instance in `Robula.VerifyFixScenarios`.
- `Node.add_child`, `Node.name` and `Node.__repr__` are mutation or display helpers; `from_json` is modelled as building the children list directly.
