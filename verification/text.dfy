/**
  The handful of Python `str` operations the locator code relies on, over
  `string` = `seq<char>`: whitespace splitting and stripping, ASCII
  lower-casing, substring tests, `split` on one character, `replace` for
  the two fixed patterns the code uses, and `join`.
 */
module Text {

  /** Python's `str.isspace()` for one character: the separators used by
      `str.split()` and `str.strip()` without arguments. */
  predicate IsSpace(c: char) {
    || c in {'\t', '\n', '\U{B}', '\U{C}', '\r', '\U{1C}', '\U{1D}', '\U{1E}', '\U{1F}', ' '}
    || c in {'\U{85}', '\U{A0}', '\U{1680}', '\U{2028}', '\U{2029}', '\U{202F}', '\U{205F}', '\U{3000}'}
    || ('\U{2000}' <= c <= '\U{200A}')
  }

  predicate NoSpace(s: string) {
    forall i | 0 <= i < |s| :: !IsSpace(s[i])
  }

  predicate AllSpace(s: string) {
    forall i | 0 <= i < |s| :: IsSpace(s[i])
  }

  // ---------------------------------------------------------------------
  // str.split() without a separator
  // ---------------------------------------------------------------------

  /** Length of the leading run of non-whitespace characters of `s`. */
  function WordLength(s: string): (n: nat)
    ensures n <= |s|
    ensures forall i | 0 <= i < n :: !IsSpace(s[i])
    ensures n < |s| ==> IsSpace(s[n])
  {
    if s == [] || IsSpace(s[0]) then 0 else 1 + WordLength(s[1..])
  }

  /** Python's `s.split()`: the maximal runs of non-whitespace, in order. */
  function Words(s: string): (ws: seq<string>)
    ensures forall k | 0 <= k < |ws| :: ws[k] != [] && NoSpace(ws[k])
    decreases |s|
  {
    if s == [] then []
    else if IsSpace(s[0]) then Words(s[1..])
    else
      var n := WordLength(s);
      [s[..n]] + Words(s[n..])
  }

  /** Concatenation of a list of strings. */
  function Flatten(ws: seq<string>): string {
    if ws == [] then [] else ws[0] + Flatten(ws[1..])
  }

  /** `s` with every whitespace character deleted. */
  function NonSpace(s: string): string {
    if s == [] then [] else (if IsSpace(s[0]) then [] else [s[0]]) + NonSpace(s[1..])
  }

  lemma {:induction false} NonSpaceConcat(a: string, b: string)
    ensures NonSpace(a + b) == NonSpace(a) + NonSpace(b)
    decreases |a|
  {
    if a != [] {
      assert (a + b)[1..] == a[1..] + b;
      NonSpaceConcat(a[1..], b);
    } else {
      assert a + b == b;
    }
  }

  lemma {:induction false} NonSpaceOfWord(w: string)
    requires NoSpace(w)
    ensures NonSpace(w) == w
    decreases |w|
  {
    if w != [] {
      NonSpaceOfWord(w[1..]);
    }
  }

  /** The words of `s` are exactly its non-whitespace characters, cut into
      pieces: nothing but whitespace is dropped, and nothing is reordered. */
  lemma {:induction false} WordsKeepEveryNonSpace(s: string)
    ensures Flatten(Words(s)) == NonSpace(s)
    decreases |s|
  {
    if s == [] {
    } else if IsSpace(s[0]) {
      WordsKeepEveryNonSpace(s[1..]);
    } else {
      var n := WordLength(s);
      WordsKeepEveryNonSpace(s[n..]);
      NonSpaceOfWord(s[..n]);
      NonSpaceConcat(s[..n], s[n..]);
      assert s == s[..n] + s[n..];
    }
  }

  /** A non-empty string without whitespace is its own single word. */
  lemma {:induction false} WordsOfSingleWord(s: string)
    requires s != [] && NoSpace(s)
    ensures Words(s) == [s]
  {
    WordLengthOfWord(s);
    assert s[|s|..] == [];
    assert s[..|s|] == s;
  }

  lemma {:induction false} WordLengthOfWord(s: string)
    requires NoSpace(s)
    ensures WordLength(s) == |s|
    decreases |s|
  {
    if s != [] {
      WordLengthOfWord(s[1..]);
    }
  }

  /** The words `ws` laid out with the whitespace runs `gaps` around them:
      `gaps[0]` before the first word, `gaps[i]` between words `i - 1` and
      `i`, and `gaps[|ws|]` after the last. */
  function Interleave(gaps: seq<string>, ws: seq<string>): string
    requires |gaps| == |ws| + 1
    decreases |ws|
  {
    if ws == [] then gaps[0] else gaps[0] + ws[0] + Interleave(gaps[1..], ws[1..])
  }

  /** `s` is the words `ws` separated by whitespace: every gap is whitespace
      and the gaps between two words are not empty. */
  predicate SpacedBy(s: string, ws: seq<string>, gaps: seq<string>) {
    && |gaps| == |ws| + 1
    && (forall i | 0 <= i < |gaps| :: AllSpace(gaps[i]))
    && (forall i | 0 < i < |ws| :: gaps[i] != [])
    && s == Interleave(gaps, ws)
  }

  /** The words of `s` are its maximal non-whitespace runs: `s` is exactly
      the words, in order, with whitespace between every two of them. */
  lemma WordsAreMaximalRuns(s: string)
    ensures exists gaps :: SpacedBy(s, Words(s), gaps)
  {
    var gaps := WordGaps(s);
  }

  lemma {:induction false} WordGaps(s: string) returns (gaps: seq<string>)
    ensures SpacedBy(s, Words(s), gaps)
    decreases |s|
  {
    if s == [] {
      gaps := [[]];
    } else if IsSpace(s[0]) {
      var g := WordGaps(s[1..]);
      gaps := SpaceBefore(s[0], s[1..], Words(s[1..]), g);
      assert s == [s[0]] + s[1..];
    } else {
      var n := WordLength(s);
      var g := WordGaps(s[n..]);
      assert s == s[..n] + s[n..];
      gaps := WordBefore(s[..n], s[n..], Words(s[n..]), g);
    }
  }

  /** One more whitespace character in front joins the first gap. */
  lemma SpaceBefore(c: char, t: string, ws: seq<string>, g: seq<string>) returns (gaps: seq<string>)
    requires IsSpace(c) && SpacedBy(t, ws, g)
    ensures SpacedBy([c] + t, ws, gaps)
  {
    gaps := [[c] + g[0]] + g[1..];
    if ws != [] {
      assert Interleave(gaps, ws) == ([c] + g[0]) + ws[0] + Interleave(g[1..], ws[1..]);
    }
    assert AllSpace(gaps[0]) by {
      assert forall k | 0 < k < |gaps[0]| :: gaps[0][k] == g[0][k - 1];
    }
    assert forall i | 0 < i < |gaps| :: gaps[i] == g[i];
  }

  /** A word in front, followed by nothing or whitespace, takes an empty
      first gap. */
  lemma WordBefore(w: string, t: string, ws: seq<string>, g: seq<string>) returns (gaps: seq<string>)
    requires w != [] && SpacedBy(t, ws, g)
    requires t == [] || IsSpace(t[0])
    requires ws == [] || (ws[0] != [] && !IsSpace(ws[0][0]))
    ensures SpacedBy(w + t, [w] + ws, gaps)
  {
    gaps := [[]] + g;
    assert gaps[1..] == g && ([w] + ws)[1..] == ws;
    assert Interleave(gaps, [w] + ws) == [] + w + Interleave(g, ws);
    assert forall i | 0 < i < |gaps| :: gaps[i] == g[i - 1];
  }

  /** A word followed by nothing or by whitespace has its own length as
      leading run. */
  lemma {:induction false} WordLengthBeforeSpace(w: string, t: string)
    requires NoSpace(w) && (t == [] || IsSpace(t[0]))
    ensures WordLength(w + t) == |w|
    decreases |w|
  {
    if w != [] {
      assert (w + t)[1..] == w[1..] + t;
      WordLengthBeforeSpace(w[1..], t);
    } else {
      assert w + t == t;
    }
  }

  /** Conversely, any way of writing `s` as non-empty whitespace-free words
      separated by whitespace is the one `split()` finds. */
  lemma {:induction false} MaximalRunsAreWords(s: string, ws: seq<string>, gaps: seq<string>)
    requires SpacedBy(s, ws, gaps)
    requires forall k | 0 <= k < |ws| :: ws[k] != [] && NoSpace(ws[k])
    ensures Words(s) == ws
    decreases |s|
  {
    if gaps[0] != [] {
      var g0 := gaps[0][1..];
      var gaps' := [g0] + gaps[1..];
      if ws == [] {
        assert s[1..] == Interleave(gaps', ws);
      } else {
        assert s == [gaps[0][0]] + (g0 + ws[0] + Interleave(gaps[1..], ws[1..]));
        assert Interleave(gaps', ws) == g0 + ws[0] + Interleave(gaps[1..], ws[1..]);
      }
      assert gaps[0] == [gaps[0][0]] + g0;
      assert IsSpace(s[0]);
      MaximalRunsAreWords(s[1..], ws, gaps');
    } else if ws != [] {
      var w := ws[0];
      var rest := Interleave(gaps[1..], ws[1..]);
      assert s == w + rest;
      if rest != [] {
        if ws[1..] == [] {
          assert rest == gaps[1];
        } else {
          assert gaps[1] != [];
          assert rest == gaps[1] + ws[1] + Interleave(gaps[2..], ws[2..]);
          assert rest[0] == gaps[1][0];
        }
      }
      WordLengthBeforeSpace(w, rest);
      assert s[..|w|] == w && s[|w|..] == rest;
      MaximalRunsAreWords(rest, ws[1..], gaps[1..]);
    }
  }

  // ---------------------------------------------------------------------
  // str.strip() without arguments
  // ---------------------------------------------------------------------

  function StripStart(s: string): (r: string)
    ensures |r| <= |s| && r == s[|s| - |r|..]
    ensures AllSpace(s[..|s| - |r|])
    ensures r == [] || !IsSpace(r[0])
  {
    if s != [] && IsSpace(s[0]) then
      var r := StripStart(s[1..]);
      assert s[..|s| - |r|] == [s[0]] + s[1..][..|s| - 1 - |r|];
      AllSpaceConcat([s[0]], s[1..][..|s| - 1 - |r|]);
      r
    else s
  }

  function StripEnd(s: string): (r: string)
    ensures |r| <= |s| && r == s[..|r|]
    ensures AllSpace(s[|r|..])
    ensures r == [] || !IsSpace(r[|r| - 1])
  {
    if s != [] && IsSpace(s[|s| - 1]) then
      var p := s[..|s| - 1];
      var r := StripEnd(p);
      assert s[|r|..] == p[|r|..] + [s[|s| - 1]];
      AllSpaceConcat(p[|r|..], [s[|s| - 1]]);
      r
    else s
  }

  /** `r` sits at offset `i` of `s` with only whitespace around it. */
  predicate StrippedAt(s: string, r: string, i: nat) {
    && i + |r| <= |s|
    && r == s[i..i + |r|]
    && AllSpace(s[..i])
    && AllSpace(s[i + |r|..])
  }

  /** Python's `s.strip()`: the slice of `s` left after removing leading and
      trailing whitespace. */
  function Strip(s: string): (r: string)
    ensures exists i: nat :: StrippedAt(s, r, i)
    ensures r == [] || (!IsSpace(r[0]) && !IsSpace(r[|r| - 1]))
    ensures r == [] <==> AllSpace(s)
  {
    var a := StripStart(s);
    var r := StripEnd(a);
    assert r != [] ==> r[0] == a[0];
    StripParts(s, a, r);
    ghost var i: nat := |s| - |a|;
    assert StrippedAt(s, r, i);
    r
  }

  lemma StripParts(s: string, a: string, r: string)
    requires |a| <= |s| && a == s[|s| - |a|..] && AllSpace(s[..|s| - |a|])
    requires |r| <= |a| && r == a[..|r|] && AllSpace(a[|r|..])
    requires r == [] || !IsSpace(r[0])
    ensures StrippedAt(s, r, |s| - |a|)
    ensures r == [] <==> AllSpace(s)
  {
    var i := |s| - |a|;
    assert s[i..i + |r|] == a[..|r|];
    assert s[i + |r|..] == a[|r|..];
    if r == [] {
      assert a[|r|..] == a;
      AllSpaceConcat(s[..i], a);
      assert s[..i] + a == s;
    } else {
      assert s[i] == r[0];
    }
  }

  lemma AllSpaceConcat(x: string, y: string)
    requires AllSpace(x) && AllSpace(y)
    ensures AllSpace(x + y)
  {
    forall k | 0 <= k < |x + y|
      ensures IsSpace((x + y)[k])
    {
      if k < |x| {
        assert (x + y)[k] == x[k];
      } else {
        assert (x + y)[k] == y[k - |x|];
      }
    }
  }

  // ---------------------------------------------------------------------
  // str.lower(), ASCII letters only
  // ---------------------------------------------------------------------

  predicate IsAsciiUpper(c: char) {
    'A' <= c <= 'Z'
  }

  function LowerChar(c: char): (d: char)
    ensures !IsAsciiUpper(d)
    ensures !IsAsciiUpper(c) ==> d == c
  {
    if IsAsciiUpper(c) then (c as int + 32) as char else c
  }

  /** Python's `s.lower()` restricted to the ASCII letters A-Z. */
  function Lower(s: string): (r: string)
    ensures |r| == |s|
    ensures forall i | 0 <= i < |s| :: r[i] == LowerChar(s[i])
  {
    seq(|s|, i requires 0 <= i < |s| => LowerChar(s[i]))
  }

  /** Lower-casing is idempotent and never yields an ASCII capital. */
  lemma LowerIdempotent(s: string)
    ensures Lower(Lower(s)) == Lower(s)
    ensures forall i | 0 <= i < |s| :: !IsAsciiUpper(Lower(s)[i])
  {
  }

  // ---------------------------------------------------------------------
  // `p in s` for strings
  // ---------------------------------------------------------------------

  predicate OccursAt(s: string, p: string, i: nat) {
    i + |p| <= |s| && s[i..i + |p|] == p
  }

  /** Python's substring test `p in s`. */
  predicate Contains(s: string, p: string) {
    exists i: nat | i <= |s| :: OccursAt(s, p, i)
  }

  /** A pattern holding a character that `s` lacks does not occur in `s`. */
  lemma MissingCharNotContained(s: string, p: string, k: nat)
    requires k < |p| && p[k] !in s
    ensures !Contains(s, p)
  {
    forall i: nat | i <= |s|
      ensures !OccursAt(s, p, i)
    {
      if i + |p| <= |s| {
        assert s[i + k] in s;
        assert s[i..i + |p|][k] != p[k];
      }
    }
  }

  /** If every occurrence of `p` in `s` would have to start at `i0`, and it
      does not occur there, it does not occur at all. */
  lemma NotContainedByAnchor(s: string, p: string, k: nat, i0: int)
    requires k < |p|
    requires forall j | 0 <= j < |s| && s[j] == p[k] :: j == i0 + k
    requires !(0 <= i0 && OccursAt(s, p, i0))
    ensures !Contains(s, p)
  {
    forall i: nat | i <= |s|
      ensures !OccursAt(s, p, i)
    {
      if i + |p| <= |s| && i != i0 {
        assert s[i..i + |p|][k] != p[k];
      }
    }
  }

  /** `p` occurs right after `a` in `a + p + b`. */
  lemma OccursBetween(a: string, p: string, b: string)
    ensures OccursAt(a + p + b, p, |a|)
  {
    assert (a + p + b)[|a|..|a| + |p|] == p;
  }

  /** If every occurrence of `p` in `s` would have to start at `i0`, and `s`
      differs from `p` at offset `d` from there, `p` does not occur. */
  lemma AnchoredMismatch(s: string, p: string, k: nat, i0: int, d: nat)
    requires k < |p| && d < |p|
    requires forall j | 0 <= j < |s| && s[j] == p[k] :: j == i0 + k
    requires 0 <= i0 && i0 + d < |s| ==> s[i0 + d] != p[d]
    ensures !Contains(s, p)
  {
    if 0 <= i0 && i0 + |p| <= |s| {
      assert s[i0..i0 + |p|][d] == s[i0 + d];
    }
    NotContainedByAnchor(s, p, k, i0);
  }

  // ---------------------------------------------------------------------
  // Counting one character
  // ---------------------------------------------------------------------

  /** Number of occurrences of `c` in `s`. */
  function CountChar(s: string, c: char): nat {
    if s == [] then 0 else (if s[0] == c then 1 else 0) + CountChar(s[1..], c)
  }

  lemma {:induction false} CountCharConcat(a: string, b: string, c: char)
    ensures CountChar(a + b, c) == CountChar(a, c) + CountChar(b, c)
    decreases |a|
  {
    if a == [] {
      assert a + b == b;
    } else {
      assert (a + b)[1..] == a[1..] + b;
      CountCharConcat(a[1..], b, c);
    }
  }

  lemma {:induction false} CountCharPresent(s: string, c: char)
    requires c in s
    ensures CountChar(s, c) >= 1
    decreases |s|
  {
    if s[0] != c {
      assert c in s[1..];
      CountCharPresent(s[1..], c);
    }
  }

  lemma {:induction false} CountCharAbsent(s: string, c: char)
    requires c !in s
    ensures CountChar(s, c) == 0
    decreases |s|
  {
    if s != [] {
      assert s[0] in s;
      assert forall x | x in s[1..] :: x in s;
      CountCharAbsent(s[1..], c);
    }
  }

  // ---------------------------------------------------------------------
  // s.split(c) on one character
  // ---------------------------------------------------------------------

  /** Index of the first `c` in `s`, or `|s|` when there is none. */
  function IndexOf(s: string, c: char): (i: nat)
    ensures i <= |s|
    ensures i < |s| ==> s[i] == c
    ensures forall k | 0 <= k < i :: s[k] != c
  {
    if s == [] || s[0] == c then 0 else 1 + IndexOf(s[1..], c)
  }

  /** `s.split(c)[0]`: everything before the first `c`. */
  function Before(s: string, c: char): (r: string)
    ensures r <= s && c !in r
    ensures |r| < |s| ==> s[|r|] == c
  {
    s[..IndexOf(s, c)]
  }

  /** Everything after the first `c` (empty when there is no `c`). */
  function After(s: string, c: char): string {
    var i := IndexOf(s, c);
    if i < |s| then s[i + 1..] else []
  }

  /** `s.split(c)[1]` for a string that holds `c`: the text between the first
      and the second `c`, or up to the end. */
  function SecondField(s: string, c: char): string {
    Before(After(s, c), c)
  }

  lemma SplitAtFirst(a: string, c: char, b: string)
    requires c !in a
    ensures IndexOf(a + [c] + b, c) == |a|
    ensures Before(a + [c] + b, c) == a
    ensures After(a + [c] + b, c) == b
  {
    var s := a + [c] + b;
    assert forall k | 0 <= k < |a| :: s[k] == a[k];
    assert s[|a|] == c;
    assert s[..|a|] == a;
    assert s[|a| + 1..] == b;
  }

  lemma BeforeWhenAbsent(s: string, c: char)
    requires c !in s
    ensures Before(s, c) == s
  {
    forall k | 0 <= k < |s|
      ensures s[k] != c
    {
      assert s[k] in s;
    }
  }

  /** Python's `s.split(sep)` for a one-character separator. */
  function SplitOn(s: string, sep: char): (parts: seq<string>)
    ensures |parts| >= 1
    decreases |s|
  {
    var i := IndexOf(s, sep);
    if i == |s| then [s] else [s[..i]] + SplitOn(s[i + 1..], sep)
  }

  /** Python's `sep.join(parts)` for a one-character separator. */
  function Join(parts: seq<string>, sep: char): string {
    if |parts| == 0 then []
    else if |parts| == 1 then parts[0]
    else parts[0] + [sep] + Join(parts[1..], sep)
  }

  /** Splitting at a first separator peels off the part before it. */
  lemma SplitOnStep(a: string, sep: char, b: string)
    requires sep !in a
    ensures SplitOn(a + [sep] + b, sep) == [a] + SplitOn(b, sep)
  {
    var s := a + [sep] + b;
    SplitAtFirst(a, sep, b);
    assert s[..|a|] == a;
    assert s[|a| + 1..] == b;
  }

  /** Splitting a join recovers the parts, as long as no part holds the
      separator. */
  lemma {:induction false} SplitJoin(parts: seq<string>, sep: char)
    requires |parts| >= 1
    requires forall k | 0 <= k < |parts| :: sep !in parts[k]
    ensures SplitOn(Join(parts, sep), sep) == parts
    decreases |parts|
  {
    if |parts| == 1 {
      BeforeWhenAbsent(parts[0], sep);
    } else {
      SplitOnStep(parts[0], sep, Join(parts[1..], sep));
      SplitJoin(parts[1..], sep);
      assert parts == [parts[0]] + parts[1..];
    }
  }

  /** A string splits into one more part than it holds separators. */
  lemma {:induction false} SplitOnCount(s: string, sep: char)
    ensures |SplitOn(s, sep)| == CountChar(s, sep) + 1
    decreases |s|
  {
    var i := IndexOf(s, sep);
    if i == |s| {
      assert forall k | 0 <= k < |s| :: s[k] != sep;
      CountCharAbsent(s, sep);
    } else {
      assert s == s[..i] + [sep] + s[i + 1..];
      assert sep !in s[..i];
      CountCharAbsent(s[..i], sep);
      CountCharConcat(s[..i], [sep], sep);
      CountCharConcat(s[..i] + [sep], s[i + 1..], sep);
      SplitOnCount(s[i + 1..], sep);
    }
  }

  /** Joining puts a separator between every two parts, on top of the
      separators the parts hold themselves. */
  lemma {:induction false} JoinCount(parts: seq<string>, sep: char, k: nat)
    requires k < |parts|
    ensures CountChar(Join(parts, sep), sep) >= |parts| - 1 + CountChar(parts[k], sep)
    decreases |parts|
  {
    if |parts| > 1 {
      var rest := Join(parts[1..], sep);
      CountCharConcat(parts[0], [sep], sep);
      CountCharConcat(parts[0] + [sep], rest, sep);
      if k == 0 {
        JoinCount(parts[1..], sep, 0);
      } else {
        JoinCount(parts[1..], sep, k - 1);
      }
    }
  }

  /** When a part holds the separator, splitting the join yields more parts
      than were joined. */
  lemma SplitJoinOverflows(parts: seq<string>, sep: char, k: nat)
    requires k < |parts| && sep in parts[k]
    ensures |SplitOn(Join(parts, sep), sep)| > |parts|
  {
    CountCharPresent(parts[k], sep);
    JoinCount(parts, sep, k);
    SplitOnCount(Join(parts, sep), sep);
  }

  // ---------------------------------------------------------------------
  // s.replace("//", "")
  // ---------------------------------------------------------------------

  /** `s` with every `c` deleted. */
  function Without(s: string, c: char): string {
    if s == [] then [] else (if s[0] == c then [] else [s[0]]) + Without(s[1..], c)
  }

  predicate NoDoubleSlash(s: string) {
    forall i | 0 <= i < |s| - 1 :: !(s[i] == '/' && s[i + 1] == '/')
  }

  /** Python's `s.replace("//", "")`: removes the non-overlapping
      occurrences of `//`, scanning left to right. */
  function DropDoubleSlashes(s: string): (r: string)
    ensures |r| <= |s|
    ensures NoDoubleSlash(r)
    ensures s != [] && s[0] != '/' ==> r != [] && r[0] == s[0]
    ensures |s| >= 1 && s[0] == '/' && (|s| == 1 || s[1] != '/') ==> r != [] && r[0] == '/'
    // Only slashes are removed: every other character stays, in order.
    ensures Without(r, '/') == Without(s, '/')
  {
    if |s| >= 2 && s[0] == '/' && s[1] == '/' then DropDoubleSlashes(s[2..])
    else if s == [] then []
    else [s[0]] + DropDoubleSlashes(s[1..])
  }

  lemma {:induction false} DropDoubleSlashesWithoutSlash(s: string)
    requires '/' !in s
    ensures DropDoubleSlashes(s) == s
    decreases |s|
  {
    if s != [] {
      assert s[0] in s;
      assert forall c | c in s[1..] :: c in s;
      DropDoubleSlashesWithoutSlash(s[1..]);
    }
  }

  // ---------------------------------------------------------------------
  // s.replace("'", "\\'") and its inverse
  // ---------------------------------------------------------------------

  /** Python's `s.replace("'", "\\'")`: a backslash before every quote. */
  function EscapeQuotes(s: string): (r: string)
    ensures |r| >= |s|
    ensures r == [] || r[0] != '\''
    // Every quote in the result is escaped by the backslash before it.
    ensures forall i | 0 <= i < |r| && r[i] == '\'' :: i > 0 && r[i - 1] == '\\'
  {
    if s == [] then []
    else (if s[0] == '\'' then "\\'" else [s[0]]) + EscapeQuotes(s[1..])
  }

  /** Reads an escaped text back: every `\'` becomes `'` again. */
  function UnescapeQuotes(s: string): string {
    if |s| >= 2 && s[0] == '\\' && s[1] == '\'' then "'" + UnescapeQuotes(s[2..])
    else if s == [] then []
    else [s[0]] + UnescapeQuotes(s[1..])
  }

  /** Escaping loses nothing: the original text can be read back. */
  lemma {:induction false} UnescapeEscape(s: string)
    ensures UnescapeQuotes(EscapeQuotes(s)) == s
    decreases |s|
  {
    if s != [] {
      var rest := EscapeQuotes(s[1..]);
      UnescapeEscape(s[1..]);
      if s[0] == '\'' {
        assert EscapeQuotes(s) == "\\'" + rest;
        assert (("\\'" + rest)[2..]) == rest;
      } else {
        assert EscapeQuotes(s) == [s[0]] + rest;
        assert ([s[0]] + rest)[1..] == rest;
      }
    }
  }
}
