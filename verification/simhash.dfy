/**
  `common/simhash.py`: the bit-voting fingerprint of a text and the
  Hamming distance of two fingerprints given as hex text. The token hash
  (MD5 of the UTF-8 bytes, read as a number) and the word tokeniser are
  parameters of the model.
 */
module SimHash {
  import opened Wrappers
  import opened Text
  import opened Bits

  /** `SimHash().width`. */
  const DefaultWidth: nat := 64

  /** Tokens among `ts` whose hash has bit `i` set. */
  function SetCount(ts: seq<string>, hash: string -> nat, i: nat): (n: nat)
    ensures n <= |ts|
  {
    if ts == [] then 0 else (if Bit(hash(ts[0]), i) then 1 else 0) + SetCount(ts[1..], hash, i)
  }

  /** The accumulated vote `v[i]`: one up for every token with bit `i` set,
      one down for every other token. */
  function Vote(ts: seq<string>, hash: string -> nat, i: nat): int {
    SetCount(ts, hash, i) - (|ts| - SetCount(ts, hash, i))
  }

  /** The fingerprint bits, lowest first. */
  function FingerprintBits(ts: seq<string>, hash: string -> nat, w: nat): (bs: seq<bool>)
    ensures |bs| == w
    ensures forall i | 0 <= i < w :: bs[i] == (Vote(ts, hash, i) >= 0)
  {
    seq(w, i requires 0 <= i < w => Vote(ts, hash, i) >= 0)
  }

  /** The fingerprint of a token list. */
  function Fingerprint(ts: seq<string>, hash: string -> nat, w: nat): nat {
    FromBits(FingerprintBits(ts, hash, w))
  }

  /** Bit `i` of the fingerprint is set exactly when `i` is below the width
      and at least as many tokens have bit `i` set as have it clear. */
  lemma FingerprintBit(ts: seq<string>, hash: string -> nat, w: nat, i: nat)
    ensures Bit(Fingerprint(ts, hash, w), i) <==>
      i < w && SetCount(ts, hash, i) >= |ts| - SetCount(ts, hash, i)
  {
    BitOfFromBits(FingerprintBits(ts, hash, w), i);
  }

  /** The fingerprint fits the width. */
  lemma FingerprintBound(ts: seq<string>, hash: string -> nat, w: nat)
    ensures Fingerprint(ts, hash, w) < Pow2(w)
  {
    FromBitsBound(FingerprintBits(ts, hash, w));
  }

  /** With no tokens every vote is 0, so every bit is set. */
  lemma NoTokensSetsEveryBit(hash: string -> nat, w: nat)
    ensures Fingerprint([], hash, w) == Pow2(w) - 1
  {
    assert FingerprintBits([], hash, w) == seq(w, _ => true);
    AllOnes(w);
  }

  lemma {:induction false} SetCountConcat(a: seq<string>, b: seq<string>, hash: string -> nat, i: nat)
    ensures SetCount(a + b, hash, i) == SetCount(a, hash, i) + SetCount(b, hash, i)
    decreases |a|
  {
    if a == [] {
      assert a + b == b;
    } else {
      assert (a + b)[1..] == a[1..] + b;
      SetCountConcat(a[1..], b, hash, i);
    }
  }

  /** Taking out the token at `j` takes out its share of the count. */
  lemma SetCountRemove(b: seq<string>, j: nat, hash: string -> nat, i: nat)
    requires j < |b|
    ensures SetCount(b, hash, i) == SetCount([b[j]], hash, i) + SetCount(b[..j] + b[j + 1..], hash, i)
  {
    assert b == b[..j] + ([b[j]] + b[j + 1..]);
    SetCountConcat(b[..j], [b[j]] + b[j + 1..], hash, i);
    SetCountConcat([b[j]], b[j + 1..], hash, i);
    SetCountConcat(b[..j], b[j + 1..], hash, i);
  }

  lemma MultisetRemove(a: seq<string>, b: seq<string>, j: nat)
    requires multiset(a) == multiset(b) && a != [] && j < |b| && b[j] == a[0]
    ensures multiset(a[1..]) == multiset(b[..j] + b[j + 1..])
  {
    var rest := b[..j] + b[j + 1..];
    assert a == [a[0]] + a[1..];
    assert b == b[..j] + [b[j]] + b[j + 1..];
    assert multiset(b) == multiset(b[..j]) + multiset([b[j]]) + multiset(b[j + 1..]);
    assert multiset(rest) == multiset(b[..j]) + multiset(b[j + 1..]);
    forall x
      ensures multiset(a[1..])[x] == multiset(rest)[x]
    {
      assert multiset(a)[x] == multiset([a[0]])[x] + multiset(a[1..])[x];
      assert multiset(b)[x] == multiset([a[0]])[x] + multiset(rest)[x];
    }
  }

  /** The count depends only on the multiset of tokens. */
  lemma {:induction false} SetCountPermutation(a: seq<string>, b: seq<string>, hash: string -> nat, i: nat)
    requires multiset(a) == multiset(b)
    ensures SetCount(a, hash, i) == SetCount(b, hash, i)
    decreases |a|
  {
    if a == [] {
      assert |b| == |multiset(b)| == 0;
    } else {
      assert a[0] in multiset(b);
      var j :| 0 <= j < |b| && b[j] == a[0];
      MultisetRemove(a, b, j);
      SetCountPermutation(a[1..], b[..j] + b[j + 1..], hash, i);
      SetCountRemove(b, j, hash, i);
    }
  }

  /** The fingerprint ignores token order. */
  lemma FingerprintIgnoresOrder(a: seq<string>, b: seq<string>, hash: string -> nat, w: nat)
    requires multiset(a) == multiset(b)
    ensures Fingerprint(a, hash, w) == Fingerprint(b, hash, w)
  {
    assert |a| == |multiset(a)| == |multiset(b)| == |b|;
    forall i | 0 <= i < w
      ensures Vote(a, hash, i) == Vote(b, hash, i)
    {
      SetCountPermutation(a, b, hash, i);
    }
    assert FingerprintBits(a, hash, w) == FingerprintBits(b, hash, w);
  }

  /** The text `compute` returns for a fingerprint. */
  function HexText(fp: nat, w: nat): (s: string)
    ensures ParseHex(s) == Some(fp)
  {
    HexRoundTrip(fp, w / 4);
    ZFill(HexDigits(fp), w / 4)
  }

  /** The vote loop of `compute`: one pass over the tokens, each adding or
      subtracting one at every bit position. */
  method Votes(ts: seq<string>, hash: string -> nat, w: nat) returns (v: seq<int>)
    ensures |v| == w
    ensures forall i | 0 <= i < w :: v[i] == Vote(ts, hash, i)
  {
    v := seq(w, _ => 0);
    var k := 0;
    while k < |ts|
      invariant 0 <= k <= |ts|
      invariant |v| == w
      invariant forall i | 0 <= i < w :: v[i] == Vote(ts[..k], hash, i)
    {
      var h := hash(ts[k]);
      var i := 0;
      while i < w
        invariant 0 <= i <= w
        invariant |v| == w
        invariant forall j | 0 <= j < i :: v[j] == Vote(ts[..k + 1], hash, j)
        invariant forall j | i <= j < w :: v[j] == Vote(ts[..k], hash, j)
      {
        assert ts[..k + 1] == ts[..k] + [ts[k]];
        SetCountConcat(ts[..k], [ts[k]], hash, i);
        if Bit(h, i) {
          v := v[i := v[i] + 1];
        } else {
          v := v[i := v[i] - 1];
        }
        i := i + 1;
      }
      k := k + 1;
    }
    assert ts[..|ts|] == ts;
  }

  /** The fingerprint loop of `compute`: bit `i` is or-ed in when the vote
      is non-negative. The bit is still clear at that point, so the `|=` is
      an addition. */
  method Assemble(v: seq<int>) returns (fp: nat)
    ensures fp == FromBits(seq(|v|, i requires 0 <= i < |v| => v[i] >= 0))
  {
    var bits := seq(|v|, i requires 0 <= i < |v| => v[i] >= 0);
    fp := 0;
    var i := 0;
    while i < |v|
      invariant 0 <= i <= |v|
      invariant fp == FromBits(bits[..i])
    {
      assert bits[..i + 1] == bits[..i] + [bits[i]];
      FromBitsSnoc(bits[..i], bits[i]);
      if v[i] >= 0 {
        fp := fp + Pow2(i);
      }
      i := i + 1;
    }
    assert bits[..|v|] == bits;
  }

  /** `compute(text)`: lower-case, tokenise, vote, and write the fingerprint
      as hex zero-filled to `width // 4` digits. */
  method Compute(text: string, w: nat, hash: string -> nat, tokenize: string -> seq<string>)
    returns (s: string)
    ensures ParseHex(s) == Some(Fingerprint(tokenize(Lower(text)), hash, w))
    ensures s == HexText(Fingerprint(tokenize(Lower(text)), hash, w), w)
    ensures w % 4 == 0 && w > 0 ==> |s| == w / 4
  {
    var ts := tokenize(Lower(text));
    var v := Votes(ts, hash, w);
    var fp := Assemble(v);
    assert seq(|v|, i requires 0 <= i < |v| => v[i] >= 0) == FingerprintBits(ts, hash, w);
    s := ZFill(HexDigits(fp), w / 4);
    HexRoundTrip(fp, w / 4);
    if w % 4 == 0 && w > 0 {
      FingerprintBound(ts, hash, w);
      HexWidth(fp, w);
    }
  }

  /** `distance(hash1, hash2)`: `None` where `int(..., 16)` raises. */
  method Distance(hash1: string, hash2: string, w: nat) returns (r: Option<nat>)
    ensures r.Some? <==> ParseHex(hash1).Some? && ParseHex(hash2).Some?
    ensures r.Some? ==> r.value == DiffCount(ParseHex(hash1).value, ParseHex(hash2).value, w)
  {
    var p1 := ParseHex(hash1);
    var p2 := ParseHex(hash2);
    if p1.None? || p2.None? {
      return None;
    }
    var x := And(Xor(p1.value, p2.value), Pow2(w) - 1);
    MaskedXorCountsDifferences(p1.value, p2.value, w);
    var ans := 0;
    while x != 0
      invariant ans + PopCount(x) == DiffCount(p1.value, p2.value, w)
      decreases x
    {
      ClearLowestBit(x);
      AndBelow(x, x - 1);
      ans := ans + 1;
      x := And(x, x - 1);
    }
    r := Some(ans);
  }

  /** `get_simhash_distance(text1, text2)` at the default width. */
  method GetSimhashDistance(text1: string, text2: string, hash: string -> nat, tokenize: string -> seq<string>)
    returns (d: nat)
    ensures d == DiffCount(Fingerprint(tokenize(Lower(text1)), hash, DefaultWidth),
                           Fingerprint(tokenize(Lower(text2)), hash, DefaultWidth), DefaultWidth)
    ensures d <= DefaultWidth
    ensures Lower(text1) == Lower(text2) ==> d == 0
  {
    var h1 := Compute(text1, DefaultWidth, hash, tokenize);
    var h2 := Compute(text2, DefaultWidth, hash, tokenize);
    var r := Distance(h1, h2, DefaultWidth);
    d := r.value;
    if Lower(text1) == Lower(text2) {
      DiffCountSelf(Fingerprint(tokenize(Lower(text1)), hash, DefaultWidth), DefaultWidth);
    }
  }

  /** The distance of a text to itself is 0, and the distance is
      symmetric. */
  lemma DistanceOfFingerprints(fa: nat, fb: nat, w: nat)
    ensures DiffCount(fa, fa, w) == 0
    ensures DiffCount(fa, fb, w) == DiffCount(fb, fa, w)
  {
    DiffCountSelf(fa, w);
    DiffCountSymmetric(fa, fb, w);
  }

  /** ASCII case does not reach the fingerprint: `compute` lower-cases
      before tokenising. */
  lemma CaseBlind(text: string, hash: string -> nat, tokenize: string -> seq<string>, w: nat)
    ensures Fingerprint(tokenize(Lower(Lower(text))), hash, w) == Fingerprint(tokenize(Lower(text)), hash, w)
  {
    LowerIdempotent(text);
  }
}
