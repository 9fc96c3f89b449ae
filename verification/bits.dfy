/**
  Python's arbitrary-precision integers as bit strings: the shifts, masks,
  exclusive-or and conjunction `common/simhash.py` uses, the population
  count, and the hexadecimal text of `hex(...)`, `zfill` and `int(s, 16)`.
 */
module Bits {
  import opened Wrappers

  function Pow2(n: nat): (p: nat)
    ensures p >= 1
  {
    if n == 0 then 1 else 2 * Pow2(n - 1)
  }

  /** `(x >> i) & 1 == 1`. */
  function Bit(x: nat, i: nat): bool {
    if i == 0 then x % 2 == 1 else Bit(x / 2, i - 1)
  }

  /** The number whose bits, lowest first, are `bs`. */
  function FromBits(bs: seq<bool>): nat {
    if bs == [] then 0 else (if bs[0] then 1 else 0) + 2 * FromBits(bs[1..])
  }

  /** `FromBits` reads back the bits it was given, and no bit above them. */
  lemma {:induction false} BitOfFromBits(bs: seq<bool>, i: nat)
    ensures Bit(FromBits(bs), i) == (i < |bs| && bs[i])
    decreases |bs|
  {
    if bs == [] {
      ZeroHasNoBits(i);
    } else {
      var b := if bs[0] then 1 else 0;
      LowBitAndHalf(b, FromBits(bs[1..]));
      if i > 0 {
        BitOfFromBits(bs[1..], i - 1);
      }
    }
  }

  lemma LowBitAndHalf(b: nat, y: nat)
    requires b < 2
    ensures (b + 2 * y) % 2 == b && (b + 2 * y) / 2 == y
  {
  }

  lemma {:induction false} ZeroHasNoBits(i: nat)
    ensures !Bit(0, i)
  {
    if i > 0 {
      ZeroHasNoBits(i - 1);
    }
  }

  lemma {:induction false} FromBitsBound(bs: seq<bool>)
    ensures FromBits(bs) < Pow2(|bs|)
    decreases |bs|
  {
    if bs != [] {
      FromBitsBound(bs[1..]);
    }
  }

  /** Setting a new top bit adds its power of two: `fingerprint |= 1 << i`
      on a number below `2**i`. */
  lemma {:induction false} FromBitsSnoc(bs: seq<bool>, b: bool)
    ensures FromBits(bs + [b]) == FromBits(bs) + (if b then Pow2(|bs|) else 0)
    decreases |bs|
  {
    if bs != [] {
      assert (bs + [b])[1..] == bs[1..] + [b];
      FromBitsSnoc(bs[1..], b);
    }
  }

  /** All `w` bits set make the mask `2**w - 1`. */
  lemma {:induction false} AllOnes(w: nat)
    ensures FromBits(seq(w, _ => true)) == Pow2(w) - 1
  {
    if w > 0 {
      assert seq(w, _ => true)[1..] == seq(w - 1, _ => true);
      AllOnes(w - 1);
    }
  }

  // ---------------------------------------------------------------------
  // Bitwise operators
  // ---------------------------------------------------------------------

  function Xor(a: nat, b: nat): nat
    decreases a + b
  {
    if a == 0 && b == 0 then 0
    else (if a % 2 != b % 2 then 1 else 0) + 2 * Xor(a / 2, b / 2)
  }

  function And(a: nat, b: nat): nat
    decreases a + b
  {
    if a == 0 || b == 0 then 0
    else (if a % 2 == 1 && b % 2 == 1 then 1 else 0) + 2 * And(a / 2, b / 2)
  }

  /** The number of set bits. */
  function PopCount(x: nat): nat {
    if x == 0 then 0 else x % 2 + PopCount(x / 2)
  }

  lemma XorHalves(a: nat, b: nat)
    ensures Xor(a, b) % 2 == (if a % 2 != b % 2 then 1 else 0)
    ensures Xor(a, b) / 2 == Xor(a / 2, b / 2)
  {
  }

  lemma AndHalves(a: nat, b: nat)
    ensures And(a, b) % 2 == (if a % 2 == 1 && b % 2 == 1 then 1 else 0)
    ensures And(a, b) / 2 == And(a / 2, b / 2)
  {
  }

  lemma {:induction false} AndSelf(a: nat)
    ensures And(a, a) == a
    decreases a
  {
    if a > 0 {
      AndSelf(a / 2);
    }
  }

  lemma {:induction false} AndBelow(a: nat, b: nat)
    ensures And(a, b) <= b
    decreases a + b
  {
    if a != 0 && b != 0 {
      AndBelow(a / 2, b / 2);
    }
  }

  /** `x & (x - 1)` clears the lowest set bit. */
  lemma {:induction false} ClearLowestBit(x: nat)
    requires x > 0
    ensures PopCount(And(x, x - 1)) == PopCount(x) - 1
    decreases x
  {
    if x % 2 == 1 {
      assert (x - 1) / 2 == x / 2 && (x - 1) % 2 == 0;
      AndHalves(x, x - 1);
      AndSelf(x / 2);
      assert And(x, x - 1) == 2 * (x / 2);
      assert PopCount(2 * (x / 2)) == PopCount(x / 2) by {
        if x / 2 > 0 {
          assert (2 * (x / 2)) / 2 == x / 2;
        }
      }
    } else {
      assert (x - 1) / 2 == x / 2 - 1 && (x - 1) % 2 == 1;
      AndHalves(x, x - 1);
      ClearLowestBit(x / 2);
      var y := And(x, x - 1);
      assert y == 2 * And(x / 2, x / 2 - 1);
      if y > 0 {
        assert y / 2 == And(x / 2, x / 2 - 1) && y % 2 == 0;
      }
    }
  }

  /** The number of the `w` lowest bit positions where `a` and `b` differ. */
  function DiffCount(a: nat, b: nat, w: nat): (n: nat)
    ensures n <= w
  {
    if w == 0 then 0
    else (if Bit(a, 0) != Bit(b, 0) then 1 else 0) + DiffCount(a / 2, b / 2, w - 1)
  }

  /** `DiffCount` counts exactly the positions below `w` whose bits differ:
      each bit position is counted once, in the right place. */
  lemma {:induction false} DiffCountStep(a: nat, b: nat, w: nat)
    requires w > 0
    ensures DiffCount(a, b, w) ==
      DiffCount(a, b, w - 1) + (if Bit(a, w - 1) != Bit(b, w - 1) then 1 else 0)
    decreases w
  {
    if w > 1 {
      DiffCountStep(a / 2, b / 2, w - 1);
    }
  }

  /** Popcount of the masked exclusive-or is the number of differing bit
      positions below the width. */
  lemma {:induction false} MaskedXorCountsDifferences(a: nat, b: nat, w: nat)
    ensures PopCount(And(Xor(a, b), Pow2(w) - 1)) == DiffCount(a, b, w)
    decreases w
  {
    var x := Xor(a, b);
    var m := Pow2(w) - 1;
    if w == 0 {
      assert And(x, m) == 0;
    } else {
      assert m % 2 == 1 && m / 2 == Pow2(w - 1) - 1;
      XorHalves(a, b);
      AndHalves(x, m);
      MaskedXorCountsDifferences(a / 2, b / 2, w - 1);
      var y := And(x, m);
      if y == 0 {
        assert And(x / 2, m / 2) == 0;
      }
    }
  }

  lemma {:induction false} DiffCountSelf(a: nat, w: nat)
    ensures DiffCount(a, a, w) == 0
    decreases w
  {
    if w > 0 {
      DiffCountSelf(a / 2, w - 1);
    }
  }

  lemma {:induction false} DiffCountSymmetric(a: nat, b: nat, w: nat)
    ensures DiffCount(a, b, w) == DiffCount(b, a, w)
    decreases w
  {
    if w > 0 {
      DiffCountSymmetric(a / 2, b / 2, w - 1);
    }
  }

  // ---------------------------------------------------------------------
  // Hexadecimal text
  // ---------------------------------------------------------------------

  /** The lower-case digit `hex` writes for `d < 16`. */
  function HexChar(d: nat): (c: char)
    requires d < 16
    ensures DigitValue(c) == Some(d)
  {
    if d < 10 then ('0' as int + d) as char else ('a' as int + d - 10) as char
  }

  /** `hex(x)[2:]`: lower-case digits, no leading zero except for 0 itself. */
  function HexDigits(x: nat): (s: string)
    ensures |s| >= 1
    ensures x > 0 ==> s[0] != '0'
  {
    if x < 16 then [HexChar(x)]
    else HexDigits(x / 16) + [HexChar(x % 16)]
  }

  /** The value of one digit in `int(s, 16)`, either case. */
  function DigitValue(c: char): Option<nat> {
    if '0' <= c <= '9' then Some(c as nat - '0' as nat)
    else if 'a' <= c <= 'f' then Some(c as nat - 'a' as nat + 10)
    else if 'A' <= c <= 'F' then Some(c as nat - 'A' as nat + 10)
    else None
  }

  predicate IsHexText(s: string) {
    forall i | 0 <= i < |s| :: DigitValue(s[i]).Some?
  }

  /** The value of a string of hex digits, most significant first. */
  function HexValue(s: string): nat
    requires IsHexText(s)
  {
    if s == [] then 0
    else 16 * HexValue(s[..|s| - 1]) + DigitValue(s[|s| - 1]).value
  }

  /** `int(s, 16)` on plain digit strings; `None` where Python raises. */
  function ParseHex(s: string): (r: Option<nat>)
    ensures r.Some? <==> s != [] && IsHexText(s)
  {
    if s != [] && IsHexText(s) then Some(HexValue(s)) else None
  }

  /** `s.zfill(n)`: zeros on the left up to length `n`. */
  function ZFill(s: string, n: int): (r: string)
    ensures |r| == if |s| >= n then |s| else n
    ensures r[|r| - |s|..] == s
    ensures forall i | 0 <= i < |r| - |s| :: r[i] == '0'
  {
    if |s| >= n then s else seq(n - |s|, _ => '0') + s
  }

  lemma {:induction false} HexDigitsRead(x: nat)
    ensures IsHexText(HexDigits(x)) && HexValue(HexDigits(x)) == x
    decreases x
  {
    if x >= 16 {
      HexDigitsRead(x / 16);
      var s := HexDigits(x);
      assert s[..|s| - 1] == HexDigits(x / 16);
    }
  }

  lemma {:induction false} LeadingZeros(z: string, s: string)
    requires forall i | 0 <= i < |z| :: z[i] == '0'
    requires IsHexText(s)
    ensures IsHexText(z + s) && HexValue(z + s) == HexValue(s)
    decreases |s|, |z|
  {
    if s == [] {
      assert z + s == z;
      if z != [] {
        LeadingZeros(z[..|z| - 1], s);
        assert z[..|z| - 1] + s == z[..|z| - 1];
      }
    } else {
      var t := s[..|s| - 1];
      LeadingZeros(z, t);
      assert (z + s)[..|z + s| - 1] == z + t;
    }
  }

  /** Reading back a zero-filled hex text gives the number. */
  lemma HexRoundTrip(x: nat, n: int)
    ensures ParseHex(ZFill(HexDigits(x), n)) == Some(x)
  {
    var s := HexDigits(x);
    HexDigitsRead(x);
    var r := ZFill(s, n);
    LeadingZeros(r[..|r| - |s|], s);
    assert r == r[..|r| - |s|] + s;
  }

  function Pow16(k: nat): nat {
    if k == 0 then 1 else 16 * Pow16(k - 1)
  }

  lemma {:induction false} Pow2Of4k(k: nat)
    ensures Pow2(4 * k) == Pow16(k)
  {
    if k > 0 {
      Pow2Of4k(k - 1);
      var j := 4 * (k - 1);
      assert Pow2(j + 4) == 2 * Pow2(j + 3) == 4 * Pow2(j + 2) == 8 * Pow2(j + 1) == 16 * Pow2(j);
    }
  }

  lemma {:induction false} HexDigitsLength(x: nat, k: nat)
    requires k >= 1 && x < Pow16(k)
    ensures |HexDigits(x)| <= k
    decreases k
  {
    if x >= 16 {
      assert Pow16(1) == 16;
      assert k != 1;
      HexDigitsLength(x / 16, k - 1);
    }
  }

  /** The zero-filled hex text of a number below `2**w` has exactly `w/4`
      digits when `w` is a positive multiple of 4. */
  lemma HexWidth(x: nat, w: nat)
    requires w % 4 == 0 && w > 0 && x < Pow2(w)
    ensures |ZFill(HexDigits(x), w / 4)| == w / 4
  {
    Pow2Of4k(w / 4);
    HexDigitsLength(x, w / 4);
  }
}
