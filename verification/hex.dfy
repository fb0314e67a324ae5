/** Base-16 text and the numbers it denotes: what `BigInt('0x' + s)` reads
    and what `toString(16)` writes. */
module Hex {
  import opened JsText

  /** A digit BigInt accepts after "0x": either case. */
  predicate IsHexDigit(c: char) {
    ('0' <= c <= '9') || ('a' <= c <= 'f') || ('A' <= c <= 'F')
  }

  /** A digit `toString(16)` can produce. */
  predicate IsLowerHexDigit(c: char) {
    ('0' <= c <= '9') || ('a' <= c <= 'f')
  }

  predicate IsHex(s: string) {
    forall i :: 0 <= i < |s| ==> IsHexDigit(s[i])
  }

  /** What `toString(16)` returns for a non-negative number: lower-case
      digits, at least one, and no leading zero unless the number is 0. */
  predicate IsCanonicalHex(s: string) {
    && 1 <= |s|
    && (forall i :: 0 <= i < |s| ==> IsLowerHexDigit(s[i]))
    && (s[0] == '0' ==> |s| == 1)
  }

  function DigitValue(c: char): (d: nat)
    requires IsHexDigit(c)
    ensures d < 16
    ensures d == 0 <==> c == '0'
  {
    if '0' <= c <= '9' then c as nat - '0' as nat
    else if 'a' <= c <= 'f' then c as nat - 'a' as nat + 10
    else c as nat - 'A' as nat + 10
  }

  const LowerDigits: string := "0123456789abcdef"

  function LowerDigit(d: nat): (c: char)
    requires d < 16
    ensures IsLowerHexDigit(c) && IsHexDigit(c) && DigitValue(c) == d
  {
    LowerDigits[d]
  }

  function Pow16(k: nat): (p: nat)
    ensures p >= 1
  {
    if k == 0 then 1 else 16 * Pow16(k - 1)
  }

  /** The big-endian value of a string of hex digits; "" denotes 0. */
  function HexValue(s: string): (v: nat)
    requires IsHex(s)
    ensures v < Pow16(|s|)
  {
    if |s| == 0 then 0 else HexValue(s[..|s| - 1]) * 16 + DigitValue(s[|s| - 1])
  }

  /** `v.toString(16)` for a non-negative BigInt. */
  function NatToHex(v: nat): (s: string)
    ensures IsCanonicalHex(s) && IsHex(s)
    ensures HexValue(s) == v
    decreases v
  {
    if v < 16 then
      [LowerDigit(v)]
    else
      var p := NatToHex(v / 16);
      var s := p + [LowerDigit(v % 16)];
      assert s[..|s| - 1] == p;
      assert s[0] == p[0];
      s
  }

  /** `value.toString(16)` for any BigInt: a negative one gets a '-' sign. */
  function ToString16(value: int): (s: string)
    ensures |s| >= 1
    ensures value >= 0 ==> s == NatToHex(value)
    ensures value < 0 ==> s[0] == '-' && s[1..] == NatToHex(-value)
  {
    if value < 0 then "-" + NatToHex(-value) else NatToHex(value)
  }

  lemma LowerDigitOfValue(c: char)
    requires IsLowerHexDigit(c)
    ensures LowerDigit(DigitValue(c)) == c
  {
  }

  /** A canonical string with a non-zero first digit denotes at least 1. */
  lemma {:induction false} HexValuePositive(s: string)
    requires IsHex(s) && |s| >= 1 && s[0] != '0'
    ensures HexValue(s) >= 1
    decreases |s|
  {
    if |s| > 1 {
      var p := s[..|s| - 1];
      assert p[0] == s[0];
      HexValuePositive(p);
    }
  }

  /** `toString(16)` inverts the parse on exactly the strings it can produce. */
  lemma {:induction false} NatToHexOfHexValue(s: string)
    requires IsCanonicalHex(s)
    ensures IsHex(s) && NatToHex(HexValue(s)) == s
    decreases |s|
  {
    assert IsHex(s);
    if |s| == 1 {
      LowerDigitOfValue(s[0]);
      assert HexValue(s) == DigitValue(s[0]) by {
        assert s[..0] == [];
      }
      assert NatToHex(HexValue(s)) == [s[0]];
    } else {
      var p := s[..|s| - 1];
      var c := s[|s| - 1];
      assert p[0] == s[0];
      assert IsCanonicalHex(p);
      NatToHexOfHexValue(p);
      HexValuePositive(p);
      assert s == p + [c];
      NatToHexAppend(p, c);
    }
  }

  /** One more digit after a canonical string of a positive value. */
  lemma NatToHexAppend(p: string, c: char)
    requires IsHex(p) && HexValue(p) >= 1 && NatToHex(HexValue(p)) == p
    requires IsLowerHexDigit(c)
    ensures IsHex(p + [c]) && NatToHex(HexValue(p + [c])) == p + [c]
  {
    var s := p + [c];
    assert s[..|s| - 1] == p;
    assert IsHex(s);
    var v := HexValue(s);
    assert v == HexValue(p) * 16 + DigitValue(c);
    assert v / 16 == HexValue(p) && v % 16 == DigitValue(c);
    LowerDigitOfValue(c);
  }

  /** `toString(16)` needs at most `k` digits exactly for the values below 16^k. */
  lemma {:induction false} NatToHexLength(v: nat, k: nat)
    requires k >= 1
    ensures |NatToHex(v)| <= k <==> v < Pow16(k)
    decreases v
  {
    if v >= 16 {
      if k == 1 {
        assert |NatToHex(v)| == |NatToHex(v / 16)| + 1;
      } else {
        NatToHexLength(v / 16, k - 1);
        assert |NatToHex(v)| == |NatToHex(v / 16)| + 1;
        assert Pow16(k) == 16 * Pow16(k - 1);
      }
    }
  }

  lemma {:induction false} Pow16Add(a: nat, b: nat)
    ensures Pow16(a + b) == Pow16(a) * Pow16(b)
    decreases b
  {
    if b > 0 {
      Pow16Add(a, b - 1);
      assert Pow16(a + b) == 16 * Pow16(a + b - 1);
    }
  }

  lemma Pow16Values()
    ensures Pow16(8) == 0x1_0000_0000
    ensures Pow16(15) == 0x1000_0000_0000_0000
    ensures Pow16(16) == 0x1_0000_0000_0000_0000
    ensures Pow16(32) == 0x1_0000_0000_0000_0000_0000_0000_0000_0000
    ensures Pow16(48) == 0x1_0000_0000_0000_0000_0000_0000_0000_0000_0000_0000_0000_0000
    ensures Pow16(64) == 0x1_0000_0000_0000_0000_0000_0000_0000_0000_0000_0000_0000_0000_0000_0000_0000_0000
  {
    assert Pow16(1) == 16;
    assert Pow16(2) == 0x100;
    assert Pow16(3) == 0x1000;
    assert Pow16(4) == 0x1_0000;
    Pow16Add(4, 4);
    Pow16Add(8, 4);
    assert Pow16(12) == 0x1_0000_0000_0000;
    assert Pow16(13) == 0x10_0000_0000_0000;
    assert Pow16(14) == 0x100_0000_0000_0000;
    assert Pow16(15) == 0x1000_0000_0000_0000;
    Pow16Add(8, 8);
    Pow16Add(16, 16);
    Pow16Add(32, 16);
    Pow16Add(32, 32);
  }

  /** Concatenation is positional notation: the left part is shifted by the
      right part's digit count. */
  lemma {:induction false} HexValueAppend(a: string, b: string)
    requires IsHex(a) && IsHex(b)
    ensures IsHex(a + b)
    ensures HexValue(a + b) == HexValue(a) * Pow16(|b|) + HexValue(b)
    decreases |b|
  {
    assert IsHex(a + b) by {
      forall i | 0 <= i < |a + b|
        ensures IsHexDigit((a + b)[i])
      {
        if i < |a| { assert (a + b)[i] == a[i]; } else { assert (a + b)[i] == b[i - |a|]; }
      }
    }
    if |b| == 0 {
      assert a + b == a;
    } else {
      var b' := b[..|b| - 1];
      var c := b[|b| - 1];
      assert (a + b)[..|a + b| - 1] == a + b';
      assert b[..|b| - 1] == b';
      HexValueAppend(a, b');
      assert HexValue(a + b) == HexValue(a + b') * 16 + DigitValue(c);
      assert Pow16(|b|) == Pow16(|b'|) * 16;
      assert HexValue(b) == HexValue(b') * 16 + DigitValue(c);
      ShiftDigit(HexValue(a), Pow16(|b'|), HexValue(b'), DigitValue(c));
    }
  }

  lemma ShiftDigit(x: int, p: int, y: int, d: int)
    ensures (x * p + y) * 16 + d == x * (p * 16) + (y * 16 + d)
  {
  }

  lemma {:induction false} HexValueZeros(n: nat)
    ensures IsHex(Zeros(n)) && HexValue(Zeros(n)) == 0
    decreases n
  {
    if n > 0 {
      assert Zeros(n)[..n - 1] == Zeros(n - 1);
      HexValueZeros(n - 1);
    }
  }

  lemma {:induction false} Pow16Monotone(a: nat, b: nat)
    requires a <= b
    ensures Pow16(a) <= Pow16(b)
    decreases b
  {
    if a < b {
      Pow16Monotone(a, b - 1);
    }
  }

  lemma HexSlice(s: string, a: nat, b: nat)
    requires IsHex(s) && a <= b <= |s|
    ensures IsHex(s[a..b])
  {
    forall i | 0 <= i < b - a
      ensures IsHexDigit(s[a..b][i])
    {
      assert s[a..b][i] == s[a + i];
    }
  }

  /** A string of '0' characters denotes 0, whatever its length. */
  lemma AllZerosValue(s: string)
    requires forall i :: 0 <= i < |s| ==> s[i] == '0'
    ensures IsHex(s) && HexValue(s) == 0
  {
    assert s == Zeros(|s|);
    HexValueZeros(|s|);
  }

  /** Leading zeros do not change the value. */
  lemma ZerosPrefixValue(n: nat, s: string)
    requires IsHex(s)
    ensures IsHex(Zeros(n) + s) && HexValue(Zeros(n) + s) == HexValue(s)
  {
    HexValueZeros(n);
    HexValueAppend(Zeros(n), s);
  }

  /** Only a string of '0' characters denotes 0. */
  lemma {:induction false} HexValueZeroDigits(s: string)
    requires IsHex(s) && HexValue(s) == 0
    ensures forall i :: 0 <= i < |s| ==> s[i] == '0'
    decreases |s|
  {
    if |s| > 0 {
      var p := s[..|s| - 1];
      HexValueZeroDigits(p);
      forall i | 0 <= i < |s|
        ensures s[i] == '0'
      {
        if i < |s| - 1 {
          assert s[i] == p[i];
        }
      }
    }
  }

  /** Zero-padding a hex string to a width it fits in keeps its value. */
  lemma PadStartValue(s: string, width: nat)
    requires IsHex(s) && |s| <= width
    ensures |PadStart(s, width)| == width
    ensures IsHex(PadStart(s, width)) && HexValue(PadStart(s, width)) == HexValue(s)
  {
    assert PadStart(s, width) == Zeros(width - |s|) + s;
    ZerosPrefixValue(width - |s|, s);
  }
}
