/** What the limb codec of src/main.ts does on each class of input: the
    full-width case of a 32-byte hash, the short values an index produces,
    the lengths and characters that make it throw, and when the 16-bit
    shift decoder gives the encoded value back. */
module LimbLaws {
  import opened Wrappers
  import opened JsText
  import opened Hex
  import opened Bits
  import opened LimbCodec

  /** A 64-digit hash is not padded; each limb is the value of its own
      16-digit group, and read as base-2^64 digits the limbs give back the
      hash's value. */
  lemma EncodeBytes32FullWidth(h: string)
    requires |h| == 64 && IsHex(h)
    ensures EncodeBytes32(h).Success?
    ensures IsHex(h[0..16]) && IsHex(h[16..32]) && IsHex(h[32..48]) && IsHex(h[48..64])
    ensures IsLimbs(EncodeBytes32(h).value, HexValue(h[48..64]), HexValue(h[32..48]),
                    HexValue(h[16..32]), HexValue(h[0..16]))
    ensures LimbsValue(EncodeBytes32(h).value) == HexValue(h)
  {
    FullWidthGroups(h);
    HexDigitGroups(h);
  }

  /** A 64-digit hash is not padded, and each limb is the value of its own
      16-digit group. */
  lemma FullWidthGroups(h: string)
    requires |h| == 64 && IsHex(h)
    ensures EncodeBytes32(h).Success?
    ensures IsHex(h[0..16]) && IsHex(h[16..32]) && IsHex(h[32..48]) && IsHex(h[48..64])
    ensures IsLimbs(EncodeBytes32(h).value, HexValue(h[48..64]), HexValue(h[32..48]),
                    HexValue(h[16..32]), HexValue(h[0..16]))
  {
    assert Padded(h) == h;
    assert h[..Min(|h|, 64)] == h;
    SplitOfHex(h);
    assert Window(h, 0) == h[0..16] && Window(h, 1) == h[16..32];
    assert Window(h, 2) == h[32..48] && Window(h, 3) == h[48..64];
  }

  /** Positional notation over the four 16-digit groups of a 64-digit string. */
  lemma HexDigitGroups(h: string)
    requires |h| == 64 && IsHex(h)
    ensures IsHex(h[0..16]) && IsHex(h[16..32]) && IsHex(h[32..48]) && IsHex(h[48..64])
    ensures HexValue(h) == HexValue(h[0..16]) * 0x1_0000_0000_0000_0000_0000_0000_0000_0000_0000_0000_0000_0000
                         + HexValue(h[16..32]) * 0x1_0000_0000_0000_0000_0000_0000_0000_0000
                         + HexValue(h[32..48]) * TWO_TO_64
                         + HexValue(h[48..64])
  {
    var g0, g1, g2, g3 := h[0..16], h[16..32], h[32..48], h[48..64];
    HexSlice(h, 0, 16);
    HexSlice(h, 16, 32);
    HexSlice(h, 32, 48);
    HexSlice(h, 48, 64);
    Regroup(h);
    HexOfGroups(g0, g1, g2, g3);
  }

  lemma Regroup(h: string)
    requires |h| == 64
    ensures h == h[0..16] + h[16..32] + h[32..48] + h[48..64]
  {
  }

  lemma HexOfGroups(g0: string, g1: string, g2: string, g3: string)
    requires IsHex(g0) && IsHex(g1) && IsHex(g2) && IsHex(g3)
    requires |g1| == 16 && |g2| == 16 && |g3| == 16
    ensures IsHex(g0 + g1 + g2 + g3)
    ensures HexValue(g0 + g1 + g2 + g3)
            == HexValue(g0) * 0x1_0000_0000_0000_0000_0000_0000_0000_0000_0000_0000_0000_0000
               + HexValue(g1) * 0x1_0000_0000_0000_0000_0000_0000_0000_0000
               + HexValue(g2) * TWO_TO_64
               + HexValue(g3)
  {
    var a := g0 + g1;
    Append16(g0, g1);
    var b := a + g2;
    Append16(a, g2);
    Append16(b, g3);
    Base64Horner(HexValue(g0), HexValue(g1), HexValue(g2), HexValue(g3), HexValue(a), HexValue(b), HexValue(b + g3));
  }

  /** Sixteen more digits shift the value by one limb. */
  lemma Append16(x: string, g: string)
    requires IsHex(x) && IsHex(g) && |g| == 16
    ensures IsHex(x + g) && HexValue(x + g) == HexValue(x) * TWO_TO_64 + HexValue(g)
  {
    assert Pow16(16) == TWO_TO_64 by { Pow16Values(); }
    HexValueAppend(x, g);
  }

  /** Three positional steps in base 2^64, multiplied out. */
  lemma Base64Horner(v0: nat, v1: nat, v2: nat, v3: nat, a: nat, b: nat, h: nat)
    requires a == v0 * TWO_TO_64 + v1 && b == a * TWO_TO_64 + v2 && h == b * TWO_TO_64 + v3
    ensures h == v0 * 0x1_0000_0000_0000_0000_0000_0000_0000_0000_0000_0000_0000_0000
               + v1 * 0x1_0000_0000_0000_0000_0000_0000_0000_0000 + v2 * TWO_TO_64 + v3
  {
  }

  /** For input without white space, `encodeBytes32` succeeds exactly when
      the length is outside 16..48 and the characters that reach a window
      (the first 64) are hex digits. */
  lemma EncodeBytes32Succeeds(s: string)
    requires forall i :: 0 <= i < |s| ==> !IsJsWhiteSpace(s[i])
    ensures EncodeBytes32(s).Success? <==> (|s| < 16 || 48 < |s|) && IsHex(s[..Min(|s|, 64)])
  {
    if |s| < 16 || 48 < |s| {
      var p := Padded(s);
      var m := Min(|s|, 64);
      if IsHex(s[..m]) {
        var pad := |p| - |s|;
        forall j | 0 <= j < Min(|p|, 64)
          ensures IsHexDigit(p[..Min(|p|, 64)][j])
        {
          if j >= pad {
            assert p[j] == s[j - pad];
            assert s[j - pad] == s[..m][j - pad];
          }
        }
        SplitOfHex(p);
      } else {
        var i :| 0 <= i < m && !IsHexDigit(s[..m][i]);
        EncodeBytes32RejectsBadChar(s, i);
      }
    }
  }

  /** Only the first 64 characters reach a window. */
  lemma SplitFirst64(h: string)
    requires |h| >= 64
    ensures Split(h) == Split(h[..64])
  {
    var t := h[..64];
    assert Window(h, 0) == h[0..16] == t[0..16] == Window(t, 0);
    assert Window(h, 1) == h[16..32] == t[16..32] == Window(t, 1);
    assert Window(h, 2) == h[32..48] == t[32..48] == Window(t, 2);
    assert Window(h, 3) == h[48..64] == t[48..64] == Window(t, 3);
  }

  /** From 32 characters on, padding to `64 - length` adds nothing. */
  lemma PaddedLong(h: string)
    requires |h| >= 32
    ensures Padded(h) == h
  {
    var p := Padded(h);
    assert p[|p| - |h|..] == h;
  }

  /** There is no range check: a value of more than 64 hex digits (at least
      2^256) encodes without error, keeping only its first 64 digits. */
  lemma EncodeUint256Wide(value: nat)
    requires value >= TWO_TO_256
    ensures |NatToHex(value)| > 64
    ensures EncodeUint256(value) == EncodeBytes32(NatToHex(value)[..64])
    ensures EncodeUint256(value).Success?
    ensures IsHex(NatToHex(value)[..64])
    ensures LimbsValue(EncodeUint256(value).value) == HexValue(NatToHex(value)[..64])
  {
    var h := NatToHex(value);
    Pow16Values();
    NatToHexLength(value, 64);
    HexSlice(h, 0, 64);
    var t := h[..64];
    PaddedLong(h);
    PaddedLong(t);
    SplitFirst64(h);
    assert EncodeUint256(value) == Split(h);
    assert EncodeBytes32(t) == Split(t);
    EncodeBytes32FullWidth(t);
  }

  /** When `part1`, `part2` and `part3` are below 2^16 their shifted copies
      do not overlap, and the OR is the sum. */
  lemma DecodeUint256Sum(m: Limbs)
    requires LimbOrZero(m.part1) < 0x1_0000 && LimbOrZero(m.part2) < 0x1_0000 && LimbOrZero(m.part3) < 0x1_0000
    ensures DecodeUint256(m) == LimbOrZero(m.part4) * 0x1_0000_0000_0000 + LimbOrZero(m.part3) * 0x1_0000_0000
                               + LimbOrZero(m.part2) * 0x1_0000 + LimbOrZero(m.part1)
  {
    ShiftOr16Sum(LimbOrZero(m.part1), LimbOrZero(m.part2), LimbOrZero(m.part3), LimbOrZero(m.part4));
  }

  /** With the three lower limbs below bit `k`, the shift-by-`k` OR is the
      base-2^k number the limbs are the digits of. */
  lemma ShiftOrSum(p1: nat, p2: nat, p3: nat, p4: nat, k: nat)
    requires p1 < Pow2(k) && p2 < Pow2(k) && p3 < Pow2(k)
    ensures ShiftOr(p1, p2, p3, p4, k) == ((p4 * Pow2(k) + p3) * Pow2(k) + p2) * Pow2(k) + p1
  {
    OrStackSum(p1, p2, p3, p4, k);
  }

  lemma ShiftOr16Sum(p1: nat, p2: nat, p3: nat, p4: nat)
    requires p1 < 0x1_0000 && p2 < 0x1_0000 && p3 < 0x1_0000
    ensures ShiftOr(p1, p2, p3, p4, 16) == p4 * 0x1_0000_0000_0000 + p3 * 0x1_0000_0000 + p2 * 0x1_0000 + p1
  {
    assert Pow2(16) == 0x1_0000 by { Pow2Values(); }
    ShiftOrSum(p1, p2, p3, p4, 16);
  }

  /** Only the lowest limb set: the OR is that limb, whatever the step. */
  lemma ShiftOrLow(p1: nat, k: nat)
    ensures ShiftOr(p1, 0, 0, 0, k) == p1
  {
    ShiftLeftZero(3 * k);
    ShiftLeftZero(2 * k);
    ShiftLeftZero(k);
  }

  /** Absent and zero limbs both read as 0: with the upper three limbs 0
      the decoder returns the lowest limb. */
  lemma DecodeUint256Low(m: Limbs)
    requires LimbOrZero(m.part2) == 0 && LimbOrZero(m.part3) == 0 && LimbOrZero(m.part4) == 0
    ensures DecodeUint256(m) == LimbOrZero(m.part1)
  {
    ShiftOrLow(LimbOrZero(m.part1), 16);
  }

  /** The index round trip: every value below 2^32 decodes to itself. */
  lemma DecodeEncodeSmall(value: int)
    requires 0 <= value < 0x1_0000_0000
    ensures EncodeUint256(value).Success?
    ensures DecodeUint256(EncodeUint256(value).value) == value
  {
  }

  /** A 64-digit hash decodes to its own value through the 16-bit shift
      decoder exactly when its first 48 digits are 0, so that it fits
      `part1` alone. */
  lemma DecodeBytes32LowHash(h: string)
    requires |h| == 64 && IsHex(h)
    ensures EncodeBytes32(h).Success?
    ensures DecodeUint256(EncodeBytes32(h).value) == HexValue(h)
            <==> forall i :: 0 <= i < 48 ==> h[i] == '0'
  {
    EncodeBytes32FullWidth(h);
    if forall i :: 0 <= i < 48 ==> h[i] == '0' {
      LowHashDecodes(h);
    } else if DecodeUint256(EncodeBytes32(h).value) == HexValue(h) {
      DecodedHashIsLow(h);
    }
  }

  lemma LowHashDecodes(h: string)
    requires |h| == 64 && IsHex(h)
    requires forall i :: 0 <= i < 48 ==> h[i] == '0'
    ensures EncodeBytes32(h).Success?
    ensures DecodeUint256(EncodeBytes32(h).value) == HexValue(h)
  {
    LowHashLimbs(h);
    DecodeUint256Low(EncodeBytes32(h).value);
    LowHashValue(h);
  }

  lemma LowHashLimbs(h: string)
    requires |h| == 64 && IsHex(h)
    requires forall i :: 0 <= i < 48 ==> h[i] == '0'
    ensures EncodeBytes32(h).Success? && IsHex(h[48..64])
    ensures IsLimbs(EncodeBytes32(h).value, HexValue(h[48..64]), 0, 0, 0)
  {
    FullWidthGroups(h);
    ZeroGroup(h, 0, 16);
    ZeroGroup(h, 16, 32);
    ZeroGroup(h, 32, 48);
  }

  lemma ZeroGroup(h: string, a: nat, b: nat)
    requires |h| == 64 && a <= b <= 48
    requires forall i :: 0 <= i < 48 ==> h[i] == '0'
    ensures IsHex(h[a..b]) && HexValue(h[a..b]) == 0
  {
    var g := h[a..b];
    forall i | 0 <= i < b - a
      ensures g[i] == '0'
    {
      assert g[i] == h[a + i];
    }
    AllZerosValue(g);
  }

  /** Leading zeros aside, such a hash is its last 16 digits. */
  lemma LowHashValue(h: string)
    requires |h| == 64 && IsHex(h)
    requires forall i :: 0 <= i < 48 ==> h[i] == '0'
    ensures IsHex(h[48..64]) && HexValue(h) == HexValue(h[48..64])
  {
    HexSlice(h, 48, 64);
    assert h == Zeros(48) + h[48..64];
    ZerosPrefixValue(48, h[48..64]);
  }

  lemma DecodedHashIsLow(h: string)
    requires |h| == 64 && IsHex(h)
    requires EncodeBytes32(h).Success?
    requires DecodeUint256(EncodeBytes32(h).value) == HexValue(h)
    ensures forall i :: 0 <= i < 48 ==> h[i] == '0'
  {
    EncodeBytes32FullWidth(h);
    var m := EncodeBytes32(h).value;
    var p1, p2, p3, p4 := LimbOrZero(m.part1), LimbOrZero(m.part2), LimbOrZero(m.part3), LimbOrZero(m.part4);
    assert LimbsValue(m) == p4 * 0x1_0000_0000_0000_0000_0000_0000_0000_0000_0000_0000_0000_0000
                            + p3 * 0x1_0000_0000_0000_0000_0000_0000_0000_0000 + p2 * TWO_TO_64 + p1;
    assert p2 == 0 && p3 == 0 && p4 == 0 by {
      UpperLimbsVanish(p1, p2, p3, p4);
    }
    HexValueZeroDigits(h[0..16]);
    HexValueZeroDigits(h[16..32]);
    HexValueZeroDigits(h[32..48]);
    forall i | 0 <= i < 48
      ensures h[i] == '0'
    {
      if i < 16 {
        assert h[i] == h[0..16][i];
      } else if i < 32 {
        assert h[i] == h[16..32][i - 16];
      } else {
        assert h[i] == h[32..48][i - 32];
      }
    }
  }

  /** The 64-bit place values outgrow the 16-bit ones: the two readings of
      four limbs agree only when the upper three are 0. */
  lemma UpperLimbsVanish(p1: nat, p2: nat, p3: nat, p4: nat)
    requires p4 * 0x1_0000_0000_0000_0000_0000_0000_0000_0000_0000_0000_0000_0000
             + p3 * 0x1_0000_0000_0000_0000_0000_0000_0000_0000 + p2 * TWO_TO_64 + p1
             <= p4 * 0x1_0000_0000_0000 + p3 * 0x1_0000_0000 + p2 * 0x1_0000 + p1
    ensures p2 == 0 && p3 == 0 && p4 == 0
  {
  }
}
