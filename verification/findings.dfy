/** Two defects of the limb codec, each shown on the code as written and
    then corrected. `padStart(64 - length)`, in both `encodeUint256` and
    `encodeBytes32`, pads to the wrong width: a string of 9 to 15 or of 49
    to 63 hex digits is split at the wrong places and mis-encoded, and one
    of 16 to 48 throws. The 16-bit shift steps of `decodeUint256` overlap
    limbs that are 64 bits wide. The corrected codec pads to 64 characters
    and shifts by 64, 128 and 192 bits, and with it both the limb round
    trip and the tree round trip hold for every 256-bit value and every
    hash of at most 64 hex digits. */
module Findings {
  import opened Wrappers
  import opened JsText
  import opened Hex
  import opened Bits
  import opened LimbCodec
  import opened LimbLaws
  import opened TreeCodec
  import opened TreeLaws

  // The code as written

  /** Every value from 2^60 below 2^192 has 16 to 48 hex digits, pads to at
      most 48 characters and throws: the position 2^60 is the first. */
  lemma EncodeUint256MidRange(value: int)
    requires 0x1000_0000_0000_0000 <= value < 0x1_0000_0000_0000_0000_0000_0000_0000_0000_0000_0000_0000_0000
    ensures 16 <= |ToString16(value)| <= 48
    ensures EncodeUint256(value) == Failure(SyntaxError)
  {
    Pow16Values();
    NatToHexLength(value, 15);
    NatToHexLength(value, 48);
  }

  /** The nine digits of 2^32. */
  lemma HexOfTwoTo32(value: int)
    requires value == 0x1_0000_0000
    ensures ToString16(value) == "1" + Zeros(8)
  {
    var h := "1" + Zeros(8);
    HexValueZeros(8);
    assert IsHex("1") && HexValue("1") == 1;
    HexValueAppend("1", Zeros(8));
    assert Pow16(8) == 0x1_0000_0000 by { Pow16Values(); }
    assert IsCanonicalHex(h);
    NatToHexOfHexValue(h);
  }

  /** 2^32 has nine hex digits and is padded to 55 characters, so its "1"
      lands in the third window: the limbs stand for 16 * 2^64, and the
      decoder reads 2^20 back. */
  lemma EncodeUint256MisplacesDigits(value: int)
    requires value == 0x1_0000_0000
    ensures EncodeUint256(value).Success?
    ensures IsLimbs(EncodeUint256(value).value, 0, 16, 0, 0)
    ensures LimbsValue(EncodeUint256(value).value) == 16 * TWO_TO_64
    ensures DecodeUint256(EncodeUint256(value).value) == 0x10_0000
  {
    HexOfTwoTo32(value);
    var p := Padded("1" + Zeros(8));
    PaddedTwoTo32();
    MisplacedLimbs(p);
    DecodeUint256Sum(EncodeUint256(value).value);
  }

  /** From 2^192 below 2^252 a value has 49 to 63 hex digits, so
      `padStart(64 - length)` adds nothing and the leading, non-zero digit
      lands in `part4`: the limbs stand for at least 2^252, more than the
      value. */
  lemma EncodeUint256Unpadded(value: int)
    requires 0x1_0000_0000_0000_0000_0000_0000_0000_0000_0000_0000_0000_0000 <= value
    requires value < 0x1000_0000_0000_0000_0000_0000_0000_0000_0000_0000_0000_0000_0000_0000
    ensures 48 < |ToString16(value)| < 64
    ensures EncodeUint256(value).Success?
    ensures LimbsValue(EncodeUint256(value).value) >= 0x1000_0000_0000_0000_0000_0000_0000_0000_0000_0000_0000_0000_0000_0000
  {
    var h := ToString16(value);
    Pow16Values();
    Pow16Add(48, 15);
    NatToHexLength(value, 48);
    NatToHexLength(value, 63);
    PaddedLong(h);
    assert h[..Min(|h|, 64)] == h;
    SplitOfHex(h);
    WindowOfLong(h, 0);
    LeadingDigitValue(Window(h, 0));
  }

  /** A hex string that does not start with '0' is worth at least the
      place value of its first digit. */
  lemma LeadingDigitValue(s: string)
    requires IsHex(s) && |s| > 0 && s[0] != '0'
    ensures HexValue(s) >= Pow16(|s| - 1)
  {
    assert s == [s[0]] + s[1..];
    assert IsHex([s[0]]) && HexValue([s[0]]) == DigitValue(s[0]);
    HexValueAppend([s[0]], s[1..]);
  }

  /** `encodeBytes32` pads the same way: the nine-digit string for 2^32 is
      padded to 55 characters and encodes to the limbs of 16 * 2^64. */
  lemma EncodeBytes32MisplacesDigits(h: string)
    requires h == "1" + Zeros(8)
    ensures IsHex(h) && HexValue(h) == 0x1_0000_0000
    ensures EncodeBytes32(h).Success?
    ensures IsLimbs(EncodeBytes32(h).value, 0, 16, 0, 0)
    ensures LimbsValue(EncodeBytes32(h).value) == 16 * TWO_TO_64
  {
    HexOfTwoTo32(0x1_0000_0000);
    PaddedTwoTo32();
    MisplacedLimbs(Padded(h));
  }

  /** The padded string of 2^32: 55 characters, a "1" at position 46. */
  predicate IsPaddedTwoTo32(p: string) {
    |p| == 55 && forall i :: 0 <= i < 55 ==> p[i] == if i == 46 then '1' else '0'
  }

  lemma PaddedTwoTo32()
    ensures IsPaddedTwoTo32(Padded("1" + Zeros(8)))
  {
    var h := "1" + Zeros(8);
    var p := Padded(h);
    assert |p| == 55;
    forall i | 0 <= i < 55
      ensures p[i] == if i == 46 then '1' else '0'
    {
      if i >= 46 {
        assert p[i] == p[46..][i - 46];
      }
    }
  }

  lemma MisplacedLimbs(p: string)
    requires IsPaddedTwoTo32(p)
    ensures Split(p).Success?
    ensures IsLimbs(Split(p).value, 0, 16, 0, 0)
  {
    assert IsHex(p[..Min(|p|, 64)]);
    SplitOfHex(p);
    PaddedZeroWindow(p, 0);
    PaddedZeroWindow(p, 1);
    PaddedZeroWindow(p, 3);
    PaddedDigitWindow(p);
  }

  lemma PaddedZeroWindow(p: string, k: nat)
    requires IsPaddedTwoTo32(p) && k < 4 && k != 2
    ensures IsHex(Window(p, k)) && HexValue(Window(p, k)) == 0
  {
    WindowOfLong(p, k);
    var w := Window(p, k);
    forall i | 0 <= i < |w|
      ensures w[i] == '0'
    {
      assert w[i] == p[16 * k + i];
    }
    AllZerosValue(w);
  }

  /** Window 2 of the padded string is "00000000000000" + "10". */
  lemma PaddedDigitWindow(p: string)
    requires IsPaddedTwoTo32(p)
    ensures IsHex(Window(p, 2)) && HexValue(Window(p, 2)) == 16
  {
    WindowOfLong(p, 2);
    var w := Window(p, 2);
    assert w == Zeros(14) + "10";
    assert IsHex("10") && HexValue("10") == 16;
    ZerosPrefixValue(14, "10");
  }

  /** The 64-digit hash whose only non-zero digit is the one for 2^64. */
  predicate IsShiftDefectHash(h: string) {
    |h| == 64 && forall i :: 0 <= i < 64 ==> h[i] == if i == 47 then '1' else '0'
  }

  /** The hash 2^64 comes back as 2^16: its "1" is the low digit of
      `part2`, which the decoder shifts by 16 bits instead of 64. */
  lemma DecodeUint256ShiftDefect(h: string)
    requires IsShiftDefectHash(h)
    ensures IsHex(h) && EncodeBytes32(h).Success?
    ensures HexValue(h) == TWO_TO_64
    ensures DecodeUint256(EncodeBytes32(h).value) == 0x1_0000
  {
    ShiftDefectLimbs(h);
    DecodeUint256Sum(EncodeBytes32(h).value);
  }

  lemma ShiftDefectLimbs(h: string)
    requires IsShiftDefectHash(h)
    ensures IsHex(h) && EncodeBytes32(h).Success?
    ensures IsLimbs(EncodeBytes32(h).value, 0, 1, 0, 0)
    ensures HexValue(h) == TWO_TO_64
  {
    assert IsHex(h);
    EncodeBytes32FullWidth(h);
    ShiftDefectGroups(h);
  }

  lemma ShiftDefectGroups(h: string)
    requires IsShiftDefectHash(h)
    ensures IsHex(h[0..16]) && HexValue(h[0..16]) == 0
    ensures IsHex(h[16..32]) && HexValue(h[16..32]) == 0
    ensures IsHex(h[32..48]) && HexValue(h[32..48]) == 1
    ensures IsHex(h[48..64]) && HexValue(h[48..64]) == 0
  {
    AllZerosValue(h[0..16]);
    AllZerosValue(h[16..32]);
    AllZerosValue(h[48..64]);
    assert h[32..48] == Zeros(15) + "1";
    HexValueZeros(15);
    assert IsHex("1") && HexValue("1") == 1;
    HexValueAppend(Zeros(15), "1");
  }

  // The corrected codec

  /** `encodeBytes32` with `padStart(64, '0')`: every hex string of at
      most 64 digits encodes to limbs that stand for its value; a longer
      string is not padded either way and encodes as before. */
  function EncodeBytes32Intended(value: string): (r: Result<Limbs, Error>)
    ensures |value| <= 64 && IsHex(value) ==> r.Success? && LimbsValue(r.value) == HexValue(value)
    ensures |value| >= 64 ==> r == EncodeBytes32(value)
  {
    var padded := PadStart(value, 64);
    if |value| <= 64 && IsHex(value) then
      IntendedHashPadding(value);
      Split(padded)
    else if |value| >= 64 then
      PadStartNoop(value, 64);
      PadStartNoop(value, 64 - |value|);
      Split(padded)
    else
      Split(padded)
  }

  lemma IntendedHashPadding(value: string)
    requires |value| <= 64 && IsHex(value)
    ensures Split(PadStart(value, 64)).Success?
    ensures LimbsValue(Split(PadStart(value, 64)).value) == HexValue(value)
  {
    var p := PadStart(value, 64);
    PadStartValue(value, 64);
    PaddedLong(p);
    EncodeBytes32FullWidth(p);
  }

  /** `encodeUint256` with `padStart(64, '0')`: every value below 2^256
      encodes, and its limbs stand for exactly that value; a negative value
      still throws on its "-". */
  function EncodeUint256Intended(value: int): (r: Result<Limbs, Error>)
    ensures 0 <= value < TWO_TO_256 ==> r.Success? && LimbsValue(r.value) == value
    ensures value < 0 ==> r == Failure(SyntaxError)
  {
    var hexString := ToString16(value);
    var padded := PadStart(hexString, 64);
    if 0 <= value < TWO_TO_256 then
      IntendedPadding(value);
      Split(padded)
    else if value < 0 then
      IntendedRejectsNegative(value);
      Split(padded)
    else
      Split(padded)
  }

  lemma IntendedPadding(value: nat)
    requires value < TWO_TO_256
    ensures Split(PadStart(ToString16(value), 64)).Success?
    ensures LimbsValue(Split(PadStart(ToString16(value), 64)).value) == value
  {
    assert value < Pow16(64) by { Pow16Values(); }
    NatToHexLength(value, 64);
    IntendedHashPadding(ToString16(value));
  }

  lemma IntendedRejectsNegative(value: int)
    requires value < 0
    ensures Split(PadStart(ToString16(value), 64)) == Failure(SyntaxError)
  {
    var s := ToString16(value);
    var p := PadStart(s, 64);
    if |s| <= 64 {
      assert p[64 - |s|] == '-';
      SplitRejectsBadChar(p, 64 - |s|);
    } else {
      assert p[0] == '-';
      SplitRejectsBadChar(p, 0);
    }
  }

  lemma LimbsHorner(m: Limbs)
    ensures LimbsValue(m) == ((LimbOrZero(m.part4) * TWO_TO_64 + LimbOrZero(m.part3)) * TWO_TO_64
                              + LimbOrZero(m.part2)) * TWO_TO_64 + LimbOrZero(m.part1)
  {
  }

  /** `decodeUint256` with 64-bit shift steps: the limbs read as base-2^64
      digits. */
  function DecodeUint256Intended(m: Limbs): (r: nat)
    ensures r == LimbsValue(m)
  {
    var part1 := LimbOrZero(m.part1);
    var part2 := LimbOrZero(m.part2);
    var part3 := LimbOrZero(m.part3);
    var part4 := LimbOrZero(m.part4);
    assert Pow2(64) == TWO_TO_64 by { Pow2Values(); }
    ShiftOrSum(part1, part2, part3, part4, 64);
    LimbsHorner(m);
    ShiftOr(part1, part2, part3, part4, 64)
  }

  /** With the corrected decoder a 64-digit hash comes back whole. */
  lemma DecodeBytes32Intended(h: string)
    requires |h| == 64 && IsHex(h)
    ensures EncodeBytes32(h).Success?
    ensures DecodeUint256Intended(EncodeBytes32(h).value) == HexValue(h)
  {
    EncodeBytes32FullWidth(h);
  }

  /** The wire leaf of the corrected `encodeTree`: every position below
      2^256 encodes, so the leaf encodes exactly when its hash does, and
      its index stands for the position. */
  function EncodeLeafIntended(hash: string, i: nat): (r: Result<WireLeaf, Error>)
    ensures r.Success? <==> EncodeBytes32Intended(hash).Success? && EncodeUint256Intended(i).Success?
    ensures i < TWO_TO_256 ==> (r.Success? <==> EncodeBytes32Intended(hash).Success?)
    ensures r.Success? ==> r.value.leafHash == Some(EncodeBytes32Intended(hash).value)
    ensures r.Success? ==> r.value.index == Some(EncodeUint256Intended(i).value)
    ensures r.Success? && i < TWO_TO_256 ==> r.value.index.Some? && LimbsValue(r.value.index.value) == i
  {
    var leafHash :- EncodeBytes32Intended(hash);
    var leafIndex :- EncodeUint256Intended(i);
    Success(WireLeaf(Some(leafHash), Some(leafIndex)))
  }

  /** `encodeTree` built on the corrected encoders. */
  function EncodeTreeIntended(rootHex: string, hashes: seq<string>): (r: Result<WireTree, Error>)
    ensures r.Success? <==> EncodeBytes32Intended(rootHex).Success? && ReduceLeaves(EncodeLeafIntended, hashes).Success?
    ensures r.Success? ==> |r.value.leaves| == |hashes|
  {
    var root :- EncodeBytes32Intended(rootHex);
    var leaves :- ReduceLeaves(EncodeLeafIntended, hashes);
    Success(WireTree(Some(root), leaves))
  }

  /** `decodeTree` built on the corrected decoder. */
  function DecodeTreeIntended(t: WireTree): (r: Result<seq<Option<string>>, Error>)
    ensures r.Success? <==> |t.leaves| <= MAX_ARRAY_LENGTH && AllComplete(t.leaves)
  {
    DecodeLeavesWith(DecodeUint256Intended, t)
  }

  /** The tree round trip the codec is meant to give: for hashes of at
      most 64 hex digits and at most 2^32 - 1 leaves, slot `i` holds the
      `toString(16)` of hash `i`'s value, and there is no hole. */
  lemma IntendedTreeRoundTrip(rootHex: string, hashes: seq<string>)
    requires |rootHex| <= 64 && IsHex(rootHex)
    requires forall i :: 0 <= i < |hashes| ==> |hashes[i]| <= 64 && IsHex(hashes[i])
    requires |hashes| <= MAX_ARRAY_LENGTH
    ensures EncodeTreeIntended(rootHex, hashes).Success?
    ensures DecodeTreeIntended(EncodeTreeIntended(rootHex, hashes).value).Success?
    ensures |DecodeTreeIntended(EncodeTreeIntended(rootHex, hashes).value).value| == |hashes|
    ensures forall i :: 0 <= i < |hashes| ==>
      DecodeTreeIntended(EncodeTreeIntended(rootHex, hashes).value).value[i] == Some(NatToHex(HexValue(hashes[i])))
  {
    IntendedLeaves(rootHex, hashes);
    var t := EncodeTreeIntended(rootHex, hashes).value;
    var ws := t.leaves;
    forall k | 0 <= k < |ws|
      ensures Complete(ws[k]) && Position(DecodeUint256Intended, ws[k]) == k
      ensures Entry(DecodeUint256Intended, ws[k]) == NatToHex(HexValue(hashes[k]))
    {
      assert k < TWO_TO_256;
    }
    DecodeSelfIndexed(DecodeUint256Intended, t);
  }

  /** The corrected `encodeTree` accepts every tree of hashes of at most 64
      hex digits that fits an array, and wire leaf `i` carries hash `i` and
      the limbs of `i`. */
  lemma IntendedLeaves(rootHex: string, hashes: seq<string>)
    requires |rootHex| <= 64 && IsHex(rootHex)
    requires forall i :: 0 <= i < |hashes| ==> |hashes[i]| <= 64 && IsHex(hashes[i])
    requires |hashes| <= MAX_ARRAY_LENGTH
    ensures EncodeTreeIntended(rootHex, hashes).Success?
    ensures forall i :: 0 <= i < |hashes| ==>
      && EncodeBytes32Intended(hashes[i]).Success?
      && EncodeUint256Intended(i).Success?
      && EncodeTreeIntended(rootHex, hashes).value.leaves[i]
         == WireLeaf(Some(EncodeBytes32Intended(hashes[i]).value), Some(EncodeUint256Intended(i).value))
  {
    ReduceLeavesSpec(EncodeLeafIntended, hashes);
    forall i | 0 <= i < |hashes|
      ensures EncodeLeafIntended(hashes[i], i).Success?
    {
      assert i < TWO_TO_256;
    }
    assert EncodeTreeIntended(rootHex, hashes).value.leaves == ReduceLeaves(EncodeLeafIntended, hashes).value;
  }
}
