/** The limb codec of src/main.ts: a hex string (a BigInt's `toString(16)`
    or a hash) is left-padded, cut into four 16-character windows and each
    window parsed as a BigInt; decoding ORs the limbs back together with
    16-bit shift steps. Everything follows the code as written. */
module LimbCodec {
  import opened Wrappers
  import opened JsText
  import opened Hex
  import opened Bits

  /** The protobuf `uint64` type of each limb field. */
  type Uint64 = x: int | 0 <= x < 0x1_0000_0000_0000_0000

  /** A `Uint256` or `Bytes32` message: four optional 64-bit limbs, `part4`
      taken from the first 16 hex characters and `part1` from the last. */
  datatype Limbs = Limbs(part1: Option<Uint64>, part2: Option<Uint64>, part3: Option<Uint64>, part4: Option<Uint64>)

  /** The exceptions that can escape the codec: BigInt's SyntaxError, the
      Error thrown for a leaf without `index` or `leafHash`, and the
      RangeError of an array length beyond 2^32 - 1. */
  datatype Error = SyntaxError | MissingLeafField | RangeError

  const TWO_TO_64: nat := 0x1_0000_0000_0000_0000
  const TWO_TO_112: nat := 0x1_0000_0000_0000_0000_0000_0000_0000
  const TWO_TO_256: nat := 0x1_0000_0000_0000_0000_0000_0000_0000_0000_0000_0000_0000_0000_0000_0000_0000_0000

  /** The number four limbs stand for when each is read as a base-2^64
      digit, `part4` the most significant: four `uint64` fields filled from
      16-hex-digit windows stand for this number. */
  function LimbsValue(m: Limbs): nat {
    m.part4.GetOr(0) * 0x1_0000_0000_0000_0000_0000_0000_0000_0000_0000_0000_0000_0000
    + m.part3.GetOr(0) * 0x1_0000_0000_0000_0000_0000_0000_0000_0000
    + m.part2.GetOr(0) * TWO_TO_64
    + m.part1.GetOr(0)
  }

  /** Whether `BigInt('0x' + w)` parses. StringToBigInt trims white space
      around its argument; only trailing space can matter here, the string
      starting with "0x". At least one hex digit must remain. */
  predicate ParsesAsHex(w: string) {
    var t := TrimEnd(w);
    |t| > 0 && IsHex(t)
  }

  /** `BigInt('0x' + w)` for a window of at most 16 characters; its value
      always fits a limb. */
  function ParseHexBigInt(w: string): (r: Result<Uint64, Error>)
    requires |w| <= 16
    ensures r.Success? <==> ParsesAsHex(w)
    ensures r.Success? ==> IsHex(TrimEnd(w)) && r.value == HexValue(TrimEnd(w))
    ensures r.Success? ==> r.value < Pow16(|TrimEnd(w)|)
  {
    var t := TrimEnd(w);
    if |t| > 0 && IsHex(t) then
      Pow16Values();
      Pow16Monotone(|t|, 16);
      Success(HexValue(t) as Uint64)
    else
      Failure(SyntaxError)
  }

  /** `hexString.substring(16 * k, 16 * k + 16)`. */
  function Window(p: string, k: nat): (w: string)
    ensures |w| <= 16
  {
    Substring(p, 16 * k, 16 * k + 16)
  }

  /** `split256BitHexStringTo64Bit`: characters [0,16) become `part4`,
      [16,32) `part3`, [32,48) `part2` and [48,64) `part1`. */
  function Split(p: string): (r: Result<Limbs, Error>)
    ensures r.Success? <==> forall k :: 0 <= k < 4 ==> ParsesAsHex(Window(p, k))
    ensures r.Failure? ==> r.error == SyntaxError
  {
    AllWindows(p);
    var part4 :- ParseHexBigInt(Window(p, 0));
    var part3 :- ParseHexBigInt(Window(p, 1));
    var part2 :- ParseHexBigInt(Window(p, 2));
    var part1 :- ParseHexBigInt(Window(p, 3));
    Success(Limbs(Some(part1), Some(part2), Some(part3), Some(part4)))
  }

  lemma AllWindows(p: string)
    ensures (forall k :: 0 <= k < 4 ==> ParsesAsHex(Window(p, k)))
            <==> ParsesAsHex(Window(p, 0)) && ParsesAsHex(Window(p, 1))
                 && ParsesAsHex(Window(p, 2)) && ParsesAsHex(Window(p, 3))
  {
    if ParsesAsHex(Window(p, 0)) && ParsesAsHex(Window(p, 1)) && ParsesAsHex(Window(p, 2)) && ParsesAsHex(Window(p, 3)) {
      forall k | 0 <= k < 4
        ensures ParsesAsHex(Window(p, k))
      {
        assert k == 0 || k == 1 || k == 2 || k == 3;
      }
    }
  }

  function Min(a: int, b: int): int {
    if a <= b then a else b
  }

  /** The four limbs of `m` are present with exactly these values. */
  predicate IsLimbs(m: Limbs, p1: nat, p2: nat, p3: nat, p4: nat) {
    && m.part1.Some? && m.part1.value == p1
    && m.part2.Some? && m.part2.value == p2
    && m.part3.Some? && m.part3.value == p3
    && m.part4.Some? && m.part4.value == p4
  }

  lemma TrimEndKeeps(w: string)
    requires |w| > 0 && !IsJsWhiteSpace(w[|w| - 1])
    ensures TrimEnd(w) == w
  {
  }

  /** Window `k` of a string longer than 48 characters is never empty. */
  lemma WindowOfLong(p: string, k: nat)
    requires |p| > 48 && k < 4
    ensures Window(p, k) == p[16 * k..Min(16 * k + 16, |p|)]
    ensures |Window(p, k)| > 0
  {
  }

  /** When the padded string is longer than 48 characters and its first 64
      characters are hex digits, every window parses to the value of its
      own digits. */
  lemma SplitOfHex(p: string)
    requires |p| > 48 && IsHex(p[..Min(|p|, 64)])
    ensures IsHex(Window(p, 0)) && IsHex(Window(p, 1)) && IsHex(Window(p, 2)) && IsHex(Window(p, 3))
    ensures Split(p).Success?
    ensures IsLimbs(Split(p).value, HexValue(Window(p, 3)), HexValue(Window(p, 2)),
                    HexValue(Window(p, 1)), HexValue(Window(p, 0)))
  {
    var m := Min(|p|, 64);
    forall k | 0 <= k < 4
      ensures IsHex(Window(p, k)) && ParseHexBigInt(Window(p, k)) == Success(HexValue(Window(p, k)))
    {
      WindowOfLong(p, k);
      assert Window(p, k) == p[..m][16 * k..Min(16 * k + 16, m)];
      HexSlice(p[..m], 16 * k, Min(16 * k + 16, m));
      TrimEndKeeps(Window(p, k));
    }
  }

  /** A character that reaches a window and is neither a hex digit nor
      white space makes BigInt, and so the split, throw. */
  lemma SplitRejectsBadChar(p: string, i: nat)
    requires i < |p| && i < 64
    requires !IsHexDigit(p[i]) && !IsJsWhiteSpace(p[i])
    ensures Split(p) == Failure(SyntaxError)
  {
    var k := i / 16;
    var w := Window(p, k);
    assert w == p[16 * k..Min(16 * k + 16, |p|)];
    var j := i - 16 * k;
    assert w[j] == p[i];
    var t := TrimEnd(w);
    assert |t| > j;
    assert t[j] == p[i];
    assert !ParsesAsHex(w);
  }

  /** The string `split256BitHexStringTo64Bit` receives: padded to
      `64 - length`, not to 64. */
  function Padded(h: string): (p: string)
    ensures |p| == if |h| <= 32 then 64 - |h| else |h|
  {
    PadStart(h, 64 - |h|)
  }

  /** Up to 32 characters, padding to `64 - length` prepends `64 - 2 * length` zeros. */
  lemma PaddedShort(s: string)
    requires |s| <= 32
    ensures Padded(s) == Zeros(64 - 2 * |s|) + s
  {
    var p := Padded(s);
    var z := Zeros(64 - 2 * |s|);
    assert |p| == |z + s|;
    forall i | 0 <= i < |p|
      ensures p[i] == (z + s)[i]
    {
      if i >= |z| {
        assert p[|z|..] == s;
        assert p[i] == p[|z|..][i - |z|];
      }
    }
  }

  /** The windows of a padded value of at most 8 digits: three of zeros,
      and a last one holding the value behind its remaining zeros. */
  lemma ShortWindows(s: string)
    requires |s| <= 8 && IsHex(s)
    ensures |Padded(s)| > 48 && IsHex(Padded(s)[..Min(|Padded(s)|, 64)])
    ensures IsHex(Window(Padded(s), 0)) && HexValue(Window(Padded(s), 0)) == 0
    ensures IsHex(Window(Padded(s), 1)) && HexValue(Window(Padded(s), 1)) == 0
    ensures IsHex(Window(Padded(s), 2)) && HexValue(Window(Padded(s), 2)) == 0
    ensures IsHex(Window(Padded(s), 3)) && HexValue(Window(Padded(s), 3)) == HexValue(s)
  {
    var n := |s|;
    var p := Padded(s);
    PaddedShort(s);
    ZerosPrefixValue(64 - 2 * n, s);
    assert p[..Min(|p|, 64)] == p;
    ShortZeroWindow(s, 0);
    ShortZeroWindow(s, 1);
    ShortZeroWindow(s, 2);
    ShortLastWindow(s);
  }

  lemma ShortZeroWindow(s: string, k: nat)
    requires |s| <= 8 && k < 3
    ensures IsHex(Window(Padded(s), k)) && HexValue(Window(Padded(s), k)) == 0
  {
    var p := Padded(s);
    PaddedShort(s);
    WindowOfLong(p, k);
    assert forall i :: 0 <= i < |Window(p, k)| ==> Window(p, k)[i] == p[16 * k + i];
    AllZerosValue(Window(p, k));
  }

  lemma ShortLastWindow(s: string)
    requires |s| <= 8 && IsHex(s)
    ensures IsHex(Window(Padded(s), 3)) && HexValue(Window(Padded(s), 3)) == HexValue(s)
  {
    var n := |s|;
    var p := Padded(s);
    PaddedShort(s);
    WindowOfLong(p, 3);
    assert Window(p, 3) == p[48..];
    ZerosDrop(64 - 2 * n, 48, s);
    ZerosPrefixValue(16 - 2 * n, s);
  }

  /** `encodeBytes32`: the hash string is padded and split, with no check
      of its length or its characters. A length from 16 to 48 pads to at
      most 48 characters, leaves the last window empty and throws; up to 8
      hex digits land whole in `part1`. */
  function EncodeBytes32(value: string): (r: Result<Limbs, Error>)
    ensures 16 <= |value| <= 48 ==> r == Failure(SyntaxError)
    ensures |value| <= 8 && IsHex(value) ==> r.Success? && IsLimbs(r.value, HexValue(value), 0, 0, 0)
    ensures r.Success? ==> r.value.part1.Some? && r.value.part2.Some? && r.value.part3.Some? && r.value.part4.Some?
  {
    var p := Padded(value);
    assert 16 <= |value| <= 48 ==> Window(p, 3) == [];
    assert |value| <= 8 && IsHex(value) ==> Split(p).Success? && IsLimbs(Split(p).value, HexValue(value), 0, 0, 0) by {
      if |value| <= 8 && IsHex(value) {
        ShortWindows(value);
        SplitOfHex(p);
      }
    }
    Split(p)
  }

  /** A character of the input that reaches a window (one of the first 64)
      and is neither a hex digit nor white space makes `encodeBytes32` throw. */
  lemma EncodeBytes32RejectsBadChar(s: string, i: nat)
    requires i < |s| && i < 64
    requires !IsHexDigit(s[i]) && !IsJsWhiteSpace(s[i])
    ensures EncodeBytes32(s) == Failure(SyntaxError)
  {
    var p := Padded(s);
    if !(16 <= |s| <= 48) {
      var j := |p| - |s| + i;
      assert p[|p| - |s|..] == s;
      assert p[j] == p[|p| - |s|..][i];
      SplitRejectsBadChar(p, j);
    }
  }

  /** `encodeUint256`: `toString(16)` of the BigInt, then the same padding
      and split as `encodeBytes32`, with no range check. A negative value's
      '-' sign throws; a value below 2^32 has at most 8 digits and comes
      out whole in `part1`. */
  function EncodeUint256(value: int): (r: Result<Limbs, Error>)
    ensures r == EncodeBytes32(ToString16(value))
    ensures value < 0 ==> r == Failure(SyntaxError)
    ensures 0 <= value < 0x1_0000_0000 ==> r == Success(Limbs(Some(value), Some(0), Some(0), Some(0)))
  {
    var hexString := ToString16(value);
    assert value < 0 ==> EncodeBytes32(hexString) == Failure(SyntaxError) by {
      if value < 0 {
        EncodeBytes32RejectsBadChar(hexString, 0);
      }
    }
    assert 0 <= value < 0x1_0000_0000 ==> |hexString| <= 8 && IsHex(hexString) && HexValue(hexString) == value by {
      if 0 <= value < 0x1_0000_0000 {
        Pow16Values();
        NatToHexLength(value, 8);
      }
    }
    Split(Padded(hexString))
  }

  /** A limb as `BigInt(message.partN || 0)` reads it: absent is 0. */
  function LimbOrZero(part: Option<Uint64>): nat {
    part.GetOr(0)
  }

  /** `(part4 << 3s) | (part3 << 2s) | (part2 << s) | part1` for the shift
      step `s`, evaluated left to right as JavaScript groups it. */
  function ShiftOr(part1: nat, part2: nat, part3: nat, part4: nat, step: nat): nat {
    Or(Or(Or(ShiftLeft(part4, 3 * step), ShiftLeft(part3, 2 * step)), ShiftLeft(part2, step)), part1)
  }

  /** `decodeUint256`: absent limbs read as 0, then the 16-bit shift OR.
      The shift steps are 16 bits although each limb holds 64, so the
      result never reaches 2^112; every limb contributes at least its own
      value shifted by 16, 32 or 48 bits, and the result is at most the sum
      of those shifted values. */
  function DecodeUint256(m: Limbs): (r: nat)
    ensures r < TWO_TO_112
    ensures LimbOrZero(m.part1) <= r && LimbOrZero(m.part2) * 0x1_0000 <= r
    ensures LimbOrZero(m.part3) * 0x1_0000_0000 <= r && LimbOrZero(m.part4) * 0x1_0000_0000_0000 <= r
    ensures r <= LimbOrZero(m.part4) * 0x1_0000_0000_0000 + LimbOrZero(m.part3) * 0x1_0000_0000
                 + LimbOrZero(m.part2) * 0x1_0000 + LimbOrZero(m.part1)
  {
    var part1 := LimbOrZero(m.part1);
    var part2 := LimbOrZero(m.part2);
    var part3 := LimbOrZero(m.part3);
    var part4 := LimbOrZero(m.part4);
    ShiftOr16Bound(part1, part2, part3, part4);
    ShiftOr(part1, part2, part3, part4, 16)
  }

  lemma ShiftOr16Bound(part1: nat, part2: nat, part3: nat, part4: nat)
    requires part1 < TWO_TO_64 && part2 < TWO_TO_64 && part3 < TWO_TO_64 && part4 < TWO_TO_64
    ensures ShiftOr(part1, part2, part3, part4, 16) < TWO_TO_112
    ensures part1 <= ShiftOr(part1, part2, part3, part4, 16)
    ensures part2 * 0x1_0000 <= ShiftOr(part1, part2, part3, part4, 16)
    ensures part3 * 0x1_0000_0000 <= ShiftOr(part1, part2, part3, part4, 16)
    ensures part4 * 0x1_0000_0000_0000 <= ShiftOr(part1, part2, part3, part4, 16)
    ensures ShiftOr(part1, part2, part3, part4, 16)
      <= part4 * 0x1_0000_0000_0000 + part3 * 0x1_0000_0000 + part2 * 0x1_0000 + part1
  {
    Pow2Values();
    ShiftLeftMul(part4, 48);
    ShiftLeftMul(part3, 32);
    ShiftLeftMul(part2, 16);
    var a := ShiftLeft(part4, 48);
    var b := ShiftLeft(part3, 32);
    var c := ShiftLeft(part2, 16);
    ShiftedLimbBound(part4, 48);
    ShiftedLimbBound(part3, 32);
    ShiftedLimbBound(part2, 16);
    OrBound(a, b, 112);
    OrBound(Or(a, b), c, 112);
    OrBound(Or(Or(a, b), c), part1, 112);
  }

  lemma ShiftedLimbBound(x: nat, n: nat)
    requires x < TWO_TO_64 && n <= 48
    ensures ShiftLeft(x, n) < Pow2(112)
  {
    Pow2Values();
    ShiftLeftMul(x, n);
    Pow2Add(64, n);
    Pow2Monotone(64 + n, 112);
    MulStrict(x, Pow2(64), Pow2(n));
  }

  /** A value held in `part1` alone decodes to itself. */
  lemma DecodeLowLimb(x: Uint64)
    ensures DecodeUint256(Limbs(Some(x), Some(0), Some(0), Some(0))) == x
  {
  }
}
