/** BigInt `<<` and `|` on non-negative integers, and the facts about them
    that let an OR of shifted limbs be read as a sum. */
module Bits {

  function Pow2(n: nat): (p: nat)
    ensures p >= 1
  {
    if n == 0 then 1 else 2 * Pow2(n - 1)
  }

  /** `a << BigInt(n)`: one doubling per bit; BigInt shifts never
      overflow. */
  function ShiftLeft(a: nat, n: nat): nat {
    if n == 0 then a else 2 * ShiftLeft(a, n - 1)
  }

  /** `a | b` on non-negative BigInts, bit by bit from the least significant
      end. The result has every bit of either operand and no other. */
  function Or(a: nat, b: nat): (r: nat)
    ensures a <= r && b <= r
    ensures r <= a + b
    decreases a + b
  {
    if a == 0 then b
    else if b == 0 then a
    else 2 * Or(a / 2, b / 2) + (if a % 2 == 1 || b % 2 == 1 then 1 else 0)
  }

  lemma {:induction false} Pow2Add(a: nat, b: nat)
    ensures Pow2(a + b) == Pow2(a) * Pow2(b)
    decreases b
  {
    if b > 0 {
      Pow2Add(a, b - 1);
      assert Pow2(a + b) == 2 * Pow2(a + b - 1);
    }
  }

  lemma Pow2Values()
    ensures Pow2(16) == 0x1_0000
    ensures Pow2(32) == 0x1_0000_0000
    ensures Pow2(48) == 0x1_0000_0000_0000
    ensures Pow2(64) == 0x1_0000_0000_0000_0000
    ensures Pow2(112) == 0x1_0000_0000_0000_0000_0000_0000_0000
    ensures Pow2(128) == 0x1_0000_0000_0000_0000_0000_0000_0000_0000
    ensures Pow2(192) == 0x1_0000_0000_0000_0000_0000_0000_0000_0000_0000_0000_0000_0000
    ensures Pow2(256) == 0x1_0000_0000_0000_0000_0000_0000_0000_0000_0000_0000_0000_0000_0000_0000_0000_0000
  {
    assert Pow2(4) == 16 by {
      assert Pow2(1) == 2;
      assert Pow2(2) == 4;
      assert Pow2(3) == 8;
    }
    Pow2Add(4, 4);
    assert Pow2(8) == 0x100;
    Pow2Add(8, 8);
    assert Pow2(16) == 0x1_0000;
    Pow2Add(16, 16);
    assert Pow2(32) == 0x1_0000_0000;
    Pow2Add(32, 16);
    assert Pow2(48) == 0x1_0000_0000_0000;
    Pow2Add(32, 32);
    assert Pow2(64) == 0x1_0000_0000_0000_0000;
    Pow2Add(64, 48);
    Pow2Add(64, 64);
    assert Pow2(128) == 0x1_0000_0000_0000_0000_0000_0000_0000_0000;
    Pow2Add(128, 64);
    Pow2Add(128, 128);
  }

  lemma MulDouble(a: nat, p: nat)
    ensures a * (2 * p) == 2 * (a * p)
  {
  }

  /** OR never leaves the width of its operands. */
  lemma {:induction false} OrBound(a: nat, b: nat, k: nat)
    requires a < Pow2(k) && b < Pow2(k)
    ensures Or(a, b) < Pow2(k)
    decreases k
  {
    if a != 0 && b != 0 {
      assert k > 0;
      OrBound(a / 2, b / 2, k - 1);
    }
  }

  /** With `b` below bit `k`, OR-ing it into a value shifted by `k` adds it. */
  lemma {:induction false} OrDisjoint(a: nat, b: nat, k: nat)
    requires b < Pow2(k)
    ensures Or(ShiftLeft(a, k), b) == ShiftLeft(a, k) + b
    decreases k
  {
    var x := ShiftLeft(a, k);
    if k > 0 && x != 0 && b != 0 {
      var m := ShiftLeft(a, k - 1);
      OrDisjoint(a, b / 2, k - 1);
      assert Or(x, b) == 2 * Or(m, b / 2) + b % 2;
    }
  }

  /** Shifting both operands by `k` shifts their OR by `k`. */
  lemma {:induction false} OrShift(a: nat, b: nat, k: nat)
    ensures Or(ShiftLeft(a, k), ShiftLeft(b, k)) == ShiftLeft(Or(a, b), k)
    decreases k
  {
    if k > 0 {
      OrShift(a, b, k - 1);
      var x := ShiftLeft(a, k - 1);
      var y := ShiftLeft(b, k - 1);
      assert Or(2 * x, 2 * y) == 2 * Or(x, y);
    }
  }

  /** Shifting by `n` multiplies by 2^n. */
  lemma {:induction false} ShiftLeftMul(a: nat, n: nat)
    ensures ShiftLeft(a, n) == a * Pow2(n)
    decreases n
  {
    if n > 0 {
      ShiftLeftMul(a, n - 1);
      MulDouble(a, Pow2(n - 1));
    }
  }

  /** Two shifts in a row are one shift by the sum. */
  lemma {:induction false} ShiftLeftAdd(a: nat, j: nat, k: nat)
    ensures ShiftLeft(ShiftLeft(a, j), k) == ShiftLeft(a, j + k)
    decreases k
  {
    if k > 0 {
      ShiftLeftAdd(a, j, k - 1);
    }
  }

  lemma {:induction false} Pow2Monotone(a: nat, b: nat)
    requires a <= b
    ensures Pow2(a) <= Pow2(b)
    decreases b
  {
    if a < b {
      Pow2Monotone(a, b - 1);
    }
  }

  lemma MulStrict(x: nat, y: nat, p: nat)
    requires x < y && p >= 1
    ensures x * p < y * p
  {
  }

  /** Four limbs below bit `k`, ORed after shifts by `3k`, `2k` and `k`
      bits (written as repeated `k`-bit shifts), do not overlap: the OR is
      the base-2^k number they are the digits of. */
  lemma OrStack(p1: nat, p2: nat, p3: nat, p4: nat, k: nat)
    requires p1 < Pow2(k) && p2 < Pow2(k) && p3 < Pow2(k)
    ensures Or(Or(Or(ShiftLeft(ShiftLeft(ShiftLeft(p4, k), k), k), ShiftLeft(ShiftLeft(p3, k), k)), ShiftLeft(p2, k)), p1)
      == ShiftLeft(ShiftLeft(ShiftLeft(p4, k) + p3, k) + p2, k) + p1
  {
    var x := ShiftLeft(p4, k) + p3;
    var y := ShiftLeft(x, k) + p2;
    var top := Or(ShiftLeft(ShiftLeft(ShiftLeft(p4, k), k), k), ShiftLeft(ShiftLeft(p3, k), k));
    OrStackTop(p3, p4, k);
    assert top == ShiftLeft(ShiftLeft(x, k), k);
    OrStackMiddle(x, p2, k);
    assert Or(top, ShiftLeft(p2, k)) == ShiftLeft(y, k);
    OrDisjoint(y, p1, k);
  }

  /** `(p4 << 3k) | (p3 << 2k) == ((p4 << k) + p3) << 2k`. */
  lemma OrStackTop(p3: nat, p4: nat, k: nat)
    requires p3 < Pow2(k)
    ensures Or(ShiftLeft(ShiftLeft(ShiftLeft(p4, k), k), k), ShiftLeft(ShiftLeft(p3, k), k))
      == ShiftLeft(ShiftLeft(ShiftLeft(p4, k) + p3, k), k)
  {
    OrShift(ShiftLeft(ShiftLeft(p4, k), k), ShiftLeft(p3, k), k);
    OrShift(ShiftLeft(p4, k), p3, k);
    OrDisjoint(p4, p3, k);
  }

  /** `(x << 2k) | (p2 << k) == ((x << k) + p2) << k`. */
  lemma OrStackMiddle(x: nat, p2: nat, k: nat)
    requires p2 < Pow2(k)
    ensures Or(ShiftLeft(ShiftLeft(x, k), k), ShiftLeft(p2, k)) == ShiftLeft(ShiftLeft(x, k) + p2, k)
  {
    OrShift(ShiftLeft(x, k), p2, k);
    OrDisjoint(x, p2, k);
  }

  /** `OrStack` with the shifts by `2k` and `3k` written as single shifts. */
  lemma OrStackAt(p1: nat, p2: nat, p3: nat, p4: nat, k: nat, k2: nat, k3: nat)
    requires k2 == k + k && k3 == k2 + k
    requires p1 < Pow2(k) && p2 < Pow2(k) && p3 < Pow2(k)
    ensures Or(Or(Or(ShiftLeft(p4, k3), ShiftLeft(p3, k2)), ShiftLeft(p2, k)), p1)
      == ShiftLeft(ShiftLeft(ShiftLeft(p4, k) + p3, k) + p2, k) + p1
  {
    ShiftLeftAdd(p4, k, k);
    ShiftLeftAdd(p4, k2, k);
    ShiftLeftAdd(p3, k, k);
    assert ShiftLeft(p4, k3) == ShiftLeft(ShiftLeft(ShiftLeft(p4, k), k), k);
    assert ShiftLeft(p3, k2) == ShiftLeft(ShiftLeft(p3, k), k);
    OrStack(p1, p2, p3, p4, k);
  }

  lemma {:induction false} ShiftLeftZero(n: nat)
    ensures ShiftLeft(0, n) == 0
    decreases n
  {
    if n > 0 {
      ShiftLeftZero(n - 1);
    }
  }

  /** Four limbs below bit `k`, ORed after shifts by `3k`, `2k` and `k`
      bits, read as a base-2^k number. */
  lemma OrStackSum(p1: nat, p2: nat, p3: nat, p4: nat, k: nat)
    requires p1 < Pow2(k) && p2 < Pow2(k) && p3 < Pow2(k)
    ensures Or(Or(Or(ShiftLeft(p4, 3 * k), ShiftLeft(p3, 2 * k)), ShiftLeft(p2, k)), p1)
      == ((p4 * Pow2(k) + p3) * Pow2(k) + p2) * Pow2(k) + p1
  {
    OrStackAt(p1, p2, p3, p4, k, 2 * k, 3 * k);
    var x := ShiftLeft(p4, k) + p3;
    var y := ShiftLeft(x, k) + p2;
    ShiftLeftMul(p4, k);
    ShiftLeftMul(x, k);
    ShiftLeftMul(y, k);
  }
}
