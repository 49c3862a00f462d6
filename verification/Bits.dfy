/** Python's bitwise operators on unbounded integers, read as two's complement with
    infinitely many sign bits, and the arithmetic they stand for in the codec. */
module Bits {
  datatype Op = AND | OR | XOR

  predicate Bit(op: Op, x: bool, y: bool) {
    match op
    case AND => x && y
    case OR => x || y
    case XOR => x != y
  }

  /** The distance of a number from its sign word, 0 or -1. */
  function Mag(a: int): nat {
    if a < 0 then -a - 1 else a
  }

  function Bitwise(op: Op, a: int, b: int): int
    decreases Mag(a) + Mag(b)
  {
    if -1 <= a <= 0 && -1 <= b <= 0 then
      (if Bit(op, a == -1, b == -1) then -1 else 0)
    else
      2 * Bitwise(op, a / 2, b / 2) + (if Bit(op, a % 2 == 1, b % 2 == 1) then 1 else 0)
  }

  function And(a: int, b: int): int { Bitwise(AND, a, b) }
  function Or(a: int, b: int): int { Bitwise(OR, a, b) }
  function Xor(a: int, b: int): int { Bitwise(XOR, a, b) }

  function Pow2(n: nat): (p: int)
    ensures p > 0
  {
    if n == 0 then 1 else 2 * Pow2(n - 1)
  }

  function Shl(a: int, n: nat): int { a * Pow2(n) }

  /** Python's right shift floors, as Dafny's division by a positive number does. */
  function Shr(a: int, n: nat): int { a / Pow2(n) }

  /** Every bitwise result satisfies the one-bit recurrence, sign words included. */
  lemma Unfold(op: Op, a: int, b: int)
    ensures Bitwise(op, a, b)
         == 2 * Bitwise(op, a / 2, b / 2) + (if Bit(op, a % 2 == 1, b % 2 == 1) then 1 else 0)
  {
  }

  lemma {:induction false} DivPow2(a: int, n: nat)
    requires n > 0
    ensures (a / 2) / Pow2(n - 1) == a / Pow2(n)
    ensures a % Pow2(n) == 2 * ((a / 2) % Pow2(n - 1)) + a % 2
  {
    var p := Pow2(n - 1);
    var q, r := (a / 2) / p, (a / 2) % p;
    assert a == Pow2(n) * q + (2 * r + a % 2) by {
      assert a == 2 * (p * q + r) + a % 2;
      assert 2 * (p * q) == (2 * p) * q;
    }
    DivModUnique(a, Pow2(n), q, 2 * r + a % 2);
  }

  lemma DivModUnique(a: int, d: int, q: int, r: int)
    requires 0 <= r < d && a == d * q + r
    ensures a / d == q && a % d == r
  {
    var k := q - a / d;
    assert d * k == a % d - r by {
      assert a == d * (a / d) + a % d;
      assert d * k == d * q - d * (a / d);
    }
    assert -d < d * k < d;
    assert k == 0;
  }

  /** Masking with n ones keeps the value modulo 2^n, for negative numbers too. */
  lemma {:induction false} AndMask(a: int, n: nat)
    ensures And(a, Pow2(n) - 1) == a % Pow2(n)
    decreases n
  {
    if n == 0 {
      AndZero(a);
    } else {
      Unfold(AND, a, Pow2(n) - 1);
      assert (Pow2(n) - 1) / 2 == Pow2(n - 1) - 1 && (Pow2(n) - 1) % 2 == 1;
      AndMask(a / 2, n - 1);
      DivPow2(a, n);
    }
  }

  lemma {:induction false} AndZero(a: int)
    ensures And(a, 0) == 0
    decreases Mag(a)
  {
    if a < -1 || a > 0 {
      Unfold(AND, a, 0);
      AndZero(a / 2);
    }
  }

  /** `|` of numbers with no bit in common is their sum. */
  lemma {:induction false} OrDisjoint(a: nat, x: nat, n: nat)
    requires a < Pow2(n)
    ensures Or(a, Shl(x, n)) == a + Shl(x, n)
  {
    if n == 0 {
      OrZero(x);
    } else {
      ShlStep(x, n);
      OrDisjoint(a / 2, x, n - 1);
      OrDouble(a, Shl(x, n - 1));
    }
  }

  lemma ShlStep(x: int, n: nat)
    requires n > 0
    ensures Shl(x, n) == 2 * Shl(x, n - 1)
  {
    assert x * (2 * Pow2(n - 1)) == 2 * (x * Pow2(n - 1));
  }

  lemma OrDouble(a: int, y: int)
    ensures Or(a, 2 * y) == 2 * Or(a / 2, y) + a % 2
  {
    Unfold(OR, a, 2 * y);
    assert (2 * y) / 2 == y && (2 * y) % 2 == 0;
  }

  lemma {:induction false} OrZero(x: int)
    ensures Or(0, x) == x
    decreases Mag(x)
  {
    if x < -1 || x > 0 {
      Unfold(OR, 0, x);
      OrZero(x / 2);
    }
  }

  lemma {:induction false} XorZero(x: int)
    ensures Xor(x, 0) == x
    decreases Mag(x)
  {
    if x < -1 || x > 0 {
      Unfold(XOR, x, 0);
      XorZero(x / 2);
    }
  }

  lemma {:induction false} XorMinusOne(x: int)
    ensures Xor(x, -1) == -x - 1
    decreases Mag(x)
  {
    if x < -1 || x > 0 {
      Unfold(XOR, x, -1);
      XorMinusOne(x / 2);
    }
  }

  /** Flipping the low n bits of a negative n-bit number leaves its sign bits set. */
  lemma {:induction false} XorMaskNegative(a: int, n: nat)
    requires -Pow2(n) <= a < 0
    ensures Xor(a, Pow2(n) - 1) == -a - 1 - Pow2(n)
    decreases n
  {
    if n == 0 {
    } else {
      Unfold(XOR, a, Pow2(n) - 1);
      assert (Pow2(n) - 1) / 2 == Pow2(n - 1) - 1 && (Pow2(n) - 1) % 2 == 1;
      XorMaskNegative(a / 2, n - 1);
    }
  }
}
