// Bits of natural numbers, and the bitwise operators on n-bit words.
module Bits {
  function Pow2(n: nat): (p: nat)
    ensures p >= 1
  {
    if n == 0 then 1 else 2 * Pow2(n - 1)
  }

  function Bit(x: nat, i: nat): (b: nat)
    ensures b < 2
  {
    if i == 0 then x % 2 else Bit(x / 2, i - 1)
  }

  datatype Logic = AND | OR | XOR | ANDNOT

  function LogicBit(op: Logic, a: nat, b: nat): (r: nat)
    requires a < 2 && b < 2
    ensures r < 2
  {
    match op
    case AND => if a == 1 && b == 1 then 1 else 0
    case OR => if a == 1 || b == 1 then 1 else 0
    case XOR => if a != b then 1 else 0
    case ANDNOT => if a == 1 && b == 0 then 1 else 0
  }

  /** a op b on the low n bits. */
  function Bitwise(op: Logic, a: nat, b: nat, n: nat): (r: nat)
    ensures r < Pow2(n)
  {
    if n == 0 then 0 else LogicBit(op, a % 2, b % 2) + 2 * Bitwise(op, a / 2, b / 2, n - 1)
  }

  lemma Halves(b: nat, h: nat)
    requires b < 2
    ensures (b + 2 * h) % 2 == b && (b + 2 * h) / 2 == h
  {
  }

  lemma {:induction false} BitwiseBit(op: Logic, a: nat, b: nat, n: nat, i: nat)
    requires i < n
    ensures Bit(Bitwise(op, a, b, n), i) == LogicBit(op, Bit(a, i), Bit(b, i))
  {
    hide LogicBit;
    Halves(LogicBit(op, a % 2, b % 2), Bitwise(op, a / 2, b / 2, n - 1));
    if i != 0 { BitwiseBit(op, a / 2, b / 2, n - 1, i - 1); }
  }

  function BitSum(x: nat, n: nat): nat { if n == 0 then 0 else x % 2 + BitSum(x / 2, n - 1) }

  // The sum of the low n bits depends on the low n bits only.
  lemma {:induction false} BitSumLow(x: nat, y: nat, n: nat)
    requires exists k: int :: x - y == k * Pow2(n)
    ensures BitSum(x, n) == BitSum(y, n)
  {
    if n != 0 {
      var k: int :| x - y == k * Pow2(n);
      assert x - y == 2 * (k * Pow2(n - 1)) by { assert k * (2 * Pow2(n - 1)) == 2 * (k * Pow2(n - 1)); }
      assert x % 2 == y % 2 && x / 2 - y / 2 == k * Pow2(n - 1);
      BitSumLow(x / 2, y / 2, n - 1);
    }
  }

  lemma {:induction false} Pow2Bit(s: nat, i: nat)
    ensures Bit(Pow2(s), i) == if i == s then 1 else 0
  {
    if s == 0 {
      if i != 0 { ZeroBit(i - 1); }
    } else if i != 0 {
      assert Pow2(s) / 2 == Pow2(s - 1);
      Pow2Bit(s - 1, i - 1);
    }
  }

  lemma {:induction false} ZeroBit(i: nat)
    ensures Bit(0, i) == 0
  {
    if i != 0 { ZeroBit(i - 1); }
  }

  // Words with the same bits are equal.
  lemma {:induction false} SameBits(x: nat, y: nat, n: nat)
    requires x < Pow2(n) && y < Pow2(n) && forall i | 0 <= i < n :: Bit(x, i) == Bit(y, i)
    ensures x == y
  {
    if n != 0 {
      assert Bit(x, 0) == Bit(y, 0);
      forall i | 0 <= i < n - 1 ensures Bit(x / 2, i) == Bit(y / 2, i) { assert Bit(x, i + 1) == Bit(y, i + 1); }
      SameBits(x / 2, y / 2, n - 1);
    }
  }
}
