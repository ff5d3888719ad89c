/** Conversions between 80-bit floating point, 64-bit integers and doubles, as emu/float80.c does them. */
module Float80 {
  import opened Bits

  const W63: nat := 0x8000_0000_0000_0000
  const W64: nat := 0x1_0000_0000_0000_0000
  const BIAS80: nat := 0x3fff
  const EXP_SPECIAL: nat := 0x7fff
  const BIAS64: nat := 0x3ff
  const EXP64_MAX: nat := 0x7fe
  const EXP64_SPECIAL: nat := 0x7ff
  const INT64_MAX: int := 0x7fff_ffff_ffff_ffff
  const INT64_MIN: int := -0x8000_0000_0000_0000
  const P52: nat := 0x10_0000_0000_0000
  const P53: nat := 0x20_0000_0000_0000

  datatype Mode = Nearest | Down | Up | Chop

  datatype F80 = F80(signif: nat, exp: nat, sign: nat)
  predicate F80Ok(f: F80) { f.signif < W64 && f.exp < 0x8000 && f.sign < 2 }

  datatype Double = Double(signif: nat, exp: nat, sign: nat)
  predicate DoubleOk(d: Double) { d.signif < P52 && d.exp < 0x800 && d.sign < 2 }

  const NAN := Double(P52 / 2, EXP64_SPECIAL, 0)

  lemma QuotientFacts(i: nat, d: nat)
    requires d > 0
    ensures i / d >= 0
  {
  }

  // ------------------------------------------------------------ the code

  /** u128_shift_right_round of a value that fits 64 bits. */
  function ShiftRightRound(i: nat, shift: nat, sign: nat, mode: Mode): nat {
    if shift == 0 then i
    else if shift > 127 then 0
    else
      QuotientFacts(i, Pow2(shift));
      var guard := i / Pow2(shift - 1) % 2;
      var rest := i % Pow2(shift - 1);
      var q := i / Pow2(shift);
      match mode
      case Up => if sign == 0 then q + 1 else q
      case Down => if sign != 0 then q + 1 else q
      case Nearest => if guard == 1 && (rest != 0 || q % 2 == 1) then q + 1 else q
      case Chop => q
  }

  function ShiftLeft(f: F80, shift: nat): F80
    requires shift <= f.exp
  {
    f.(signif := f.signif * Pow2(shift) % W64, exp := f.exp - shift)
  }

  function ShiftRight(f: F80, shift: nat, mode: Mode): F80 {
    f.(signif := if shift > 63 then 0 else ShiftRightRound(f.signif, shift, f.sign, mode) % W64,
       exp := (f.exp + shift) % 0x8000)
  }

  predicate Supported(f: F80) { if f.exp == 0 then f.signif < W63 else f.signif >= W63 }

  // __builtin_clzl
  function Clz(x: nat): nat
    requires 0 < x
    decreases W64 - x
  {
    if x >= W63 then 0 else 1 + Clz(2 * x)
  }

  function Normalize(f: F80): F80 {
    if f.exp == 0 then f
    else
      var shift := if f.signif == 0 then 64 else Clz(f.signif);
      if f.exp < shift + 1 then ShiftLeft(f, f.exp - 1).(exp := 0) else ShiftLeft(f, shift)
  }

  function FromInt(i: int): F80 {
    Normalize(F80(if i < 0 then -i else i, if i == 0 then 0 else BIAS80 + 63, if i < 0 then 1 else 0))
  }

  // Conversion to int64_t of what a uint64_t holds.
  function Signed64(x: int): int { var m := x % W64; if m < W63 then m else m - W64 }

  function WithSign(m: int, sign: nat): int { if sign == 0 then m else -m }

  function ToInt(f: F80, mode: Mode): int {
    if !Supported(f) then INT64_MIN
    else if f.exp > BIAS80 + 63 then (if f.sign == 0 then INT64_MAX else INT64_MIN)
    else
      var g := ShiftRight(f, BIAS80 + 63 - f.exp, mode);
      Signed64(WithSign(g.signif, g.sign))
  }

  function FromDouble(d: Double): F80 {
    var exp := if d.exp == EXP64_SPECIAL then EXP_SPECIAL
               else if d.exp == 0 then (if d.signif == 0 then 0 else BIAS80 + 1 - BIAS64)
               else BIAS80 + d.exp - BIAS64;
    Normalize(F80(d.signif * 2048 + if d.exp != 0 then W63 else 0, exp, d.sign))
  }

  function ToDouble(f: F80, mode: Mode): Double {
    if !Supported(f) then NAN
    else
      var newExp := if f.exp == EXP_SPECIAL then EXP64_SPECIAL else f.exp - BIAS80 + BIAS64;
      if f.exp != EXP_SPECIAL && newExp > EXP64_MAX then Double(0, EXP64_SPECIAL, f.sign)
      else if newExp <= 0 then
        var g := ShiftRight(f.(signif := f.signif / 2), -newExp, mode);
        Packed(g, (g.exp - BIAS80 + BIAS64) % 0x800, mode)
      else Packed(f, newExp, mode)
  }

  // The significand rounded to 53 bits and put together with the exponent, in fields of 52 and 11 bits.
  function Packed(f: F80, exp: nat, mode: Mode): Double {
    var s := ShiftRightRound(f.signif, 11, f.sign, mode) % W64;
    if s / P53 % 2 == 1 then Double(s / 2 % P52, (exp + 1) % 0x800, f.sign) else Double(s % P52, exp, f.sign)
  }

  // ---------------------------------------------------------- arithmetic

  lemma MulAtLeast(k: nat, d: nat)
    requires k >= 1
    ensures k * d >= d
  {
    assert k * d == (k - 1) * d + d;
  }

  lemma QuotientUnique(a: nat, b: nat, d: nat, r: nat, s: nat)
    requires a * d + r == b * d + s && r < d && s < d
    ensures a == b && r == s
  {
    assert (a - b) * d == a * d - b * d;
    assert a > b ==> (a - b) * d >= d by { if a > b { MulAtLeast(a - b, d); } }
    assert (b - a) * d == b * d - a * d;
    assert b > a ==> (b - a) * d >= d by { if b > a { MulAtLeast(b - a, d); } }
  }

  lemma Division(i: nat, d: nat)
    requires d > 0
    ensures i == i / d * d + i % d && i % d < d
  {
  }

  lemma DivUnique(i: nat, d: nat, q: nat, r: nat)
    requires d > 0 && r < d && i == q * d + r
    ensures i / d == q && i % d == r
  {
    Division(i, d);
    QuotientUnique(i / d, q, d, i % d, r);
  }

  // Quotient and remainder by twice d, from those by d.
  lemma HalfSplit(i: nat, d: nat)
    requires d > 0
    ensures i / (2 * d) == i / d / 2 && i % (2 * d) == (i / d % 2) * d + i % d
  {
    var q := i / d / 2;
    var g := i / d % 2;
    assert i == (2 * q + g) * d + i % d;
    assert (2 * q + g) * d == q * (2 * d) + g * d;
    assert g * d <= d;
    DivUnique(i, 2 * d, q, g * d + i % d);
  }

  lemma {:induction false} Pow2Add(a: nat, b: nat)
    ensures Pow2(a + b) == Pow2(a) * Pow2(b)
  {
    if a > 0 {
      Pow2Add(a - 1, b);
      assert 2 * Pow2(a - 1) * Pow2(b) == 2 * (Pow2(a - 1) * Pow2(b));
    }
  }

  lemma {:induction false} Pow2Mono(a: nat, b: nat)
    requires a <= b
    ensures Pow2(a) <= Pow2(b)
  {
    if a < b { Pow2Mono(a, b - 1); }
  }

  lemma Powers()
    ensures Pow2(10) == 1024 && Pow2(11) == 2048 && Pow2(52) == P52 && Pow2(63) == W63 && Pow2(64) == W64
  {
    assert Pow2(4) == 16 && Pow2(8) == 16 * Pow2(4) && Pow2(12) == 16 * Pow2(8) && Pow2(16) == 16 * Pow2(12);
    assert Pow2(20) == 16 * Pow2(16) && Pow2(24) == 16 * Pow2(20) && Pow2(28) == 16 * Pow2(24) && Pow2(32) == 16 * Pow2(28);
    assert Pow2(36) == 16 * Pow2(32) && Pow2(40) == 16 * Pow2(36) && Pow2(44) == 16 * Pow2(40) && Pow2(48) == 16 * Pow2(44);
    assert Pow2(52) == 16 * Pow2(48) && Pow2(56) == 16 * Pow2(52) && Pow2(60) == 16 * Pow2(56) && Pow2(64) == 16 * Pow2(60);
  }

  // -------------------------------------------------------- one rounding

  /** n / d to the nearest integer, ties to even. */
  function RoundEven(n: nat, d: nat): nat
    requires d > 0
  {
    if 2 * (n % d) < d then n / d
    else if 2 * (n % d) > d then n / d + 1
    else n / d + n / d % 2
  }

  lemma BigShift(i: nat, shift: nat)
    requires i < W64 && shift > 64
    ensures i / Pow2(shift) == 0 && i % Pow2(shift) == i && 2 * i < Pow2(shift)
  {
    Powers();
    Pow2Mono(65, shift);
    assert Pow2(65) == 2 * Pow2(64);
    hide Pow2;
    DivUnique(i, Pow2(shift), 0, i);
  }

  // The guard bit and the rest, for a divisor 2 * p.
  lemma HalfRounds(i: nat, p: nat)
    requires p > 0
    ensures RoundEven(i, 2 * p) == i / (2 * p) + if i / p % 2 == 1 && (i % p != 0 || i / (2 * p) % 2 == 1) then 1 else 0
  {
    HalfSplit(i, p);
    Division(i, p);
    var g, r := i / p % 2, i % p;
    assert g == 0 ==> g * p == 0;
    assert g == 1 ==> g * p == p;
  }

  /** In nearest mode the guard bit and the rest decide as roundTiesToEven does, for every shift. */
  lemma NearestIsEven(i: nat, shift: nat, sign: nat)
    requires i < W64
    ensures ShiftRightRound(i, shift, sign, Nearest) == RoundEven(i, Pow2(shift))
  {
    if shift == 0 {
      assert Pow2(0) == 1;
    } else if shift > 127 {
      BigShift(i, shift);
    } else {
      HalfSplit(i, Pow2(shift - 1));
      Division(i, Pow2(shift - 1));
      assert Pow2(shift) == 2 * Pow2(shift - 1);
      HalfRounds(i, Pow2(shift - 1));
    }
  }

  /** In chop mode the shift truncates. */
  lemma ChopIsFloor(i: nat, shift: nat, sign: nat)
    requires i < W64
    ensures ShiftRightRound(i, shift, sign, Chop) == i / Pow2(shift)
  {
    if shift == 0 {
      assert Pow2(0) == 1;
    } else if shift > 127 {
      BigShift(i, shift);
    }
  }

  /** Rounding up and down add one even to an exact result, and past 127 bits never; they round as their names say exactly on
      the side they leave alone, without a shift, up to 127 bits if the result is not exact, and beyond if it is. */
  lemma DirectedIff(i: nat, shift: nat, sign: nat)
    requires i < W64 && sign < 2
    ensures var q, exact := i / Pow2(shift), i % Pow2(shift) == 0;
            var right := shift == 0 || (if shift <= 127 then !exact else exact);
            && (ShiftRightRound(i, shift, sign, Up) == (if sign == 0 && !exact then q + 1 else q) <==> sign == 1 || right)
            && (ShiftRightRound(i, shift, sign, Down) == (if sign == 1 && !exact then q + 1 else q) <==> sign == 0 || right)
  {
    if shift == 0 {
      assert Pow2(0) == 1;
    } else if shift > 127 {
      BigShift(i, shift);
    }
  }

  /** The inputs: 2 shifted by one place rounds up to 2 where 1 is exact, and 1 shifted by 128 places to 0 where 1 is next. */
  lemma DirectedWrong()
    ensures ShiftRightRound(2, 1, 0, Up) == 2 && 2 / Pow2(1) == 1 && 2 % Pow2(1) == 0
    ensures ShiftRightRound(1, 128, 0, Up) == 0 && 1 % Pow2(128) != 0
  {
    assert Pow2(0) == 1 && Pow2(1) == 2;
    BigShift(1, 128);
  }

  // ------------------------------------------------------------ integers

  /** Numbers of 2^64 and more, infinities and NaNs become the largest or the smallest integer by their sign, and unsupported ones the
      smallest. From 2^63 to 2^64 nothing saturates: the result is off by 2^64. */
  lemma ToIntSaturates(f: F80, mode: Mode)
    requires F80Ok(f)
    ensures !Supported(f) ==> ToInt(f, mode) == -0x8000_0000_0000_0000
    ensures Supported(f) && f.exp > BIAS80 + 63 ==> ToInt(f, mode) == if f.sign == 0 then 0x7fff_ffff_ffff_ffff else -0x8000_0000_0000_0000
    ensures Supported(f) && f.exp == BIAS80 + 63 ==>
              ToInt(f, mode) == if f.sign == 0 then f.signif - W64 else if f.signif == W63 then INT64_MIN else W64 - f.signif
  {
  }

  lemma {:induction false} ClzFacts(x: nat)
    requires 0 < x < W64
    ensures W63 <= x * Pow2(Clz(x)) < W64 && Clz(x) <= 63
    decreases W64 - x
  {
    if x < W63 {
      ClzFacts(2 * x);
      var c := Clz(2 * x);
      var p := Pow2(c);
      assert Pow2(c + 1) == 2 * p && Clz(x) == c + 1;
      TwiceOver(x, p);
      hide Clz, Pow2;
      ClzBound(x, c + 1);
    } else {
      assert Pow2(0) == 1;
    }
  }

  lemma TwiceOver(x: nat, p: nat)
    ensures x * (2 * p) == 2 * x * p
  {
  }

  lemma ClzBound(x: nat, c: nat)
    requires x > 0 && x * Pow2(c) < W64
    ensures c <= 63
  {
    if c > 63 {
      Pow2Mono(64, c);
      Powers();
      MulAtLeast(x, Pow2(c));
    }
  }

  // A significand shifted up and down again.
  lemma ShiftBack(x: nat, shift: nat, sign: nat, mode: Mode)
    requires x * Pow2(shift) < W64 && shift <= 63
    ensures ShiftRightRound(x * Pow2(shift), shift, sign, mode) ==
              if shift > 0 && ((mode == Up && sign == 0) || (mode == Down && sign != 0)) then x + 1 else x
  {
    if shift > 0 {
      ShiftParts(x, shift);
      hide Pow2;
    } else {
      assert Pow2(0) == 1;
    }
  }

  lemma ShiftParts(x: nat, shift: nat)
    requires shift > 0
    ensures var i := x * Pow2(shift);
            i / Pow2(shift) == x && i / Pow2(shift - 1) == 2 * x && i % Pow2(shift - 1) == 0
  {
    var p := Pow2(shift - 1);
    assert Pow2(shift) == 2 * p;
    hide Pow2;
    assert x * (2 * p) == 2 * x * p;
    DivUnique(x * (2 * p), 2 * p, x, 0);
    DivUnique(2 * x * p, p, 2 * x, 0);
  }

  // f80_from_int puts the integer's magnitude in a supported number.
  lemma FromIntZero()
    ensures FromInt(0) == F80(0, 0, 0)
  {
  }

  lemma FromIntIs(i: int)
    requires INT64_MIN <= i <= INT64_MAX && i != 0
    ensures var x: nat := if i < 0 then -i else i;
            var f := FromInt(i);
            && Clz(x) <= 63 && f == F80(x * Pow2(Clz(x)), BIAS80 + 63 - Clz(x), if i < 0 then 1 else 0)
            && F80Ok(f) && Supported(f)
  {
    var x: nat := if i < 0 then -i else i;
    ClzFacts(x);
    hide Clz, Pow2;
  }

  // A mode that leaves exact magnitudes of this sign alone.
  predicate Leaves(mode: Mode, sign: nat) { mode == Nearest || mode == Chop || (mode == Up && sign != 0) || (mode == Down && sign == 0) }

  /** An integer comes back from its conversion exactly in the modes that leave exact values alone, and otherwise only if it
      is 0 or fills the significand. */
  lemma IntRoundTripIff(i: int, mode: Mode)
    requires INT64_MIN <= i <= INT64_MAX
    ensures ToInt(FromInt(i), mode) == i <==> Leaves(mode, if i < 0 then 1 else 0) || i == 0 || i == INT64_MIN
  {
    if i != 0 {
      var x: nat := if i < 0 then -i else i;
      var sign := if i < 0 then 1 else 0;
      FromIntIs(i);
      ClzFacts(x);
      ShiftBack(x, Clz(x), sign, mode);
      ClzZero(x);
      var y := ShiftRightRound(x * Pow2(Clz(x)), Clz(x), sign, mode);
      assert y == if Clz(x) > 0 && !Leaves(mode, sign) then x + 1 else x;
      hide Clz, Pow2, FromInt, ShiftRightRound, Leaves;
      ToIntOf(FromInt(i), y, mode);
      SignedBack(i, y);
    }
  }

  // A supported number of at most 63 binary places more than an integer.
  lemma ToIntOf(f: F80, y: nat, mode: Mode)
    requires F80Ok(f) && Supported(f) && BIAS80 <= f.exp <= BIAS80 + 63 && y < W64
    requires y == ShiftRightRound(f.signif, BIAS80 + 63 - f.exp, f.sign, mode)
    ensures ToInt(f, mode) == Signed64(WithSign(y, f.sign))
  {
    hide ShiftRightRound;
  }

  lemma SignedBack(i: int, y: nat)
    requires INT64_MIN <= i <= INT64_MAX && i != 0 && y < W64
    requires y == (if i < 0 then -i else i) || (y == (if i < 0 then -i else i) + 1 && i != INT64_MIN)
    ensures Signed64(WithSign(y, if i < 0 then 1 else 0)) == i <==> y == (if i < 0 then -i else i)
  {
  }

  lemma ClzZero(x: nat)
    requires 0 < x < W64
    ensures Clz(x) == 0 <==> x >= W63
  {
  }

  /** f80_to_int in nearest mode gives the nearest integer, ties to even, exactly if that fits int64_t and the number is not
      between one half and one, which is taken for zero. */
  lemma ToIntNearestIff(f: F80)
    requires F80Ok(f) && Supported(f) && f.exp <= BIAS80 + 63
    ensures var r := WithSign(RoundEven(f.signif, Pow2(BIAS80 + 63 - f.exp)), f.sign);
            ToInt(f, Nearest) == r <==> INT64_MIN <= r <= INT64_MAX && !(f.exp == BIAS80 - 1 && f.signif > W63)
  {
    var shift := BIAS80 + 63 - f.exp;
    if shift > 64 {
      BigShift(f.signif, shift);
      hide Pow2, ShiftRightRound;
    } else if shift == 64 {
      assert Pow2(64) == W64 by { Powers(); }
      hide Pow2, ShiftRightRound;
      DivUnique(f.signif, W64, 0, f.signif);
    } else {
      hide Pow2, RoundEven, ShiftRightRound;
      NearestIsEven(f.signif, shift, f.sign);
      RoundBound(f.signif, Pow2(shift));
      var y := RoundEven(f.signif, Pow2(shift));
      ToIntOf(f, y, Nearest);
      SignedFits(y, f.sign);
    }
  }

  lemma SignedFits(y: nat, sign: nat)
    requires y < W64 && sign < 2
    ensures var r := WithSign(y, sign);
            Signed64(r) == r <==> INT64_MIN <= r <= INT64_MAX
  {
  }

  lemma RoundBound(n: nat, d: nat)
    requires d > 0
    ensures RoundEven(n, d) <= n
  {
    Division(n, d);
    if n / d == 0 {
    } else {
      MulAtLeast(n / d, d);
      if d == 1 {
        assert n % d == 0;
      } else {
        MulAtLeast(d - 1, n / d);
        assert n / d * d == n / d + (d - 1) * (n / d);
      }
    }
  }

  /** Three quarters converts to 0 in nearest mode. */
  lemma ThreeQuarters()
    ensures var f := F80(W63 + W63 / 2, BIAS80 - 1, 0);
            Supported(f) && ToInt(f, Nearest) == 0 && RoundEven(f.signif, Pow2(64)) == 1
  {
    Powers();
    hide Pow2;
    DivUnique(W63 + W63 / 2, W64, 0, W63 + W63 / 2);
  }
}
