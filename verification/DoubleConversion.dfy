/** Doubles and 80-bit numbers: the round trip, and the rounding of the conversion to double. */
module DoubleConversion {
  import opened Bits
  import opened Float80

  // ---------------------------------------------------------- round trip

  lemma TimesTwo11(x: nat)
    ensures x * Pow2(11) == 2048 * x
  {
    Powers();
    hide Pow2;
  }

  // The significand of a double comes back from its place at the top of the 64 bits.
  lemma SignifBack(x: nat, sign: nat, mode: Mode)
    requires x < P53
    ensures ShiftRightRound(2048 * x, 11, sign, mode) == if Leaves(mode, sign) then x else x + 1
  {
    TimesTwo11(x);
    ShiftBack(x, 11, sign, mode);
    hide Pow2, ShiftRightRound;
  }

  lemma NormalFrom(d: Double)
    requires DoubleOk(d) && d.exp > 0
    ensures FromDouble(d) == F80(2048 * (d.signif + P52), if d.exp == EXP64_SPECIAL then EXP_SPECIAL else BIAS80 + d.exp - BIAS64, d.sign)
  {
    assert Pow2(0) == 1;
    hide Pow2;
  }

  // Packing y, the rounded significand, gives d back exactly if y is d's.
  lemma PackedBack(f: F80, d: Double, mode: Mode, y: nat)
    requires DoubleOk(d) && f.sign == d.sign && y == ShiftRightRound(f.signif, 11, f.sign, mode)
    requires var x := if d.exp == 0 then d.signif else d.signif + P52; x <= y <= x + 1
    ensures Packed(f, d.exp, mode) == d <==> y == if d.exp == 0 then d.signif else d.signif + P52
  {
    hide ShiftRightRound;
  }

  lemma NormalRoundTrip(d: Double, mode: Mode)
    requires DoubleOk(d) && d.exp > 0
    ensures ToDouble(FromDouble(d), mode) == d <==> Leaves(mode, d.sign)
  {
    hide ShiftRightRound, FromDouble, Leaves, Pow2, Packed, ShiftRight;
    NormalFrom(d);
    var f := FromDouble(d);
    SignifBack(d.signif + P52, d.sign, mode);
    PackedBack(f, d, mode, ShiftRightRound(f.signif, 11, f.sign, mode));
    assert ToDouble(f, mode) == Packed(f, d.exp, mode);
  }

  lemma ZeroRoundTrip(d: Double, mode: Mode)
    requires DoubleOk(d) && d.exp == 0 && d.signif == 0
    ensures ToDouble(FromDouble(d), mode) == d <==> Leaves(mode, d.sign)
  {
    SignifBack(0, d.sign, mode);
    hide ShiftRightRound, Leaves;
  }

  lemma SubnormalFrom(d: Double)
    requires DoubleOk(d) && d.exp == 0 && d.signif != 0
    ensures var c := Clz(2048 * d.signif);
            && 1 <= c <= 63 && FromDouble(d) == F80(2048 * d.signif * Pow2(c), BIAS80 + 1 - BIAS64 - c, d.sign)
            && W63 <= 2048 * d.signif * Pow2(c) < W64
            && 2048 * d.signif * Pow2(c) / 2 == 2048 * d.signif * Pow2(c - 1)
  {
    var x := 2048 * d.signif;
    ClzFacts(x);
    ClzZero(x);
    var c := Clz(x);
    TwiceOver(x, Pow2(c - 1));
    assert Pow2(c) == 2 * Pow2(c - 1);
    hide Clz, Pow2;
    assert 2 * x * Pow2(c - 1) / 2 == x * Pow2(c - 1) by { assert 2 * x * Pow2(c - 1) == 2 * (x * Pow2(c - 1)); }
  }

  // Rounding away one bit too many cannot be repaired by the next rounding.
  lemma OneTooMany(x: nat, sign: nat, mode: Mode)
    requires !Leaves(mode, sign)
    ensures ShiftRightRound(2048 * x + 1, 11, sign, mode) == x + 1
  {
    Powers();
    hide Pow2;
  }

  lemma SubnormalRoundTrip(d: Double, mode: Mode)
    requires DoubleOk(d) && d.exp == 0 && d.signif != 0
    ensures ToDouble(FromDouble(d), mode) == d <==> Leaves(mode, d.sign)
  {
    hide Pow2, ShiftRightRound, Packed, Clz, FromDouble;
    var x := 2048 * d.signif;
    var c := Clz(x);
    SubnormalFrom(d);
    HalfFits(x, c);
    ShiftBack(x, c - 1, d.sign, mode);
    SignifBack(d.signif, d.sign, mode);
    if !Leaves(mode, d.sign) { OneTooMany(d.signif, d.sign, mode); }
    var f := FromDouble(d);
    var s := ShiftRightRound(x * Pow2(c - 1), c - 1, d.sign, mode);
    assert s == if c - 1 > 0 && !Leaves(mode, d.sign) then x + 1 else x;
    var g := F80(s, 15360, d.sign);
    SubnormalShifted(f, x * Pow2(c - 1), c, s, mode);
    PackedBack(g, d, mode, ShiftRightRound(s, 11, d.sign, mode));
  }

  lemma SubnormalShifted(f: F80, half: nat, c: nat, s: nat, mode: Mode)
    requires F80Ok(f) && Supported(f) && 1 <= c <= 63 && f.exp == BIAS80 + 1 - BIAS64 - c && f.signif / 2 == half
    requires s == ShiftRightRound(half, c - 1, f.sign, mode) && s < W64
    ensures ToDouble(f, mode) == Packed(F80(s, 15360, f.sign), 0, mode)
  {
    hide ShiftRightRound, Packed;
  }

  lemma HalfFits(x: nat, c: nat)
    requires c > 0 && x * Pow2(c) < W64
    ensures x * Pow2(c - 1) < W64
  {
    assert x * (2 * Pow2(c - 1)) == 2 * (x * Pow2(c - 1));
  }

  /** Every double, subnormals, zeros, infinities and NaN payloads included, comes back bit for bit from 80-bit form exactly
      in the modes that leave exact values of its sign alone. */
  lemma DoubleRoundTripIff(d: Double, mode: Mode)
    requires DoubleOk(d)
    ensures ToDouble(FromDouble(d), mode) == d <==> Leaves(mode, d.sign)
  {
    if d.exp > 0 {
      NormalRoundTrip(d, mode);
    } else if d.signif == 0 {
      ZeroRoundTrip(d, mode);
    } else {
      SubnormalRoundTrip(d, mode);
    }
  }

  // ------------------------------------------------------------ values

  // Magnitudes in units of the smallest positive 80-bit number; infinity counts as the next power of two, 2^1024.
  const OFFSET: nat := 15370

  predicate Ordered(d: Double) { DoubleOk(d) && (d.exp < EXP64_SPECIAL || d.signif == 0) }

  function Mantissa(d: Double): nat { if d.exp == 0 then d.signif else d.signif + P52 }
  function Scale(d: Double): nat { (if d.exp == 0 then 1 else d.exp) + OFFSET }
  function DoubleValue(d: Double): nat { Mantissa(d) * Pow2(Scale(d)) }

  function Value(f: F80): nat { f.signif * Pow2(if f.exp == 0 then 0 else f.exp - 1) }

  // m, shifted up by 11 and c places, with the exponent lowered as much.
  lemma ShiftedValue(m: nat, c: nat, e: nat)
    requires c <= e
    ensures 2048 * m * Pow2(c) * Pow2(e - c) == m * Pow2(e + 11)
  {
    Pow2Add(c, e - c);
    Pow2Add(11, e);
    assert Pow2(11) == 2048 by { Powers(); }
    hide Pow2;
    Regroup(m, Pow2(c), Pow2(e - c), Pow2(e));
  }

  lemma Regroup(m: nat, p: nat, q: nat, r: nat)
    requires p * q == r
    ensures 2048 * m * p * q == m * (2048 * r)
  {
    var n := 2048 * m;
    assert n * p * q == n * (p * q);
    assert n * r == m * (2048 * r);
  }

  /** Every finite double becomes a supported 80-bit number of exactly its value and sign, zero a zero. */
  lemma FromDoubleExact(d: Double)
    requires DoubleOk(d) && d.exp < EXP64_SPECIAL
    ensures var f := FromDouble(d); Value(f) == DoubleValue(d) && f.sign == d.sign && Supported(f)
    ensures d.exp == 0 && d.signif == 0 ==> FromDouble(d) == F80(0, 0, d.sign)
  {
    if d.exp > 0 {
      NormalFrom(d);
      hide Pow2, FromDouble;
      var f := FromDouble(d);
      ShiftedValue(d.signif + P52, 0, f.exp - 1);
      assert Pow2(0) == 1 by { Pow2Zero(); }
    } else if d.signif != 0 {
      SubnormalFrom(d);
      hide Pow2, FromDouble, Clz;
      var c := Clz(2048 * d.signif);
      ShiftedValue(d.signif, c, BIAS80 - BIAS64);
    } else {
      hide Pow2;
    }
  }

  lemma Pow2Zero()
    ensures Pow2(0) == 1
  {
  }

  // The spacing of doubles at f's magnitude.
  function Spacing(f: F80): nat { Pow2(if f.exp + 10 < OFFSET + 1 then OFFSET + 1 else f.exp + 10) }

  function Distance(a: nat, b: nat): nat { if a < b then b - a else a - b }

  // -------------------------------------------------- rounding, in general

  lemma DistributeScale(q: nat, d: nat, r: nat, c: nat)
    ensures (q * d + r) * c == q * (d * c) + r * c
  {
    var qd := q * d;
    assert (qd + r) * c == qd * c + r * c;
    assert q * d * c == q * (d * c);
  }

  lemma ScaledLess(r: nat, d: nat, c: nat)
    requires r < d && c > 0
    ensures r * c < d * c
  {
    MulAtLeast(d - r, c);
    assert (d - r) * c == d * c - r * c;
  }

  // A quotient and its remainder when both numbers are scaled.
  lemma Scaled(n: nat, d: nat, c: nat)
    requires d > 0 && c > 0
    ensures d * c > 0 && n * c / (d * c) == n / d && n * c % (d * c) == n % d * c
  {
    MulAtLeast(d, c);
    Division(n, d);
    DistributeScale(n / d, d, n % d, c);
    ScaledLess(n % d, d, c);
    DivUnique(n * c, d * c, n / d, n % d * c);
  }

  lemma RoundEvenScaled(n: nat, d: nat, c: nat)
    requires d > 0 && c > 0
    ensures d * c > 0 && RoundEven(n * c, d * c) == RoundEven(n, d)
  {
    var r := n % d;
    Scaled(n, d, c);
    ScaleCompare(2 * r, d, c);
    assert 2 * r * c == 2 * (r * c);
  }

  lemma ScaleCompare(a: nat, b: nat, c: nat)
    requires c > 0
    ensures a * c < b * c <==> a < b
    ensures a * c == b * c <==> a == b
  {
    assert (b - a) * c == b * c - a * c;
    assert a < b ==> (b - a) * c >= c by { if a < b { MulAtLeast(b - a, c); } }
    assert (a - b) * c == a * c - b * c;
    assert b < a ==> (a - b) * c >= c by { if b < a { MulAtLeast(a - b, c); } }
  }

  /** RoundEven picks the nearest multiple, and of two nearest ones the even one. */
  lemma NearestMultiple(n: nat, d: nat, k: nat)
    requires d > 0
    ensures var m := RoundEven(n, d);
            && Distance(n, k * d) >= Distance(n, m * d)
            && (Distance(n, k * d) == Distance(n, m * d) && k != m ==> m % 2 == 0)
  {
    var q, r := n / d, n % d;
    Division(n, d);
    var m := RoundEven(n, d);
    MultipleGap(k, q, d);
    MultipleGap(m, q, d);
    hide RoundEven;
    NearestGap(n, d, q, r, k, m, q * d, k * d, m * d);
  }

  lemma MultipleGap(k: nat, q: nat, d: nat)
    ensures (q + 1) * d == q * d + d
    ensures k < q ==> k * d + d <= q * d
    ensures k == q + 1 ==> k * d == q * d + d
    ensures k > q + 1 ==> k * d >= q * d + 2 * d
  {
    if k < q {
      MulAtLeast(q - k, d);
      assert (q - k) * d == q * d - k * d;
    } else if k > q + 1 {
      MulAtLeast(k - q - 1, d);
      assert (k - q - 1) * d == k * d - (q + 1) * d;
    }
  }

  // The same over the multiples of d as they are: qd is the last one not above n, kd another.
  lemma NearestGap(n: nat, d: nat, q: nat, r: nat, k: nat, m: nat, qd: nat, kd: nat, md: nat)
    requires n == qd + r && r < d
    requires (k < q ==> kd + d <= qd) && (k == q ==> kd == qd) && (k == q + 1 ==> kd == qd + d) && (k > q + 1 ==> kd >= qd + 2 * d)
    requires (m == q ==> md == qd) && (m == q + 1 ==> md == qd + d)
    requires m == if 2 * r < d then q else if 2 * r > d then q + 1 else q + q % 2
    ensures Distance(n, kd) >= Distance(n, md) && (Distance(n, kd) == Distance(n, md) && k != m ==> m % 2 == 0)
  {
  }

  lemma Floor(n: nat, d: nat, k: nat)
    requires d > 0
    ensures n / d * d <= n && (k * d <= n ==> k * d <= n / d * d)
  {
    Division(n, d);
    FloorOf(n, d, n / d, n % d, k);
  }

  lemma FloorOf(n: nat, d: nat, q: nat, r: nat, k: nat)
    requires n == q * d + r && r < d
    ensures k * d <= n ==> k * d <= q * d
  {
    if k > q {
      MulAtLeast(k - q, d);
      assert (k - q) * d == k * d - q * d;
    } else {
      assert (q - k) * d == q * d - k * d;
    }
  }

  // ----------------------------------------- the normal range of doubles

  predicate NormalRange(f: F80) { BIAS80 + 1 - BIAS64 <= f.exp <= BIAS80 + BIAS64 }

  lemma PackedValue(f: F80, m: nat, mode: Mode)
    requires F80Ok(f) && NormalRange(f) && P52 <= m <= P53 && m == ShiftRightRound(f.signif, 11, f.sign, mode)
    ensures var r := Packed(f, f.exp - BIAS80 + BIAS64, mode);
            Ordered(r) && r.sign == f.sign && DoubleValue(r) == m * Spacing(f) && r.signif % 2 == m % 2
  {
    hide ShiftRightRound, Pow2, Packed, DoubleValue, Spacing;
    NormalSpacing(f);
    PackedIs(f, f.exp - BIAS80 + BIAS64, m, mode);
    if m == P53 {
      ValueIs(Double(0, f.exp - BIAS80 + BIAS64 + 1, f.sign), f.exp + 11, P52);
    } else {
      ValueIs(Double(m - P52, f.exp - BIAS80 + BIAS64, f.sign), f.exp + 10, m);
    }
  }

  lemma NormalSpacing(f: F80)
    requires NormalRange(f)
    ensures Spacing(f) == Pow2(f.exp + 10) && P52 * Pow2(f.exp + 11) == P53 * Spacing(f)
  {
    assert Pow2(f.exp + 11) == 2 * Pow2(f.exp + 10);
    hide Pow2;
  }

  lemma ValueIs(d: Double, scale: nat, m: nat)
    requires d.exp > 0 && scale == d.exp + OFFSET && m == d.signif + P52
    ensures DoubleValue(d) == m * Pow2(scale)
  {
    hide Pow2;
  }

  lemma PackedIs(f: F80, exp: nat, m: nat, mode: Mode)
    requires P52 <= m <= P53 && exp <= EXP64_SPECIAL && m == ShiftRightRound(f.signif, 11, f.sign, mode)
    ensures Packed(f, exp, mode) == if m == P53 then Double(0, (exp + 1) % 0x800, f.sign) else Double(m - P52, exp, f.sign)
  {
    hide ShiftRightRound;
  }

  lemma SpacingOf(f: F80)
    requires NormalRange(f)
    ensures Spacing(f) == 2048 * Pow2(f.exp - 1) && Spacing(f) > 0
  {
    Pow2Add(11, f.exp - 1);
    Powers();
    hide Pow2;
  }

  lemma ToDoubleNormal(f: F80, mode: Mode)
    requires F80Ok(f) && Supported(f) && NormalRange(f)
    ensures ToDouble(f, mode) == Packed(f, f.exp - BIAS80 + BIAS64, mode)
  {
    hide ShiftRightRound, Pow2, Packed, ShiftRight;
  }

  /** In nearest mode the result is the value rounded to the spacing of doubles there. */
  lemma ToDoubleRounds(f: F80)
    requires F80Ok(f) && Supported(f) && NormalRange(f)
    ensures var r := ToDouble(f, Nearest);
            && Ordered(r) && r.sign == f.sign && Spacing(f) > 0
            && DoubleValue(r) == RoundEven(Value(f), Spacing(f)) * Spacing(f) && r.signif % 2 == RoundEven(Value(f), Spacing(f)) % 2
  {
    var m := RoundEven(f.signif, 2048);
    NearestIsEven(f.signif, 11, f.sign);
    Powers();
    hide Pow2;
    assert P52 <= m <= P53;
    hide ShiftRightRound;
    PackedValue(f, m, Nearest);
    ToDoubleNormal(f, Nearest);
    SpacingOf(f);
    RoundEvenScaled(f.signif, 2048, Pow2(f.exp - 1));
    hide RoundEven, DoubleValue, ToDouble, Packed;
  }

  // A double is a multiple of the spacing, or lies below the binade.
  lemma DoubleGrid(f: F80, d: Double) returns (k: nat)
    requires F80Ok(f) && Supported(f) && NormalRange(f) && Ordered(d)
    ensures DoubleValue(d) == k * Spacing(f) || DoubleValue(d) < P52 * Spacing(f)
  {
    var s := f.exp + 10;
    if Scale(d) >= s {
      Pow2Add(Scale(d) - s, s);
      k := Mantissa(d) * Pow2(Scale(d) - s);
      hide Pow2;
      assert Mantissa(d) * (Pow2(Scale(d) - s) * Pow2(s)) == Mantissa(d) * Pow2(Scale(d) - s) * Pow2(s);
    } else {
      k := 0;
      Pow2Mono(Scale(d), s - 1);
      assert Pow2(s) == 2 * Pow2(s - 1);
      hide Pow2;
      Below(Mantissa(d), Pow2(Scale(d)), Pow2(s - 1));
    }
  }

  lemma Below(m: nat, p: nat, q: nat)
    requires m < P53 && 0 < p <= q
    ensures m * p < P52 * (2 * q)
  {
    assert m * p <= m * q by { assert m * (q - p) >= 0; assert m * (q - p) == m * q - m * p; }
    assert (P53 - m) * q == P53 * q - m * q;
    MulAtLeast(P53 - m, q);
  }

  lemma AboveBinade(f: F80)
    requires F80Ok(f) && Supported(f) && NormalRange(f)
    ensures Value(f) >= P52 * Spacing(f)
  {
    SpacingOf(f);
    hide Pow2;
    var u := Pow2(f.exp - 1);
    assert (f.signif - W63) * u == f.signif * u - W63 * u;
    assert (f.signif - W63) * u >= 0;
    assert P52 * (2048 * u) == W63 * u;
  }

  /** roundTiesToEven (section 4.3.1 of IEEE 754-2008): no double is nearer to the number than the result, overflow to
      infinity and the carry into the next binade included, and when another is as near the result is the even one. */
  lemma ToDoubleIsNearest(f: F80, d: Double)
    requires F80Ok(f) && Supported(f) && NormalRange(f) && Ordered(d)
    ensures var r := ToDouble(f, Nearest);
            && Ordered(r) && r.sign == f.sign
            && Distance(Value(f), DoubleValue(d)) >= Distance(Value(f), DoubleValue(r))
            && (Distance(Value(f), DoubleValue(d)) == Distance(Value(f), DoubleValue(r)) && DoubleValue(d) != DoubleValue(r)
                ==> r.signif % 2 == 0)
  {
    ToDoubleRounds(f);
    AboveBinade(f);
    var k := DoubleGrid(f, d);
    hide Pow2, RoundEven, DoubleValue, Value, Spacing, ToDouble;
    if DoubleValue(d) == k * Spacing(f) {
      NearestMultiple(Value(f), Spacing(f), k);
    } else {
      NearestMultiple(Value(f), Spacing(f), P52);
    }
  }

  // --------------------------------------------- below the normal range

  // The number of places the conversion shifts a number too small for a normal double.
  predicate BelowRange(f: F80) { f.exp < BIAS80 + 1 - BIAS64 }
  function Places(f: F80): nat
    requires BelowRange(f)
  {
    BIAS80 - BIAS64 - f.exp
  }

  // The significand between the two roundings.
  function Between(f: F80, mode: Mode): nat
    requires BelowRange(f)
  {
    if Places(f) > 63 then 0 else ShiftRightRound(f.signif / 2, Places(f), f.sign, mode)
  }

  lemma BelowIs(f: F80, mode: Mode)
    requires F80Ok(f) && Supported(f) && BelowRange(f) && Between(f, mode) < W64 && ShiftRightRound(Between(f, mode), 11, f.sign, mode) <= P52
    ensures ToDouble(f, mode) == Double(ShiftRightRound(Between(f, mode), 11, f.sign, mode) % P52, 0, f.sign)
  {
    hide ShiftRightRound, Pow2;
  }

  lemma TooSmall(i: nat, k: nat)
    requires i < W63 && k >= 64
    ensures i / Pow2(k) == 0 && RoundEven(i, Pow2(k)) == 0
  {
    Pow2Mono(64, k);
    Powers();
    hide Pow2;
    DivUnique(i, Pow2(k), 0, i);
  }

  lemma BetweenIs(f: F80)
    requires F80Ok(f) && BelowRange(f)
    ensures Between(f, Nearest) == RoundEven(f.signif / 2, Pow2(Places(f))) && Between(f, Chop) == f.signif / 2 / Pow2(Places(f))
    ensures Between(f, Nearest) <= W63 && Between(f, Chop) < W63
  {
    hide Pow2, ShiftRightRound, RoundEven;
    var i, k := f.signif / 2, Places(f);
    if k > 63 {
      TooSmall(i, k);
    } else {
      NearestIsEven(i, k, f.sign);
      ChopIsFloor(i, k, f.sign);
      RoundBound(i, Pow2(k));
      QuotientBound(i, Pow2(k));
    }
  }

  lemma QuotientBound(i: nat, d: nat)
    requires d > 0
    ensures i / d <= i
  {
    Division(i, d);
    var q := i / d;
    if q > 0 {
      MulAtLeast(d, q);
      assert d * q == q * d;
    }
  }

  // Value and spacing, for a number that is not a denormal itself.
  lemma BelowSpacing(f: F80)
    requires BelowRange(f) && f.exp > 0
    ensures Spacing(f) == Pow2(Places(f) + 12) * Pow2(f.exp - 1) && Pow2(Places(f) + 12) == Pow2(Places(f) + 1) * 2048
    ensures Pow2(Places(f) + 1) == 2 * Pow2(Places(f))
  {
    Pow2Add(Places(f) + 12, f.exp - 1);
    Pow2Add(Places(f) + 1, 11);
    Powers();
    hide Pow2;
  }

  // Denormal 80-bit numbers are nothing beside the smallest double.
  lemma DenormalVanishes(f: F80)
    requires F80Ok(f) && Supported(f) && f.exp == 0
    ensures Value(f) / Spacing(f) == 0 && RoundEven(Value(f), Spacing(f)) == 0
    ensures Between(f, Nearest) == 0 && Between(f, Chop) == 0
  {
    TooSmall(f.signif, OFFSET + 1);
    assert Pow2(0) == 1;
    hide Pow2;
  }

  // Halving, shifting and dividing one after the other is one division.
  lemma FloorOfFloor(n: nat, a: nat, b: nat)
    requires a > 0 && b > 0
    ensures a * b > 0 && n / a / b == n / (a * b)
  {
    Division(n, a);
    Division(n / a, b);
    MulAtLeast(a, b);
    var q, r, e := n / a / b, n / a % b, n % a;
    assert (q * b + r) * a == q * (a * b) + r * a;
    assert r * a + e < a * b by {
      MulAtLeast(b - r, a);
      assert (b - r) * a == a * b - r * a;
    }
    DivUnique(n, a * b, q, r * a + e);
  }

  lemma SubnormalValue(m: nat, sign: nat)
    requires m < P52
    ensures DoubleValue(Double(m, 0, sign)) == m * Pow2(OFFSET + 1)
  {
    hide Pow2;
  }

  lemma BelowSpacingIs(f: F80)
    requires BelowRange(f)
    ensures Spacing(f) == Pow2(OFFSET + 1) && Spacing(f) > 0
  {
    hide Pow2;
  }

  // ------------------------------------------------------------- chopping

  lemma ChopBelow(f: F80)
    requires F80Ok(f) && Supported(f) && BelowRange(f)
    ensures Spacing(f) > 0 && DoubleValue(ToDouble(f, Chop)) == Value(f) / Spacing(f) * Spacing(f) && Ordered(ToDouble(f, Chop))
  {
    hide ShiftRightRound, Pow2, Value, Spacing, ToDouble, DoubleValue, Between, RoundEven;
    BelowSpacingIs(f);
    BetweenIs(f);
    var c := Between(f, Chop);
    ChopIsFloor(c, 11, f.sign);
    TimesTwo11(1);
    BelowIs(f, Chop);
    SubnormalValue(c / 2048, f.sign);
    if f.exp == 0 {
      DenormalVanishes(f);
    } else {
      ChopBelowQuotient(f);
    }
  }

  lemma ChopBelowQuotient(f: F80)
    requires F80Ok(f) && BelowRange(f) && f.exp > 0
    ensures Spacing(f) > 0 && f.signif / 2 / Pow2(Places(f)) / 2048 == Value(f) / Spacing(f)
  {
    BelowSpacing(f);
    hide Pow2;
    FloorOfFloor(f.signif, 2, Pow2(Places(f)));
    FloorOfFloor(f.signif, 2 * Pow2(Places(f)), 2048);
    Scaled(f.signif, Pow2(Places(f) + 12), Pow2(f.exp - 1));
  }

  lemma ChopNormal(f: F80)
    requires F80Ok(f) && Supported(f) && NormalRange(f)
    ensures Spacing(f) > 0 && DoubleValue(ToDouble(f, Chop)) == Value(f) / Spacing(f) * Spacing(f) && Ordered(ToDouble(f, Chop))
  {
    hide ShiftRightRound, Pow2, Spacing, ToDouble, DoubleValue, Packed;
    ChopIsFloor(f.signif, 11, f.sign);
    TimesTwo11(1);
    PackedValue(f, f.signif / 2048, Chop);
    ToDoubleNormal(f, Chop);
    SpacingOf(f);
    Scaled(f.signif, 2048, Pow2(f.exp - 1));
  }

  /** Chop mode truncates, subnormal results included: the result is the largest double not above the number. */
  lemma ToDoubleChops(f: F80, d: Double)
    requires F80Ok(f) && Supported(f) && f.exp <= BIAS80 + BIAS64 && Ordered(d)
    ensures var r := ToDouble(f, Chop);
            Ordered(r) && DoubleValue(r) <= Value(f) && (DoubleValue(d) <= Value(f) ==> DoubleValue(d) <= DoubleValue(r))
  {
    hide Pow2, DoubleValue, Value, Spacing, ToDouble;
    if BelowRange(f) {
      ChopBelow(f);
      var k := SmallestGrid(f, d);
      Floor(Value(f), Spacing(f), k);
    } else {
      ChopNormal(f);
      AboveBinade(f);
      var k := DoubleGrid(f, d);
      Floor(Value(f), Spacing(f), k);
      Floor(Value(f), Spacing(f), P52);
    }
  }

  // Every double is a multiple of the smallest one.
  lemma SmallestGrid(f: F80, d: Double) returns (k: nat)
    requires BelowRange(f) && Ordered(d)
    ensures DoubleValue(d) == k * Spacing(f)
  {
    BelowSpacingIs(f);
    Pow2Add(Scale(d) - OFFSET - 1, OFFSET + 1);
    k := Mantissa(d) * Pow2(Scale(d) - OFFSET - 1);
    hide Pow2;
    assert Mantissa(d) * (Pow2(Scale(d) - OFFSET - 1) * Pow2(OFFSET + 1)) == Mantissa(d) * Pow2(Scale(d) - OFFSET - 1) * Pow2(OFFSET + 1);
  }

  // --------------------------------------------------- rounding twice

  lemma RoundEvenIs(n: nat, d: nat, m: nat)
    requires d > 0
    ensures 2 * (m * d) - d < 2 * n < 2 * (m * d) + d ==> RoundEven(n, d) == m
    ensures 2 * n == 2 * (m * d) + d ==> RoundEven(n, d) == m + m % 2
  {
    NearestOf(n, d, n / d, n % d, m);
    Division(n, d);
  }

  lemma NearestOf(n: nat, d: nat, q: nat, r: nat, m: nat)
    requires n == q * d + r && r < d
    ensures 2 * (m * d) - d < 2 * n < 2 * (m * d) + d ==> (2 * r < d && q == m) || (2 * r > d && q + 1 == m)
    ensures 2 * n == 2 * (m * d) + d ==> q == m && 2 * r == d
  {
    Multiples(q, m, d);
  }

  // Different multiples lie at least one apart.
  lemma Multiples(q: nat, m: nat, d: nat)
    ensures q > m ==> q * d >= m * d + d
    ensures q + 1 < m ==> m * d >= q * d + 2 * d
    ensures q + 1 == m ==> m * d == q * d + d
  {
    if q > m {
      MulAtLeast(q - m, d);
      assert (q - m) * d == q * d - m * d;
    } else if q + 1 < m {
      MulAtLeast(m - q - 1, d);
      assert (m - q - 1) * d == m * d - q * d - d;
    }
  }

  // c is s / 2 rounded to a multiple of p: s lies within one multiple of 2 * p of it.
  lemma FirstRounding(s: nat, p: nat)
    requires p > 0
    ensures var c := RoundEven(s / 2, p); (c - 1) * (2 * p) < s < (c + 1) * (2 * p)
  {
    var i := s / 2;
    Division(i, p);
    var q, r := i / p, i % p;
    assert i == q * p + r;
    hide RoundEven;
    RoundCases(i, p);
    var c := RoundEven(i, p);
    assert (c - 1) * (2 * p) == 2 * (c * p) - 2 * p && (c + 1) * (2 * p) == 2 * (c * p) + 2 * p;
    assert (q + 1) * p == q * p + p;
  }

  lemma RoundCases(i: nat, p: nat)
    requires p > 0
    ensures var c := RoundEven(i, p); (c == i / p && 2 * (i % p) <= p) || (c == i / p + 1 && 2 * (i % p) >= p)
  {
  }

  /** Rounding to a multiple of a and then to 2048 of them is not rounding once exactly where the first rounding was not exact,
      made a tie, and the tie went the wrong way. */
  predicate FalseTie(s: nat, c: nat, a: nat) {
    c % 2048 == 1024 && ((c / 2048 % 2 == 0 && s > c * a) || (c / 2048 % 2 == 1 && s < c * a))
  }

  lemma TwoRoundings(s: nat, c: nat, a: nat)
    requires a > 0 && (c - 1) * a < s < (c + 1) * a
    ensures a * 2048 > 0
    ensures var t := RoundEven(s, a * 2048);
            if c % 2048 < 1024 then t == c / 2048
            else if c % 2048 > 1024 then t == c / 2048 + 1
            else if s > c * a then t == c / 2048 + 1
            else if s < c * a then t == c / 2048
            else t == c / 2048 + c / 2048 % 2
  {
    var q, e := c / 2048, c % 2048;
    var ca, b := c * a, a * 2048;
    CutAt(q, e, c, a);
    assert (c - 1) * a == ca - a && (c + 1) * a == ca + a;
    assert (q + 1) * b == q * b + b;
    hide RoundEven;
    if e < 1024 {
      RoundEvenIs(s, b, q);
    } else if e > 1024 {
      RoundEvenIs(s, b, q + 1);
    } else {
      RoundEvenIs(s, b, q);
      RoundEvenIs(s, b, q + 1);
    }
  }

  // Where c multiples of a lie between multiples of 2048 * a.
  lemma CutAt(q: nat, e: nat, c: nat, a: nat)
    requires c == 2048 * q + e && e < 2048
    ensures var (ca, qb) := (c * a, q * (a * 2048));
            && qb <= ca <= qb + 2047 * a
            && (e < 1024 ==> ca <= qb + 1023 * a) && (e > 1024 ==> ca >= qb + 1025 * a) && (e == 1024 ==> ca == qb + 1024 * a)
  {
    var ea := e * a;
    assert c * a == q * (a * 2048) + ea by { assert (2048 * q + e) * a == 2048 * q * a + e * a; assert 2048 * q * a == q * (a * 2048); }
    Multiple(e, 2047, a);
    if e < 1024 { Multiple(e, 1023, a); } else if e > 1024 { Multiple(1025, e, a); }
  }

  lemma Multiple(x: nat, y: nat, a: nat)
    requires x <= y
    ensures x * a <= y * a
  {
    assert (y - x) * a == y * a - x * a;
  }

  lemma RoundOnceMore(c: nat)
    ensures RoundEven(c, 2048) == if c % 2048 < 1024 then c / 2048 else if c % 2048 > 1024 then c / 2048 + 1 else c / 2048 + c / 2048 % 2
  {
  }

  /** Below the normal range nearest mode rounds twice, after dropping the lowest bit. It is right exactly if no false tie
      arises and the result stays below the smallest normal double, which would need the exponent raised. */
  lemma ToDoubleBelowIff(f: F80)
    requires F80Ok(f) && Supported(f) && BelowRange(f)
    ensures Spacing(f) > 0
    ensures var c := Between(f, Nearest);
            DoubleValue(ToDouble(f, Nearest)) == RoundEven(Value(f), Spacing(f)) * Spacing(f)
            <==> RoundEven(c, 2048) < P52 && !FalseTie(f.signif, c, Pow2(Places(f) + 1))
  {
    hide ShiftRightRound, Pow2, Value, Spacing, ToDouble, DoubleValue, Between, FalseTie;
    BelowSpacingIs(f);
    BetweenIs(f);
    var c := Between(f, Nearest);
    NearestIsEven(c, 11, f.sign);
    TimesTwo11(1);
    RoundOnceMore(c);
    BelowIs(f, Nearest);
    var r := RoundEven(c, 2048);
    SubnormalValue(r % P52, f.sign);
    if f.exp == 0 {
      DenormalVanishes(f);
      NoFalseTie(f.signif, Pow2(Places(f) + 1));
    } else {
      var t := BelowRounded(f, c);
      hide RoundEven;
      SameMultiple(r, t, Spacing(f));
    }
  }

  // The two roundings as multiples of the spacing, when the result field is 52 bits wide.
  lemma SameMultiple(r: nat, t: nat, s: nat)
    requires s > 0 && r <= P52 && (r == P52 ==> t > 0)
    ensures r % P52 * s == t * s <==> r < P52 && t == r
  {
    ScaleCompare(r % P52, t, s);
  }

  lemma NoFalseTie(s: nat, a: nat)
    ensures !FalseTie(s, 0, a)
  {
  }

  // The value the single rounding gives, against the two roundings.
  lemma BelowRounded(f: F80, c: nat) returns (t: nat)
    requires F80Ok(f) && Supported(f) && BelowRange(f) && f.exp > 0 && c == RoundEven(f.signif / 2, Pow2(Places(f))) && c <= W63
    ensures Spacing(f) > 0 && t == RoundEven(Value(f), Spacing(f))
    ensures var r := RoundEven(c, 2048);
            && (t == r <==> !FalseTie(f.signif, c, Pow2(Places(f) + 1)))
            && (r == P52 ==> t > 0)
  {
    BelowSpacing(f);
    hide Pow2;
    var p := Pow2(Places(f));
    FirstRounding(f.signif, p);
    TwoRoundings(f.signif, c, 2 * p);
    RoundOnceMore(c);
    RoundEvenScaled(f.signif, Pow2(Places(f) + 12), Pow2(f.exp - 1));
    t := RoundEven(f.signif, Pow2(Places(f) + 12));
    hide RoundEven;
  }

  lemma NoShift(i: nat, sign: nat, mode: Mode)
    ensures ShiftRightRound(i, 0, sign, mode) == i
  {
  }

  /** The number just below the smallest normal double converts to zero. */
  lemma LargestBelowVanishes()
    ensures var f := F80(W64 - 1, BIAS80 - BIAS64, 0);
            Supported(f) && BelowRange(f) && ToDouble(f, Nearest) == Double(0, 0, 0) && RoundEven(Between(f, Nearest), 2048) == P52
  {
    hide Pow2, ShiftRightRound, ToDouble, RoundEven;
    var f := F80(W64 - 1, BIAS80 - BIAS64, 0);
    assert Between(f, Nearest) == W63 - 1 by { NoShift(W63 - 1, 0, Nearest); }
    NearestIsEven(W63 - 1, 11, 0);
    TimesTwo11(1);
    RoundOnceMore(W63 - 1);
    hide Between;
    BelowIs(f, Nearest);
  }

  /** Finite numbers of 2^1024 and more become the infinity of their sign, in every mode; so do infinities wherever exact values are
      left alone. */
  lemma ToDoubleOverflows(f: F80, mode: Mode)
    requires F80Ok(f) && Supported(f)
    ensures BIAS80 + BIAS64 < f.exp < EXP_SPECIAL ==> ToDouble(f, mode) == Double(0, 0x7ff, f.sign)
    ensures f.exp == EXP_SPECIAL && f.signif == W63 ==> (ToDouble(f, mode) == Double(0, 0x7ff, f.sign) <==> Leaves(mode, f.sign))
  {
    if f.exp == EXP_SPECIAL && f.signif == W63 {
      Shift11(W63, f.sign, mode);
      hide ShiftRightRound, Leaves;
      PackedIs(f, EXP64_SPECIAL, ShiftRightRound(W63, 11, f.sign, mode), mode);
    }
  }

  // ------------------------------------------------------------ not a number

  // f80_isnan, and the same of a double.
  predicate IsNan(f: F80) { f.exp == EXP_SPECIAL && f.signif % W63 != 0 }
  predicate IsNan64(d: Double) { d.exp == EXP64_SPECIAL && d.signif != 0 }

  // What rounding a significand of 64 bits to 53 bits gives, but for the smallest and the largest result.
  predicate RoundsInside(s: nat, sign: nat, mode: Mode) {
    if mode == Nearest then W63 + 1024 < s < W64 - 1024
    else if Leaves(mode, sign) then s >= W63 + 2048
    else s < W64 - 2048
  }

  lemma RoundsInsideIff(s: nat, sign: nat, mode: Mode)
    requires W63 <= s < W64 && sign < 2
    ensures var r := ShiftRightRound(s, 11, sign, mode);
            P52 <= r <= P53 && (RoundsInside(s, sign, mode) <==> P52 < r < P53)
  {
    Shift11(s, sign, mode);
    hide ShiftRightRound, Pow2;
    Digits(s);
    var q, g, t := s / 2048, s / 1024 % 2, s % 1024;
    InsideOf(s, q, g, t, q % 2);
  }

  lemma Digits(s: nat)
    ensures s == 2048 * (s / 2048) + 1024 * (s / 1024 % 2) + s % 1024 && s / 1024 % 2 <= 1
  {
    HalfSplit(s, 1024);
  }

  // Where the rounded quotient is neither the least nor the greatest.
  lemma InsideOf(s: nat, q: nat, g: nat, t: nat, odd: nat)
    requires W63 <= s < W64 && s == 2048 * q + 1024 * g + t && g <= 1 && t < 1024 && odd == q % 2
    ensures var r := q + if g == 1 && (t != 0 || odd == 1) then 1 else 0;
            P52 <= r <= P53 && (W63 + 1024 < s < W64 - 1024 <==> P52 < r < P53)
    ensures P52 <= q < P53 && (s >= W63 + 2048 <==> P52 < q) && (s < W64 - 2048 <==> q + 1 < P53)
  {
  }

  // The shift by 11 places in numbers.
  lemma Shift11(s: nat, sign: nat, mode: Mode)
    requires sign < 2
    ensures ShiftRightRound(s, 11, sign, mode) ==
              if mode == Nearest then s / 2048 + (if s / 1024 % 2 == 1 && (s % 1024 != 0 || s / 2048 % 2 == 1) then 1 else 0)
              else if Leaves(mode, sign) then s / 2048 else s / 2048 + 1
  {
    assert Pow2(4) == 16 && Pow2(8) == 16 * Pow2(4) && Pow2(10) == 1024 && Pow2(11) == 2048;
    hide Pow2;
  }

  /** A NaN stays one exactly if its significand does not round to the smallest or the next larger power of two: those become
      an infinity and a zero. Unsupported ones always stay. */
  lemma NanStaysIff(f: F80, mode: Mode)
    requires F80Ok(f) && IsNan(f)
    ensures IsNan64(ToDouble(f, mode)) <==> !Supported(f) || RoundsInside(f.signif, f.sign, mode)
  {
    if Supported(f) {
      RoundsInsideIff(f.signif, f.sign, mode);
      hide ShiftRightRound, RoundsInside, Leaves;
      var r := ShiftRightRound(f.signif, 11, f.sign, mode);
      PackedIs(f, EXP64_SPECIAL, r, mode);
    }
  }

  /** The inputs: one NaN becomes zero, another infinity. */
  lemma NanLost()
    ensures IsNan(F80(W64 - 1, EXP_SPECIAL, 0)) && ToDouble(F80(W64 - 1, EXP_SPECIAL, 0), Nearest) == Double(0, 0, 0)
    ensures IsNan(F80(W63 + 1, EXP_SPECIAL, 0)) && ToDouble(F80(W63 + 1, EXP_SPECIAL, 0), Nearest) == Double(0, EXP64_SPECIAL, 0)
  {
    hide ShiftRightRound, Packed;
    Shift11(W64 - 1, 0, Nearest);
    Shift11(W63 + 1, 0, Nearest);
    PackedIs(F80(W64 - 1, EXP_SPECIAL, 0), EXP64_SPECIAL, P53, Nearest);
    PackedIs(F80(W63 + 1, EXP_SPECIAL, 0), EXP64_SPECIAL, P52, Nearest);
  }
}
