/** The real value of a decimal, and subtraction in the 28-digit context with its rounding error. */
module DecimalValue {
  import opened DecimalText

  function Unit(e: int): real {
    if e >= 0 then Pow10(e) as real else 1.0 / Pow10(-e) as real
  }

  function Value(d: Dec): real {
    d.coeff as real * Unit(d.exp)
  }

  function Difference(a: Dec, b: Dec): Dec {
    var e := if a.exp <= b.exp then a.exp else b.exp;
    Dec(Scaled(a, e) - Scaled(b, e), e)
  }

  lemma UnitStep(e: int)
    ensures Unit(e + 1) == 10.0 * Unit(e)
  {
    if e < 0 {
      var p := Pow10(-e - 1);
      assert Pow10(-e) == 10 * p;
      TenthOf(p);
    }
  }

  lemma TenthOf(p: nat)
    requires p >= 1
    ensures 1.0 / p as real == 10.0 * (1.0 / (10 * p) as real)
  {
    var x, y := 1.0 / p as real, 1.0 / (10 * p) as real;
    assert x * p as real == 1.0 && y * (10.0 * p as real) == 1.0;
    assert (x - 10.0 * y) * p as real == 0.0;
  }

  lemma {:induction false} UnitUp(e: int, k: nat)
    ensures Unit(e + k) == Pow10(k) as real * Unit(e)
  {
    hide Unit;
    if k > 0 {
      UnitUp(e, k - 1);
      UnitStep(e + (k - 1));
      assert e + (k - 1) + 1 == e + k;
      TenTimes(Pow10(k - 1), Unit(e));
    }
  }

  lemma TenTimes(p: nat, u: real)
    ensures 10.0 * (p as real * u) == (10 * p) as real * u
  {
    assert (10 * p) as real == 10.0 * p as real;
    Regroup(10.0, p as real, u);
  }

  lemma {:induction false} UnitPositive(e: int)
    ensures Unit(e) > 0.0
  {
  }

  lemma ScaledValue(d: Dec, e: int)
    requires e <= d.exp
    ensures Scaled(d, e) as real * Unit(e) == Value(d)
  {
    hide Unit, Pow10;
    UnitUp(e, d.exp - e);
    assert e + (d.exp - e) == d.exp;
    CastProduct(d.coeff, Pow10(d.exp - e));
    Regroup(d.coeff as real, Pow10(d.exp - e) as real, Unit(e));
  }

  lemma CastProduct(x: int, y: int)
    ensures (x * y) as real == x as real * y as real
  {
  }

  lemma Regroup(a: real, b: real, c: real)
    ensures (a * b) * c == a * (b * c)
  {
  }

  /** Decimal subtraction is exact. */
  lemma DifferenceExact(a: Dec, b: Dec)
    ensures Value(Difference(a, b)) == Value(a) - Value(b)
  {
    hide Unit, Value, Scaled;
    var e := if a.exp <= b.exp then a.exp else b.exp;
    ScaledValue(a, e);
    ScaledValue(b, e);
    Distribute(Scaled(a, e), Scaled(b, e), Unit(e));
    ValueIs(Difference(a, b));
  }

  lemma ValueIs(d: Dec)
    ensures Value(d) == d.coeff as real * Unit(d.exp)
  {
  }

  lemma Distribute(x: int, y: int, u: real)
    ensures (x - y) as real * u == x as real * u - y as real * u
  {
  }

  /** Decimals of the same value have the same real value. */
  lemma SameValueReal(a: Dec, b: Dec)
    requires SameValue(a, b)
    ensures Value(a) == Value(b)
  {
    hide Unit, Value, Scaled;
    var e := if a.exp <= b.exp then a.exp else b.exp;
    ScaledEqual(a, b, e);
    ScaledValue(a, e);
    ScaledValue(b, e);
  }

  lemma PositiveIff(d: Dec)
    ensures d.coeff > 0 <==> Value(d) > 0.0
  {
    UnitPositive(d.exp);
    if d.coeff > 0 {
      assert d.coeff as real > 0.0;
    } else {
      assert d.coeff as real <= 0.0;
      NonPositive(d.coeff as real, Unit(d.exp));
    }
  }

  lemma NonPositive(x: real, u: real)
    requires x <= 0.0 && u > 0.0
    ensures x * u <= 0.0
  {
  }

  // ---------- Subtraction in the 28-digit context ----------

  function Negated(d: Dec): Dec {
    Dec(-d.coeff, d.exp)
  }

  /** Rounds to 28 significant digits, half to even, whatever the sign. */
  function RoundSigned(d: Dec): Dec {
    if d.coeff > 0 then RoundToContext(d) else if d.coeff < 0 then Negated(RoundToContext(Negated(d))) else d
  }

  function Subtract(a: Dec, b: Dec): Dec {
    RoundSigned(Difference(a, b))
  }

  lemma ValueNegated(d: Dec)
    ensures Value(Negated(d)) == -Value(d)
  {
    hide Unit;
    Opposite(d.coeff as real, Unit(d.exp));
  }

  lemma Opposite(x: real, u: real)
    ensures (-x) * u == -(x * u)
  {
  }

  lemma {:induction false} UnitMonotone(a: int, b: int)
    requires a <= b
    ensures Unit(a) <= Unit(b)
  {
    hide Unit;
    UnitUp(a, b - a);
    UnitPositive(a);
    AtLeast(Pow10(b - a) as real, Unit(a));
    assert a + (b - a) == b;
  }

  lemma AtLeast(x: real, u: real)
    requires x >= 1.0 && u > 0.0
    ensures x * u >= u
  {
    assert (x - 1.0) * u >= 0.0;
  }

  lemma Ordered(x: real, y: real, u: real)
    requires u > 0.0
    ensures x <= y <==> x * u <= y * u
  {
    if x <= y {
      assert (y - x) * u >= 0.0;
    } else {
      assert (x - y) * u > 0.0;
    }
  }

  /** A value lies between the units of its leading digit and the next. */
  lemma LeadingDigit(d: Dec)
    requires d.coeff > 0
    ensures var n := DigitCount(d.coeff); Unit(d.exp + n - 1) <= Value(d) < Unit(d.exp + n)
  {
    hide Unit, Pow10, DigitCount;
    var n := DigitCount(d.coeff);
    DigitCountBounds(d.coeff);
    UnitPositive(d.exp);
    UnitUp(d.exp, n - 1);
    UnitUp(d.exp, n);
    assert d.exp + (n - 1) == d.exp + n - 1;
    Ordered(Pow10(n - 1) as real, d.coeff as real, Unit(d.exp));
    Ordered(Pow10(n) as real, d.coeff as real, Unit(d.exp));
  }

  lemma RoundByError(c: nat, k: nat)
    ensures -(Pow10(k) as int) <= 2 * (RoundBy(c, k) * Pow10(k) - c) <= Pow10(k)
  {
    hide Pow10;
    var p := Pow10(k);
    var q, r := c / p, c % p;
    assert c == q * p + r;
    assert (q + 1) * p == q * p + p;
  }

  /** How many digits rounding drops. */
  function Dropped(d: Dec): nat
    requires d.coeff > 0
  {
    if DigitCount(d.coeff) <= PRECISION then 0 else DigitCount(d.coeff) - PRECISION
  }

  lemma RoundedIs(d: Dec)
    requires d.coeff > 0
    ensures RoundToContext(d) == Dec(RoundBy(d.coeff, Dropped(d)), d.exp + Dropped(d))
  {
    hide DigitCount;
    if Dropped(d) == 0 {
      assert Pow10(0) == 1;
    }
  }

  /** Rounding is off by at most half a unit of the last digit kept. */
  lemma RoundingError(d: Dec)
    requires d.coeff > 0
    ensures var gap := Value(RoundToContext(d)) - Value(d); var u := Unit(d.exp + Dropped(d));
            -u <= 2.0 * gap <= u
    ensures Dropped(d) == 0 ==> RoundToContext(d) == d
  {
    hide Unit, Pow10, RoundBy, Dropped, RoundToContext, Value;
    var k := Dropped(d);
    NoneDropped(d);
    RoundedIs(d);
    RoundByError(d.coeff, k);
    UnitUp(d.exp, k);
    UnitPositive(d.exp);
    ValueIs(d);
    ValueIs(RoundToContext(d));
    ErrorScaled(RoundBy(d.coeff, k), d.coeff, Pow10(k), Unit(d.exp), Unit(d.exp + k), Value(RoundToContext(d)),
                Value(d));
  }

  lemma NoneDropped(d: Dec)
    requires d.coeff > 0
    ensures Dropped(d) == 0 ==> RoundToContext(d) == d
  {
  }

  lemma ErrorScaled(r: int, c: int, p: int, u: real, unit: real, x: real, y: real)
    requires -p <= 2 * (r * p - c) <= p && u > 0.0
    requires unit == p as real * u && x == r as real * unit && y == c as real * u
    ensures -unit <= 2.0 * (x - y) <= unit
  {
    CastProduct(r, p);
    Regroup(r as real, p as real, u);
    Distribute(r * p, c, u);
    var gap := (r * p - c) as real;
    assert x - y == gap * u;
    assert -(p as real) <= 2.0 * gap <= p as real;
    Ordered(2.0 * gap, p as real, u);
    Ordered(-(p as real), 2.0 * gap, u);
    Opposite(p as real, u);
    Regroup(2.0, gap, u);
  }

  /** Below 10^20 the last digit kept is worth at most 10^-8, so the error is at most half of that. */
  lemma SmallRoundingError(d: Dec)
    requires d.coeff > 0 && Value(d) < Unit(20)
    ensures -Unit(-8) <= 2.0 * (Value(RoundToContext(d)) - Value(d)) <= Unit(-8)
  {
    hide Unit, Value, RoundToContext, DigitCount;
    var n := DigitCount(d.coeff);
    RoundingError(d);
    LeadingDigit(d);
    UnitPositive(-8);
    if Dropped(d) > 0 {
      if d.exp + n - 1 >= 20 {
        UnitMonotone(20, d.exp + n - 1);
      }
      UnitMonotone(d.exp + Dropped(d), -8);
    }
  }

  lemma RoundAbove(c: nat, k: nat, m: nat)
    requires m % 2 == 0
    ensures RoundBy(c, k) > m <==> 2 * c > (2 * m + 1) * Pow10(k)
  {
    hide Pow10;
    var p := Pow10(k);
    var q, r := c / p, c % p;
    assert RoundBy(c, k) == if 2 * r > p || (2 * r == p && q % 2 == 1) then q + 1 else q;
    QuotientParts(c, p);
    ProductSteps(q, m, p);
    ProductSteps(m, q, p);
    OddProduct(m, p);
    hide RoundBy, Product;
    RoundsUp(c, p, q, r, m, Product(q, p), Product(m, p));
  }

  function Product(a: int, p: int): int {
    a * p
  }

  lemma QuotientParts(c: nat, p: nat)
    requires p >= 1
    ensures c == Product(c / p, p) + c % p && 0 <= c % p < p
  {
  }

  lemma OddProduct(m: nat, p: nat)
    ensures (2 * m + 1) * p == 2 * Product(m, p) + p
  {
  }

  lemma ProductSteps(a: nat, b: nat, p: nat)
    ensures a > b ==> Product(a, p) >= Product(b, p) + p
  {
    if a > b {
      MulAtLeastBy(a, b + 1, p);
      assert (b + 1) * p == b * p + p;
    }
  }

  lemma RoundsUp(c: nat, p: nat, q: nat, r: nat, m: nat, qp: int, mp: int)
    requires m % 2 == 0 && c == qp + r && r < p
    requires (q > m ==> qp >= mp + p) && (m > q ==> mp >= qp + p) && (q == m ==> qp == mp)
    ensures (if 2 * r > p || (2 * r == p && q % 2 == 1) then q + 1 else q) > m <==> 2 * c > 2 * mp + p
  {
  }

  lemma MulAtLeastBy(a: nat, b: nat, p: nat)
    requires a >= b
    ensures a * p >= b * p
  {
    assert (a - b) * p >= 0;
    assert a * p == b * p + (a - b) * p;
  }

  /** The value above which rounding stays above 10^-8: half a unit of the 28th digit more than that. */
  function Threshold(): real {
    Unit(-8) + Unit(-35) / 2.0
  }

  lemma SameScale(c: int, m: int, p: int, u: real)
    requires u > 0.0
    ensures c as real * u > m as real * (p as real * u) + (p as real * u) / 2.0 <==> 2 * c > (2 * m + 1) * p
  {
    CastProduct(m, p);
    Regroup(m as real, p as real, u);
    var base := (m * p) as real;
    AddScaled(base, p as real / 2.0, u);
    Halves(p as real, u);
    Ordered(c as real, base + p as real / 2.0, u);
    assert (2 * m + 1) * p == 2 * (m * p) + p;
    assert c as real <= base + p as real / 2.0 <==> 2 * c <= 2 * (m * p) + p;
  }

  lemma Halves(p: real, u: real)
    ensures (p / 2.0) * u == (p * u) / 2.0
  {
  }

  lemma AddScaled(a: real, b: real, u: real)
    ensures (a + b) * u == a * u + b * u
  {
  }

  lemma TenTo27()
    ensures Pow10(27) % 2 == 0 && Pow10(28) == 10 * Pow10(27)
  {
    assert Pow10(27) == 10 * Pow10(26);
  }

  /** A value with its 28th digit worth 10^-35 rounds above 10^-8 iff it is above the threshold. */
  lemma RoundsAboveAtScale(d: Dec)
    requires d.coeff > 0 && d.exp + Dropped(d) == -35
    ensures Value(RoundToContext(d)) > Unit(-8) <==> Value(d) > Threshold()
  {
    hide Unit, RoundBy, Dropped, RoundToContext, Value, Pow10, DigitCount;
    var k := Dropped(d);
    var r, u := RoundBy(d.coeff, k), Unit(d.exp);
    RoundedIs(d);
    ValueIs(d);
    ValueIs(RoundToContext(d));
    TenTo27();
    UnitUp(-35, 27);
    UnitUp(d.exp, k);
    UnitPositive(d.exp);
    UnitPositive(-35);
    RoundAbove(d.coeff, k, Pow10(27));
    SameScale(d.coeff, Pow10(27), Pow10(k), u);
    Ordered(r as real, Pow10(27) as real, Unit(-35));
  }

  /** Rounding to 28 digits takes a value above 10^-8 exactly when it is above the threshold. */
  lemma RoundsAboveIff(d: Dec)
    requires d.coeff > 0
    ensures Value(RoundToContext(d)) > Unit(-8) <==> Value(d) > Threshold()
  {
    hide Unit, RoundToContext, Value, Threshold;
    var u := d.exp + Dropped(d);
    if u == -35 {
      RoundsAboveAtScale(d);
    } else if Dropped(d) == 0 {
      ExactAboveIff(d);
    } else if u > -35 {
      LargeRoundsAbove(d);
    } else {
      SmallRoundsBelow(d);
    }
  }

  lemma ThresholdBetween()
    ensures Unit(-8) < Threshold() < Unit(-7)
  {
    hide Unit;
    UnitPositive(-35);
    UnitMonotone(-35, -8);
    UnitStep(-8);
  }

  lemma LargeRoundsAbove(d: Dec)
    requires d.coeff > 0 && Dropped(d) > 0 && d.exp + Dropped(d) > -35
    ensures Value(RoundToContext(d)) > Unit(-8) && Value(d) > Threshold()
  {
    hide Unit, RoundToContext, Value, Threshold, DigitCount, Pow10, RoundBy;
    var k := Dropped(d);
    var n := DigitCount(d.coeff);
    ThresholdBetween();
    LeadingDigit(d);
    UnitMonotone(-7, d.exp + n - 1);
    RoundedIs(d);
    ValueIs(RoundToContext(d));
    RoundedAtLeast(d);
    TenTo27();
    UnitUp(d.exp + k, 27);
    UnitPositive(d.exp + k);
    Ordered(Pow10(27) as real, RoundBy(d.coeff, k) as real, Unit(d.exp + k));
    UnitMonotone(-7, d.exp + k + 27);
  }

  lemma RoundedAtLeast(d: Dec)
    requires d.coeff > 0 && Dropped(d) > 0
    ensures Pow10(27) <= RoundBy(d.coeff, Dropped(d)) <= 10 * Pow10(27)
  {
    hide Pow10, DigitCount;
    var k := Dropped(d);
    var p := Pow10(k);
    TenTo27();
    DigitCountBounds(d.coeff);
    Pow10Add(27, k);
    Pow10Add(28, k);
    var q, r := d.coeff / p, d.coeff % p;
    assert d.coeff == q * p + r && (q + 1) * p == q * p + p;
    if q < Pow10(27) {
      MulAtLeastBy(Pow10(27), q + 1, p);
    }
    if q >= 10 * Pow10(27) {
      MulAtLeastBy(q, 10 * Pow10(27), p);
    }
  }

  lemma SmallRoundsBelow(d: Dec)
    requires d.coeff > 0 && Dropped(d) > 0 && d.exp + Dropped(d) < -35
    ensures Value(RoundToContext(d)) <= Unit(-8) && Value(d) <= Threshold()
  {
    hide Unit, RoundToContext, Value, Threshold, DigitCount, Pow10, RoundBy;
    var k := Dropped(d);
    var n := DigitCount(d.coeff);
    ThresholdBetween();
    LeadingDigit(d);
    UnitMonotone(d.exp + n, -8);
    RoundedIs(d);
    ValueIs(RoundToContext(d));
    RoundedAtLeast(d);
    TenTo27();
    UnitUp(d.exp + k, 28);
    UnitPositive(d.exp + k);
    Ordered(RoundBy(d.coeff, k) as real, Pow10(28) as real, Unit(d.exp + k));
    UnitMonotone(d.exp + k + 28, -8);
  }

  /** Values of at most 28 digits are never strictly between 10^-8 and the threshold. */
  lemma ExactAboveIff(d: Dec)
    requires d.coeff > 0 && Dropped(d) == 0
    ensures Value(RoundToContext(d)) > Unit(-8) <==> Value(d) > Threshold()
  {
    hide Unit, RoundToContext, Value, Threshold, DigitCount, Pow10;
    NoneDropped(d);
    ThresholdBetween();
    LeadingDigit(d);
    var n := DigitCount(d.coeff);
    if d.exp < -35 {
      UnitMonotone(d.exp + n, -8);
    } else {
      ScaledValue(d, -35);
      UnitUp(-35, 27);
      TenTo27();
      UnitPositive(-35);
      var c, u := Scaled(d, -35), Unit(-35);
      ThresholdIs();
      AboveByHalf(c, Pow10(27), u, Value(d), Unit(-8));
    }
  }

  lemma ThresholdIs()
    ensures Threshold() == Unit(-8) + Unit(-35) / 2.0
  {
  }

  lemma AboveByHalf(c: int, m: int, u: real, x: real, y: real)
    requires u > 0.0 && x == c as real * u && y == m as real * u
    ensures x > y <==> x > y + u / 2.0
  {
    if c > m {
      Ordered((m + 1) as real, c as real, u);
      AddScaled(m as real, 1.0, u);
    } else {
      Ordered(c as real, m as real, u);
    }
  }

  // ---------- Signed values ----------

  lemma SubtractError(a: Dec, b: Dec)
    requires -Unit(20) < Value(a) - Value(b) < Unit(20)
    ensures -Unit(-8) <= 2.0 * (Value(Subtract(a, b)) - (Value(a) - Value(b))) <= Unit(-8)
  {
    hide Unit, RoundToContext, Value;
    var d := Difference(a, b);
    DifferenceExact(a, b);
    UnitPositive(-8);
    if d.coeff > 0 {
      SmallRoundingError(d);
    } else if d.coeff < 0 {
      ValueNegated(d);
      ValueNegated(RoundToContext(Negated(d)));
      SmallRoundingError(Negated(d));
    }
  }

  /** A rounded difference is above 10^-8 iff the exact one is above the threshold, and below likewise. */
  lemma SubtractAboveIff(a: Dec, b: Dec)
    ensures Value(Subtract(a, b)) > Unit(-8) <==> Value(a) - Value(b) > Threshold()
    ensures Value(Subtract(a, b)) < -Unit(-8) <==> Value(a) - Value(b) < -Threshold()
  {
    hide Unit, RoundToContext, Value, Threshold;
    var d := Difference(a, b);
    DifferenceExact(a, b);
    ThresholdBetween();
    UnitPositive(-8);
    if d.coeff > 0 {
      PositiveIff(d);
      PositiveIff(RoundToContext(d));
      RoundsAboveIff(d);
    } else if d.coeff < 0 {
      var m := Negated(d);
      ValueNegated(d);
      ValueNegated(RoundToContext(m));
      PositiveIff(m);
      PositiveIff(RoundToContext(m));
      RoundsAboveIff(m);
    } else {
      ZeroCoefficient(d);
    }
  }

  lemma ZeroCoefficient(d: Dec)
    requires d.coeff == 0
    ensures Value(d) == 0.0
  {
  }

  /** A rounded difference needs at most 28 significant digits, so printing it loses nothing. */
  lemma SubtractPrints(a: Dec, b: Dec)
    requires Subtract(a, b).coeff > 0
    ensures Value(ParseDecimal(CanonicalDecimal(Subtract(a, b)))) == Value(Subtract(a, b))
  {
    hide Unit, Value, ParseDecimal, CanonicalDecimal, RoundToContext, StripZeros, DigitCount;
    var d := Difference(a, b);
    assert d.coeff > 0 && Subtract(a, b) == RoundToContext(d);
    NormalFitsContext(d);
    PrintingIsExactIff(RoundToContext(d));
    SameValueReal(ParseDecimal(CanonicalDecimal(RoundToContext(d))), RoundToContext(d));
  }
}
