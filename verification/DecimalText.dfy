/**
 The canonical text of a decimal quantity (external_baseline.py:84-87): normalise in the
 28-digit decimal context, print without exponent, trim. Digits are kept exactly; the
 context rounds half to even.
 */
module DecimalText {
  import opened Modular

  /** A finite decimal `coeff * 10^exp`. */
  datatype Dec = Dec(coeff: int, exp: int)

  const PRECISION: nat := 28

  function Pow10(k: nat): (p: nat)
    ensures p >= 1
  {
    if k == 0 then 1 else 10 * Pow10(k - 1)
  }

  /** Equality of value, whatever the exponents. */
  predicate SameValue(a: Dec, b: Dec) {
    if a.exp >= b.exp then a.coeff * Pow10(a.exp - b.exp) == b.coeff
    else a.coeff == b.coeff * Pow10(b.exp - a.exp)
  }

  function DigitCount(n: nat): (d: nat)
    ensures d >= 1
  {
    if n < 10 then 1 else 1 + DigitCount(n / 10)
  }

  // ---------- normalize() ----------

  /** Half-even rounding of a coefficient by `k` digits. */
  function RoundBy(c: nat, k: nat): int {
    var q, r := c / Pow10(k), c % Pow10(k);
    if 2 * r > Pow10(k) || (2 * r == Pow10(k) && q % 2 == 1) then q + 1 else q
  }

  function RoundToContext(d: Dec): (r: Dec)
    requires d.coeff > 0
    ensures r.coeff > 0
  {
    var n := DigitCount(d.coeff);
    if n <= PRECISION then d
    else
      LeadingDigits(d.coeff, n - PRECISION);
      Dec(RoundBy(d.coeff, n - PRECISION), d.exp + (n - PRECISION))
  }

  /** Moves trailing zeros of the coefficient into the exponent. */
  function StripZeros(d: Dec): (r: Dec)
    requires d.coeff > 0
    ensures r.coeff > 0 && r.coeff % 10 != 0
    decreases d.coeff
  {
    if d.coeff % 10 == 0 then StripZeros(Dec(d.coeff / 10, d.exp + 1)) else d
  }

  function Normalize(d: Dec): (r: Dec)
    requires d.coeff > 0
    ensures r.coeff > 0 && r.coeff % 10 != 0
  {
    StripZeros(RoundToContext(d))
  }

  // ---------- Printing ----------

  function DigitChar(d: nat): (c: char)
    requires d < 10
    ensures '0' <= c <= '9' && DigitValue(c) == d
  {
    '0' + d as char
  }

  function DigitValue(c: char): (d: nat)
    ensures d < 10
  {
    if '0' <= c <= '9' then (c - '0') as int else 0
  }

  function Digits(n: nat): (s: string)
    ensures |s| == DigitCount(n)
  {
    if n < 10 then [DigitChar(n)] else Digits(n / 10) + [DigitChar(n % 10)]
  }

  function ZeroDigits(n: nat): (s: string)
    ensures |s| == n && forall c <- s :: c == '0'
  {
    if n == 0 then "" else ZeroDigits(n - 1) + "0"
  }

  /** Fixed-point format: no exponent, at least one digit before the point. */
  function FixedPoint(d: Dec): string
    requires d.coeff >= 0
  {
    var digits := Digits(d.coeff);
    if d.exp >= 0 then digits + ZeroDigits(d.exp)
    else
      var places := -d.exp;
      var padded := if |digits| <= places then ZeroDigits(places + 1 - |digits|) + digits else digits;
      padded[..|padded| - places] + "." + padded[|padded| - places..]
  }

  function TrimChar(s: string, c: char): string {
    if s != "" && s[|s| - 1] == c then TrimChar(s[..|s| - 1], c) else s
  }

  /** _canonical_decimal */
  function CanonicalDecimal(d: Dec): string
    requires d.coeff > 0
  {
    var rendered := FixedPoint(Normalize(d));
    if '.' in rendered then TrimChar(TrimChar(rendered, '0'), '.') else rendered
  }

  // ---------- Parsing ----------

  function ParseNat(s: string): nat {
    if s == "" then 0 else 10 * ParseNat(s[..|s| - 1]) + DigitValue(s[|s| - 1])
  }

  function PointAt(s: string): (i: nat)
    requires '.' in s
    ensures i < |s| && s[i] == '.' && '.' !in s[..i]
  {
    if s[0] == '.' then 0 else 1 + PointAt(s[1..])
  }

  /** Decimal(text) on fixed-point text. */
  function ParseDecimal(s: string): (d: Dec)
    ensures d.coeff >= 0
  {
    if '.' in s then
      var i := PointAt(s);
      Dec(ParseNat(s[..i] + s[i + 1..]), -(|s| - i - 1))
    else Dec(ParseNat(s), 0)
  }

  // ---------- Powers and digit counts ----------

  lemma {:induction false} Pow10Add(a: nat, b: nat)
    ensures Pow10(a + b) == Pow10(a) * Pow10(b)
  {
    if a > 0 {
      Pow10Add(a - 1, b);
      assert Pow10(a + b) == 10 * Pow10((a - 1) + b);
      assert Pow10(a) * Pow10(b) == 10 * (Pow10(a - 1) * Pow10(b));
    }
  }

  lemma {:induction false} DigitCountBounds(n: nat)
    ensures n < Pow10(DigitCount(n))
    ensures n > 0 ==> Pow10(DigitCount(n) - 1) <= n
  {
    if n >= 10 {
      DigitCountBounds(n / 10);
      assert n == 10 * (n / 10) + n % 10;
    }
  }

  lemma DigitCountTimes10(n: nat)
    requires n > 0
    ensures DigitCount(10 * n) == DigitCount(n) + 1
  {
    assert (10 * n) / 10 == n;
  }

  lemma DigitCountDown(n: nat)
    ensures DigitCount(n / 10) <= DigitCount(n)
  {
  }

  /** Removing all but some leading digits leaves a positive number. */
  lemma {:induction false} LeadingDigits(c: nat, k: nat)
    requires c > 0 && k < DigitCount(c)
    ensures c / Pow10(k) >= 1 && RoundBy(c, k) >= 1
  {
    DigitCountBounds(c);
    Pow10Monotone(k, DigitCount(c) - 1);
    AtLeastOne(c, Pow10(k));
  }

  lemma AtLeastOne(c: nat, p: nat)
    requires 0 < p <= c
    ensures c / p >= 1
  {
    var q := c / p;
    assert c == q * p + c % p;
    assert q <= 0 ==> q * p <= 0;
  }

  lemma {:induction false} Pow10Monotone(a: nat, b: nat)
    requires a <= b
    ensures Pow10(a) <= Pow10(b)
    decreases b - a
  {
    if a < b {
      Pow10Monotone(a, b - 1);
    }
  }

  // ---------- Equal values print alike ----------

  /** Scaling dividend and divisor by ten scales the remainder and keeps the quotient. */
  lemma DivideTenfold(c: nat, p: nat)
    requires p > 0
    ensures (10 * c) / (10 * p) == c / p && (10 * c) % (10 * p) == 10 * (c % p)
  {
    var q, r := c / p, c % p;
    assert c == q * p + r;
    assert q * (10 * p) == 10 * (q * p);
    RemainderUnique(10 * c, 10 * p, q, 10 * r);
  }

  lemma StripTenfold(c: nat, e: int)
    requires c > 0
    ensures StripZeros(Dec(10 * c, e - 1)) == StripZeros(Dec(c, e))
  {
    assert (10 * c) % 10 == 0 && (10 * c) / 10 == c;
  }

  /** A factor of ten moved from the exponent into the coefficient does not change the normal form. */
  lemma NormalizeTenfold(c: nat, e: int)
    requires c > 0
    ensures Normalize(Dec(10 * c, e - 1)) == Normalize(Dec(c, e))
  {
    StripTenfold(c, e);
    DigitCountTimes10(c);
    hide RoundBy, StripZeros, DigitCount;
    if DigitCount(c) >= PRECISION {
      RoundByTenfold(c, DigitCount(c) - PRECISION);
    }
  }

  lemma RoundByTenfold(c: nat, k: nat)
    ensures RoundBy(10 * c, k + 1) == RoundBy(c, k) && RoundBy(c, 0) == c
  {
    DivideTenfold(c, Pow10(k));
    assert Pow10(k + 1) == 10 * Pow10(k);
  }

  lemma TenfoldProduct(c: nat, j: nat)
    requires j > 0
    ensures c * Pow10(j) == 10 * (c * Pow10(j - 1))
  {
    var p := Pow10(j - 1);
    assert Pow10(j) == 10 * p;
    hide Pow10;
    assert c * (10 * p) == 10 * (c * p);
  }

  lemma {:induction false} NormalizeScaled(c: nat, e: int, j: nat)
    requires c > 0
    ensures c * Pow10(j) > 0
    ensures Normalize(Dec(c * Pow10(j), e - j)) == Normalize(Dec(c, e))
  {
    hide Normalize, Pow10;
    Pow10Zero();
    if j > 0 {
      NormalizeScaled(c, e, j - 1);
      TenfoldProduct(c, j);
      NormalizeTenfold(c * Pow10(j - 1), e - (j - 1));
    }
  }

  /** Equal values have equal canonical texts. */
  lemma EqualValuesPrintAlike(a: Dec, b: Dec)
    requires a.coeff > 0 && b.coeff > 0 && SameValue(a, b)
    ensures Normalize(a) == Normalize(b) && CanonicalDecimal(a) == CanonicalDecimal(b)
  {
    if a.exp >= b.exp {
      NormalizeScaled(a.coeff, a.exp, a.exp - b.exp);
    } else {
      NormalizeScaled(b.coeff, b.exp, b.exp - a.exp);
    }
  }

  // ---------- Normal forms are unique ----------

  lemma SameValueSymmetric(a: Dec, b: Dec)
    requires SameValue(a, b)
    ensures SameValue(b, a)
  {
  }

  lemma SameValueTransitive(a: Dec, b: Dec, c: Dec)
    requires SameValue(a, b) && SameValue(b, c)
    ensures SameValue(a, c)
  {
    var e := if a.exp <= b.exp && a.exp <= c.exp then a.exp else if b.exp <= c.exp then b.exp else c.exp;
    ScaledEqual(a, b, e);
    ScaledEqual(b, c, e);
    ScaledEqual(a, c, e);
  }

  function Scaled(d: Dec, e: int): int
    requires e <= d.exp
  {
    d.coeff * Pow10(d.exp - e)
  }

  /** Values are equal iff the coefficients agree at any common smaller exponent. */
  lemma ScaledEqual(a: Dec, b: Dec, e: int)
    requires e <= a.exp && e <= b.exp
    ensures SameValue(a, b) <==> Scaled(a, e) == Scaled(b, e)
  {
    if a.exp >= b.exp {
      ScaleDown(a, b.exp, e);
      CancelFactor(a.coeff * Pow10(a.exp - b.exp), b.coeff, Pow10(b.exp - e));
    } else {
      ScaleDown(b, a.exp, e);
      CancelFactor(a.coeff, b.coeff * Pow10(b.exp - a.exp), Pow10(a.exp - e));
    }
  }

  lemma ScaleDown(d: Dec, mid: int, e: int)
    requires e <= mid <= d.exp
    ensures Scaled(d, e) == d.coeff * Pow10(d.exp - mid) * Pow10(mid - e)
  {
    var p, q := Pow10(d.exp - mid), Pow10(mid - e);
    Pow10Add(d.exp - mid, mid - e);
    assert (d.exp - mid) + (mid - e) == d.exp - e;
    assert d.coeff * (p * q) == d.coeff * p * q;
  }

  lemma CancelFactor(x: int, y: int, p: nat)
    requires p >= 1
    ensures x == y <==> x * p == y * p
  {
    if x * p == y * p {
      assert (x - y) * p == 0 && (y - x) * p == 0;
      if x - y >= 1 {
        MulAtLeast(x - y, p);
      } else if y - x >= 1 {
        MulAtLeast(y - x, p);
      }
    }
  }

  lemma {:induction false} StripKeepsValue(d: Dec)
    requires d.coeff > 0
    ensures SameValue(StripZeros(d), d)
    ensures DigitCount(StripZeros(d).coeff) <= DigitCount(d.coeff)
    decreases d.coeff
  {
    if d.coeff % 10 == 0 {
      var up := Dec(d.coeff / 10, d.exp + 1);
      StripKeepsValue(up);
      assert Pow10(1) == 10;
      assert SameValue(up, d);
      SameValueTransitive(StripZeros(d), up, d);
      DigitCountDown(d.coeff);
    }
  }

  /** Two stripped decimals of equal value are the same. */
  lemma StrippedUnique(a: Dec, b: Dec)
    requires a.coeff > 0 && b.coeff > 0 && a.coeff % 10 != 0 && b.coeff % 10 != 0
    requires SameValue(a, b)
    ensures a == b
  {
    if a.exp > b.exp {
      NoTrailingZero(a.coeff, a.exp - b.exp, b.coeff);
    } else if b.exp > a.exp {
      NoTrailingZero(b.coeff, b.exp - a.exp, a.coeff);
    }
  }

  lemma NoTrailingZero(c: int, j: nat, d: int)
    requires j > 0 && c * Pow10(j) == d
    ensures d % 10 == 0
  {
    assert d == 10 * (c * Pow10(j - 1));
  }

  // ---------- Parsing inverts printing ----------

  lemma {:induction false} ParseDigits(n: nat)
    ensures ParseNat(Digits(n)) == n
  {
    var s := Digits(n);
    if n >= 10 {
      ParseDigits(n / 10);
      assert s[..|s| - 1] == Digits(n / 10) && s[|s| - 1] == DigitChar(n % 10);
    } else {
      assert s[..0] == "" && s[0] == DigitChar(n);
    }
  }

  predicate AllDigits(s: string) {
    forall i :: 0 <= i < |s| ==> '0' <= s[i] <= '9'
  }

  lemma {:induction false} DigitsAreDigits(n: nat)
    ensures AllDigits(Digits(n))
    ensures n % 10 != 0 ==> Digits(n)[DigitCount(n) - 1] != '0'
  {
    if n >= 10 {
      DigitsAreDigits(n / 10);
    }
  }

  lemma {:induction false} ParseLeadingZeros(k: nat, s: string)
    ensures ParseNat(ZeroDigits(k) + s) == ParseNat(s)
  {
    if s != "" {
      assert (ZeroDigits(k) + s)[..|ZeroDigits(k) + s| - 1] == ZeroDigits(k) + s[..|s| - 1];
      ParseLeadingZeros(k, s[..|s| - 1]);
    } else {
      assert ZeroDigits(k) + s == ZeroDigits(k);
      ParseZeros(k);
    }
  }

  lemma {:induction false} ParseZeros(k: nat)
    ensures ParseNat(ZeroDigits(k)) == 0
  {
    if k > 0 {
      assert ZeroDigits(k)[..k - 1] == ZeroDigits(k - 1);
      ParseZeros(k - 1);
    }
  }

  lemma {:induction false} ParseTrailingZeros(s: string, k: nat)
    ensures ParseNat(s + ZeroDigits(k)) == ParseNat(s) * Pow10(k)
  {
    if k == 0 {
      assert s + ZeroDigits(0) == s;
    } else {
      var t := s + ZeroDigits(k);
      assert t[..|t| - 1] == s + ZeroDigits(k - 1) && t[|t| - 1] == '0';
      ParseTrailingZeros(s, k - 1);
      TenfoldProduct(ParseNat(s), k);
    }
  }

  lemma {:induction false} PointAfterDigits(a: string, b: string)
    requires AllDigits(a)
    ensures '.' in a + "." + b && PointAt(a + "." + b) == |a|
  {
    var s := a + "." + b;
    assert s[|a|] == '.';
    if a != "" {
      assert s[1..] == a[1..] + "." + b;
      PointAfterDigits(a[1..], b);
    }
  }

  lemma DigitsBefore(digits: string, n: nat)
    requires AllDigits(digits) && n <= |digits|
    ensures AllDigits(digits[..n])
  {
  }

  /** The text of a negative exponent: digits, point, as many digits as there are places. */
  lemma ParsePointed(digits: string, places: nat)
    requires AllDigits(digits) && places < |digits|
    ensures var s := digits[..|digits| - places] + "." + digits[|digits| - places..];
            '.' in s && ParseDecimal(s) == Dec(ParseNat(digits), -(places as int))
  {
    hide ParseNat, PointAt, ParseDecimal, AllDigits;
    var a, b := digits[..|digits| - places], digits[|digits| - places..];
    assert a + b == digits;
    DigitsBefore(digits, |digits| - places);
    PointAfterDigits(a, b);
    ParseAround(a, b);
  }

  lemma ParseAround(a: string, b: string)
    requires '.' in a + "." + b && PointAt(a + "." + b) == |a|
    ensures ParseDecimal(a + "." + b) == Dec(ParseNat(a + b), -(|b| as int))
  {
    hide ParseNat, PointAt;
    var s := a + "." + b;
    assert s[..|a|] == a && s[|a| + 1..] == b;
  }

  lemma {:induction false} TrimNothing(s: string, c: char)
    requires s != "" && s[|s| - 1] != c
    ensures TrimChar(s, c) == s
  {
  }

  lemma Pow10Zero()
    ensures Pow10(0) == 1
  {
  }

  lemma ParseWhole(d: Dec)
    requires d.coeff > 0 && d.exp >= 0
    ensures '.' !in FixedPoint(d) && SameValue(ParseDecimal(FixedPoint(d)), d)
  {
    hide ParseNat, Digits, DigitCount, Pow10, PointAt, ZeroDigits;
    var digits := Digits(d.coeff);
    ParseDigits(d.coeff);
    DigitsAreDigits(d.coeff);
    ParseTrailingZeros(digits, d.exp);
    Pow10Zero();
    var s := digits + ZeroDigits(d.exp);
    assert forall c <- s :: c in digits || c in ZeroDigits(d.exp);
    assert '.' !in s;
    assert ParseDecimal(s) == Dec(d.coeff * Pow10(d.exp), 0);
  }

  lemma {:induction false} ZerosAreDigits(k: nat)
    ensures AllDigits(ZeroDigits(k))
  {
    if k > 0 {
      ZerosAreDigits(k - 1);
    }
  }

  lemma ParseFraction(d: Dec)
    requires d.coeff > 0 && d.exp < 0
    ensures '.' in FixedPoint(d) && ParseDecimal(FixedPoint(d)) == d
  {
    hide ParseNat, ParseDecimal;
    var digits, places := Digits(d.coeff), -d.exp;
    ParseDigits(d.coeff);
    DigitsAreDigits(d.coeff);
    if |digits| <= places {
      ParseLeadingZeros(places + 1 - |digits|, digits);
      ZerosAreDigits(places + 1 - |digits|);
      ParsePointed(ZeroDigits(places + 1 - |digits|) + digits, places);
    } else {
      ParsePointed(digits, places);
    }
  }

  /** Parsing the fixed-point text of a decimal recovers its value. */
  lemma ParseFixedPoint(d: Dec)
    requires d.coeff > 0
    ensures SameValue(ParseDecimal(FixedPoint(d)), d)
    ensures '.' in FixedPoint(d) <==> d.exp < 0
  {
    if d.exp >= 0 {
      ParseWhole(d);
    } else {
      ParseFraction(d);
      assert Pow10(0) == 1;
    }
  }

  lemma LastCharOfFixedPoint(d: Dec)
    requires d.coeff > 0 && d.coeff % 10 != 0 && d.exp < 0
    ensures var s := FixedPoint(d); s != "" && s[|s| - 1] != '0' && s[|s| - 1] != '.'
  {
    DigitsAreDigits(d.coeff);
    var digits := Digits(d.coeff);
    var s := FixedPoint(d);
    assert s[|s| - 1] == digits[|digits| - 1];
    assert digits[|digits| - 1] in digits;
  }

  /** On a normal form the final trimming is a no-op. */
  lemma CanonicalIsFixedPoint(d: Dec)
    requires d.coeff > 0
    ensures CanonicalDecimal(d) == FixedPoint(Normalize(d))
  {
    var n := Normalize(d);
    ParseFixedPoint(n);
    if n.exp < 0 {
      var s := FixedPoint(n);
      LastCharOfFixedPoint(n);
      TrimNothing(s, '0');
      TrimNothing(s, '.');
    }
  }

  /** Parsing the canonical text recovers the normal form's value, which is positive. */
  lemma ParseCanonical(d: Dec)
    requires d.coeff > 0
    ensures SameValue(ParseDecimal(CanonicalDecimal(d)), Normalize(d))
    ensures ParseDecimal(CanonicalDecimal(d)).coeff > 0
  {
    var n := Normalize(d);
    CanonicalIsFixedPoint(d);
    ParseFixedPoint(n);
    PositiveValue(ParseDecimal(CanonicalDecimal(d)), n);
  }

  lemma PositiveValue(a: Dec, b: Dec)
    requires SameValue(a, b) && b.coeff > 0
    ensures a.coeff > 0
  {
    if a.exp >= b.exp {
      if a.coeff <= 0 {
        assert a.coeff * Pow10(a.exp - b.exp) <= 0;
      }
    } else {
      assert b.coeff * Pow10(b.exp - a.exp) > 0;
    }
  }

  // ---------- The 28-digit context ----------

  lemma QuotientBelow(c: nat, p: nat, m: nat)
    requires p > 0 && c < m * p
    ensures c / p < m
  {
    var q := c / p;
    assert c == q * p + c % p;
    assert q >= m ==> q * p >= m * p by {
      assert q * p == m * p + (q - m) * p;
      assert q >= m ==> (q - m) * p >= 0;
    }
  }

  lemma RoundedFits(c: nat, k: nat)
    requires c > 0 && DigitCount(c) == PRECISION + k && k > 0
    ensures RoundBy(c, k) <= Pow10(PRECISION)
  {
    hide Pow10, DigitCount;
    DigitCountBounds(c);
    Pow10Add(PRECISION, k);
    QuotientBelow(c, Pow10(k), Pow10(PRECISION));
  }

  lemma {:induction false} DigitCountAtMost(n: nat, k: nat)
    requires k >= 1 && n < Pow10(k)
    ensures DigitCount(n) <= k
  {
    assert Pow10(1) == 10;
    if n >= 10 {
      DigitCountAtMost(n / 10, k - 1);
    }
  }

  /** A normal form never has more than 28 significant digits. */
  lemma NormalFitsContext(d: Dec)
    requires d.coeff > 0
    ensures DigitCount(Normalize(d).coeff) <= PRECISION
  {
    OneDigit();
    hide Pow10, DigitCount, StripZeros, RoundBy;
    var n := DigitCount(d.coeff);
    var r := RoundToContext(d);
    StripKeepsValue(r);
    if n > PRECISION {
      RoundedFits(d.coeff, n - PRECISION);
      if r.coeff == Pow10(PRECISION) {
        StripPower(PRECISION, r.exp);
      } else {
        DigitCountAtMost(r.coeff, PRECISION);
      }
    }
  }

  lemma OneDigit()
    ensures DigitCount(1) == 1
  {
  }

  lemma {:induction false} StripPower(k: nat, e: int)
    ensures StripZeros(Dec(Pow10(k), e)) == Dec(1, e + k)
  {
    if k > 0 {
      assert Pow10(k) % 10 == 0 && Pow10(k) / 10 == Pow10(k - 1);
      StripPower(k - 1, e + 1);
    }
  }

  /** A normal form is its own normal form. */
  lemma NormalizeIdempotent(d: Dec)
    requires d.coeff > 0
    ensures Normalize(Normalize(d)) == Normalize(d)
  {
    NormalFitsContext(d);
  }

  /** Printing, parsing and printing again gives the same text. */
  lemma CanonicalIdempotent(d: Dec)
    requires d.coeff > 0
    ensures var parsed := ParseDecimal(CanonicalDecimal(d));
            parsed.coeff > 0 && CanonicalDecimal(parsed) == CanonicalDecimal(d)
  {
    ParseCanonical(d);
    EqualValuesPrintAlike(ParseDecimal(CanonicalDecimal(d)), Normalize(d));
    NormalizeIdempotent(d);
    CanonicalIsFixedPoint(d);
    CanonicalIsFixedPoint(Normalize(d));
  }

  /** Two decimals print alike iff they have the same normal form. */
  lemma PrintAlikeIff(a: Dec, b: Dec)
    requires a.coeff > 0 && b.coeff > 0
    ensures CanonicalDecimal(a) == CanonicalDecimal(b) <==> Normalize(a) == Normalize(b)
  {
    if CanonicalDecimal(a) == CanonicalDecimal(b) {
      ParseCanonical(a);
      ParseCanonical(b);
      var p := ParseDecimal(CanonicalDecimal(a));
      SameValueSymmetric(p, Normalize(a));
      SameValueTransitive(Normalize(a), p, Normalize(b));
      StrippedUnique(Normalize(a), Normalize(b));
    }
  }

  /**
   Exactly when printing loses nothing: parsing the canonical text recovers the value iff the
   value needs at most 28 significant digits.
   */
  lemma PrintingIsExactIff(d: Dec)
    requires d.coeff > 0
    ensures SameValue(ParseDecimal(CanonicalDecimal(d)), d) <==> DigitCount(StripZeros(d).coeff) <= PRECISION
  {
    var parsed, stripped := ParseDecimal(CanonicalDecimal(d)), StripZeros(d);
    ParseCanonical(d);
    StripKeepsValue(d);
    if DigitCount(stripped.coeff) <= PRECISION {
      assert Normalize(stripped) == stripped;
      EqualValuesPrintAlike(stripped, d);
      SameValueTransitive(parsed, stripped, d);
    }
    if SameValue(parsed, d) {
      SameValueSymmetric(parsed, Normalize(d));
      SameValueTransitive(Normalize(d), parsed, d);
      SameValueSymmetric(stripped, d);
      SameValueTransitive(Normalize(d), d, stripped);
      StrippedUnique(Normalize(d), stripped);
      NormalFitsContext(d);
    }
  }

  /** Within 28 significant digits, texts are equal iff values are. */
  lemma WithinContextPrintAlikeIff(a: Dec, b: Dec)
    requires a.coeff > 0 && b.coeff > 0
    requires DigitCount(StripZeros(a).coeff) <= PRECISION && DigitCount(StripZeros(b).coeff) <= PRECISION
    ensures CanonicalDecimal(a) == CanonicalDecimal(b) <==> SameValue(a, b)
  {
    if SameValue(a, b) {
      EqualValuesPrintAlike(a, b);
    }
    if CanonicalDecimal(a) == CanonicalDecimal(b) {
      PrintingIsExactIff(a);
      PrintingIsExactIff(b);
      var p := ParseDecimal(CanonicalDecimal(a));
      SameValueSymmetric(p, a);
      SameValueTransitive(a, p, b);
    }
  }

  // ---------- What rounding, printing and parsing mean ----------

  /** Rounding by k digits gives the nearest multiple of 10^k, and of two nearest ones the even one. */
  lemma RoundByIsHalfEven(c: nat, k: nat)
    ensures var q: int, p: int := RoundBy(c, k), Pow10(k);
            && -p <= 2 * (c - q * p) <= p
            && (2 * (c - q * p) == p || 2 * (c - q * p) == -p ==> q % 2 == 0)
  {
    var q, r, p := c / Pow10(k), c % Pow10(k), Pow10(k);
    assert c == q * p + r;
    assert (q + 1) * p == q * p + p;
  }

  /** The context keeps 28 significant digits: longer coefficients are rounded by all digits beyond those. */
  lemma RoundToContextIs(d: Dec)
    requires d.coeff > 0
    ensures var r := RoundToContext(d);
            && (d.coeff < Pow10(28) ==> r == d)
            && forall k: nat :: Pow10(27 + k) <= d.coeff < Pow10(28 + k) ==>
                 r == Dec(RoundBy(d.coeff, k), d.exp + k)
  {
    hide Pow10, RoundBy;
    DigitCountBounds(d.coeff);
    var n := DigitCount(d.coeff);
    if d.coeff < Pow10(28) {
      DigitCountAtMost(d.coeff, 28);
    }
    forall k: nat | Pow10(27 + k) <= d.coeff < Pow10(28 + k)
      ensures RoundToContext(d) == Dec(RoundBy(d.coeff, k), d.exp + k)
    {
      DigitCountAtMost(d.coeff, 28 + k);
      if n < 28 + k {
        Pow10Monotone(n, 27 + k);
      }
      RoundByNothing(d.coeff);
    }
  }

  lemma RoundByNothing(c: nat)
    ensures RoundBy(c, 0) == c && Pow10(0) == 1
  {
  }

  /** Digits are read in base ten, and each digit behind the point makes the exponent one smaller. */
  lemma ParsesInBaseTen(s: string, c: char, whole: string, fraction: string)
    requires '0' <= c <= '9' && AllDigits(whole) && AllDigits(fraction)
    ensures ParseNat("") == 0 && ParseNat(s + [c]) == 10 * ParseNat(s) + (c as int - 48)
    ensures ParseDecimal(whole) == Dec(ParseNat(whole), 0)
    ensures ParseDecimal(whole + "." + fraction) == Dec(ParseNat(whole + fraction), -(|fraction| as int))
  {
    assert (s + [c])[..|s|] == s;
    PointAfterDigits(whole, fraction);
    ParseAround(whole, fraction);
    hide ParseNat;
    assert '.' !in whole;
  }

  lemma {:induction false} DigitsLead(n: nat)
    requires n > 0
    ensures Digits(n)[0] != '0'
  {
    if n >= 10 {
      DigitsLead(n / 10);
    }
  }

  /**
   Canonical text consists of digits and at most one point. Nothing can be left out of it: it starts with a zero
   only before the point, and what is behind the point is not empty and ends in no zero.
   */
  lemma CanonicalShape(d: Dec)
    requires d.coeff > 0
    ensures var s := CanonicalDecimal(d);
            && s != "" && (forall c <- s :: '0' <= c <= '9' || c == '.')
            && (s[0] == '0' ==> |s| > 1 && s[1] == '.')
            && ('.' in s ==> exists i :: 0 < i < |s| - 1 && s[i] == '.' && s[|s| - 1] != '0'
                                         && forall j :: 0 <= j < |s| && s[j] == '.' ==> j == i)
  {
    var n := Normalize(d);
    CanonicalIsFixedPoint(d);
    DigitsAreDigits(n.coeff);
    DigitsLead(n.coeff);
    hide Normalize, CanonicalDecimal, Digits, DigitChar, DigitValue;
    if n.exp >= 0 {
      WholeShape(n);
    } else {
      FractionShape(n);
    }
  }

  lemma WholeShape(n: Dec)
    requires n.coeff > 0 && n.exp >= 0 && AllDigits(Digits(n.coeff)) && Digits(n.coeff)[0] != '0'
    ensures var s := FixedPoint(n);
            s != "" && (forall c <- s :: '0' <= c <= '9') && s[0] != '0'
  {
    hide Digits;
    var digits, s := Digits(n.coeff), FixedPoint(n);
    assert s == digits + ZeroDigits(n.exp);
    forall c | c in s
      ensures '0' <= c <= '9'
    {
      assert c in digits || c in ZeroDigits(n.exp);
    }
  }

  /** A point in a string of digits, behind the first and before the last, which is no zero. */
  lemma PointedShape(digits: string, i: nat)
    requires AllDigits(digits) && 0 < i < |digits| && digits[|digits| - 1] != '0' && (digits[0] == '0' ==> i == 1)
    ensures var s := digits[..i] + "." + digits[i..];
            && s != "" && (forall c <- s :: '0' <= c <= '9' || c == '.')
            && (s[0] == '0' ==> |s| > 1 && s[1] == '.')
            && s[i] == '.' && s[|s| - 1] != '0' && i < |s| - 1
            && forall j :: 0 <= j < |s| && s[j] == '.' ==> j == i
  {
    var s := digits[..i] + "." + digits[i..];
    forall k | 0 <= k < |s|
      ensures s[k] == if k < i then digits[k] else if k == i then '.' else digits[k - 1]
    {
    }
    assert forall k :: 0 <= k < |digits| ==> digits[k] in digits;
  }

  lemma FractionShape(n: Dec)
    requires n.coeff > 0 && n.exp < 0 && AllDigits(Digits(n.coeff)) && Digits(n.coeff)[0] != '0'
    requires n.coeff % 10 != 0
    ensures var s := FixedPoint(n);
            && s != "" && (forall c <- s :: '0' <= c <= '9' || c == '.')
            && (s[0] == '0' ==> |s| > 1 && s[1] == '.')
            && exists i :: 0 < i < |s| - 1 && s[i] == '.' && s[|s| - 1] != '0'
                           && forall j :: 0 <= j < |s| && s[j] == '.' ==> j == i
  {
    DigitsAreDigits(n.coeff);
    hide Digits, DigitCount;
    var digits, places := Digits(n.coeff), -n.exp;
    if |digits| <= places {
      var padding := ZeroDigits(places + 1 - |digits|);
      ZerosAreDigits(places + 1 - |digits|);
      assert FixedPoint(n) == (padding + digits)[..1] + "." + (padding + digits)[1..];
      PointedShape(padding + digits, 1);
    } else {
      var i := |digits| - places;
      assert FixedPoint(n) == digits[..i] + "." + digits[i..];
      PointedShape(digits, i);
    }
  }
}
