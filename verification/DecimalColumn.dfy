/** Storing a decimal as Numeric(38, 18): rounding to 18 places, and exactly which values it keeps. */
module DecimalColumn {
  import opened Modular
  import opened DecimalText

  const PLACES: int := 18

  /** Rounds the coefficient by k digits, half away from zero. */
  function RoundAway(c: nat, k: nat): nat {
    (c + Pow10(k) / 2) / Pow10(k)
  }

  function ToPlaces(d: Dec): Dec {
    if d.exp >= -PLACES then d
    else
      var k := -PLACES - d.exp;
      Dec(if d.coeff >= 0 then RoundAway(d.coeff, k) else 0 - RoundAway(-d.coeff, k), -PLACES)
  }

  /** The stored value prints as the original does. */
  predicate PrintsAlike(stored: Dec, d: Dec)
    requires d.coeff > 0
  {
    stored.coeff > 0 && CanonicalDecimal(stored) == CanonicalDecimal(d)
  }

  lemma RoundExactly(m: nat, k: nat)
    ensures RoundAway(m * Pow10(k), k) == m
  {
    hide Pow10;
    var p := Pow10(k);
    RemainderUnique(m * p + p / 2, p, m, p / 2);
  }

  lemma {:induction false} StripRaises(d: Dec)
    requires d.coeff > 0
    ensures StripZeros(d).exp >= d.exp
    decreases d.coeff
  {
    if d.coeff % 10 == 0 {
      StripRaises(Dec(d.coeff / 10, d.exp + 1));
    }
  }

  lemma NormalizeRaises(d: Dec)
    requires d.coeff > 0
    ensures Normalize(d).exp >= d.exp
  {
    hide StripZeros, DigitCount, RoundBy;
    StripRaises(RoundToContext(d));
  }

  lemma WithinContextNormal(d: Dec)
    requires d.coeff > 0 && DigitCount(StripZeros(d).coeff) <= PRECISION
    ensures Normalize(d) == StripZeros(d)
  {
    var stripped := StripZeros(d);
    StripKeepsValue(d);
    assert Normalize(stripped) == stripped;
    EqualValuesPrintAlike(stripped, d);
  }

  lemma Reassociate(a: int, b: int, c: int)
    ensures a * b * c == a * (b * c)
  {
  }

  lemma ShortDecimalKept(d: Dec)
    requires d.coeff > 0 && d.exp < -PLACES && StripZeros(d).exp >= -PLACES
    ensures ToPlaces(d).coeff > 0 && SameValue(ToPlaces(d), d)
  {
    hide Pow10, StripZeros, RoundAway;
    var k, stripped := -PLACES - d.exp, StripZeros(d);
    StripKeepsValue(d);
    Pow10Add(stripped.exp + PLACES, k);
    assert stripped.exp + PLACES + k == stripped.exp - d.exp;
    var m := stripped.coeff * Pow10(stripped.exp + PLACES);
    Reassociate(stripped.coeff, Pow10(stripped.exp + PLACES), Pow10(k));
    RoundExactly(m, k);
    PositiveValue(ToPlaces(d), d);
  }

  /** A value of at most 28 digits is kept iff it needs at most 18 decimal places. */
  lemma KeptIff(d: Dec)
    requires d.coeff > 0 && DigitCount(StripZeros(d).coeff) <= PRECISION
    ensures PrintsAlike(ToPlaces(d), d) <==> StripZeros(d).exp >= -PLACES
  {
    hide Pow10, StripZeros, RoundAway, DigitCount, CanonicalDecimal, SameValue, Normalize;
    WithinContextNormal(d);
    StripRaises(d);
    if StripZeros(d).exp >= -PLACES && d.exp < -PLACES {
      ShortDecimalKept(d);
      EqualValuesPrintAlike(ToPlaces(d), d);
    }
    if PrintsAlike(ToPlaces(d), d) {
      PrintAlikeIff(ToPlaces(d), d);
      NormalizeRaises(ToPlaces(d));
    }
  }

  /** Nineteen decimal places are one too many. */
  lemma NineteenPlacesLost()
    ensures !PrintsAlike(ToPlaces(Dec(11, -19)), Dec(11, -19))
  {
    assert StripZeros(Dec(11, -19)) == Dec(11, -19) && DigitCount(11) == 2;
    KeptIff(Dec(11, -19));
  }
}
