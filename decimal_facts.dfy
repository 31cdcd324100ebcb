/**
 * Properties of the arithmetic, comparison, rounding, sign and aggregate
 * wrappers of src/utils/decimal.ts that relate several calls, or spell out
 * the behaviours a caller is most likely to get wrong.
 */
module DecimalFacts {
  import opened Wrappers
  import opened Digits
  import opened DecimalJs
  import opened DecimalUtils
  import opened DecimalParseFacts
  import opened Strings

  // ---------------------------------------------------------------------
  // Arithmetic.

  /** Subtracting b from a + b gives back a's value. */
  lemma AddSubtractInverse(a: Input, b: Input)
    requires BothParse(a, b)
    ensures Add(a, b).Some?
    ensures var s := Subtract(Instance(Add(a, b).value), b);
      s.Some? && Value(s.value) == Value(ParseDecimal(a).value)
  {
  }

  /** Multiplying the quotient back by the divisor gives the dividend. */
  lemma DivideMultiplyInverse(a: Input, b: Input)
    requires BothParse(a, b) && Value(ParseDecimal(b).value) != 0.0
    ensures Divide(a, b).Some?
    ensures Divide(a, b).value * Value(ParseDecimal(b).value) == Value(ParseDecimal(a).value)
  {
  }

  // ---------------------------------------------------------------------
  // Comparisons.

  /**
   * With an unparsable side every comparison is false, so `lessThanOrEqual`
   * is not the negation of `greaterThan`; with both sides parsed it is.
   */
  lemma ComparisonsFailClosed(a: Input, b: Input)
    ensures !BothParse(a, b) ==>
      !GreaterThan(a, b) && !GreaterThanOrEqual(a, b) && !LessThan(a, b) &&
      !LessThanOrEqual(a, b) && !Equals(a, b)
    ensures BothParse(a, b) ==>
      (LessThanOrEqual(a, b) <==> !GreaterThan(a, b)) &&
      (LessThan(a, b) <==> !GreaterThanOrEqual(a, b))
  {
  }

  /** Swapping the operands swaps the strict and the non-strict orders. */
  lemma ComparisonsSwap(a: Input, b: Input)
    ensures GreaterThan(a, b) == LessThan(b, a)
    ensures GreaterThanOrEqual(a, b) == LessThanOrEqual(b, a)
    ensures Equals(a, b) == Equals(b, a)
    ensures Equals(a, b) <==> GreaterThanOrEqual(a, b) && LessThanOrEqual(a, b)
  {
  }

  // ---------------------------------------------------------------------
  // Rounding.

  /** `floor` rounds toward zero: a negative value moves up, a positive one down. */
  lemma FloorTowardZero(value: Input, places: nat)
    requires ParseDecimal(value).Some?
    ensures var d, r := ParseDecimal(value).value, Floor(value, places).value;
      if d.negative then Value(d) <= Value(r) <= 0.0 else 0.0 <= Value(r) <= Value(d)
  {
    var r := Floor(value, places).value;
    MagnitudeNonNegative(r);
  }

  /** `ceil` rounds away from zero: a negative value moves down, a positive one up. */
  lemma CeilAwayFromZero(value: Input, places: nat)
    requires ParseDecimal(value).Some?
    ensures var d, r := ParseDecimal(value).value, Ceil(value, places).value;
      if d.negative then Value(r) <= Value(d) <= 0.0 else 0.0 <= Value(d) <= Value(r)
  {
    MagnitudeNonNegative(ParseDecimal(value).value);
  }

  lemma MagnitudeNonNegative(d: Decimal)
    ensures Magnitude(d) >= 0.0
  {
    DivOrder(d.coefficient, 0, Pow10(d.scale));
  }

  /** -1.5 floors to -1, not -2. */
  lemma FloorNegativeExample()
    ensures Floor(Text("-1.5"), 0) == Some(Decimal(true, 1, 0))
  {
    ParsedExample("-1.5", "-", "1", "5", 15);
    RoundingParsed(Text("-1.5"), Decimal(true, 15, 1), 0);
    RoundOnePlace(true, 15);
  }

  /** -1.2 ceils to -2, not -1. */
  lemma CeilNegativeExample()
    ensures Ceil(Text("-1.2"), 0) == Some(Decimal(true, 2, 0))
  {
    ParsedExample("-1.2", "-", "1", "2", 12);
    RoundingParsed(Text("-1.2"), Decimal(true, 12, 1), 0);
    RoundOnePlace(true, 12);
  }

  /** Ties go away from zero: 2.5 rounds to 3, not 2. */
  lemma RoundTieExample()
    ensures Round(Text("2.5"), 0) == Some(Decimal(false, 3, 0))
  {
    ParsedExample("2.5", "", "2", "5", 25);
    RoundingParsed(Text("2.5"), Decimal(false, 25, 1), 0);
    RoundOnePlace(false, 25);
  }

  /** Ties go away from zero on the negative side too: -2.5 rounds to -3, not -2. */
  lemma RoundNegativeTieExample()
    ensures Round(Text("-2.5"), 0) == Some(Decimal(true, 3, 0))
  {
    ParsedExample("-2.5", "-", "2", "5", 25);
    RoundingParsed(Text("-2.5"), Decimal(true, 25, 1), 0);
    RoundOnePlace(true, 25);
  }

  /** A one-place decimal rounded to an integer in the three modes. */
  lemma RoundOnePlace(negative: bool, n: nat)
    ensures RoundTo(Decimal(negative, n, 1), 0, RoundDown) == Decimal(negative, n / 10, 0)
    ensures RoundTo(Decimal(negative, n, 1), 0, RoundUp) == Decimal(negative, if n % 10 == 0 then n / 10 else n / 10 + 1, 0)
    ensures RoundTo(Decimal(negative, n, 1), 0, RoundHalfUp) == Decimal(negative, if n % 10 < 5 then n / 10 else n / 10 + 1, 0)
  {
    assert Pow10(1) == 10;
  }

  /** The three rounding wrappers apply `toDecimalPlaces` to the parsed value. */
  lemma RoundingParsed(value: Input, d: Decimal, places: nat)
    requires ParseDecimal(value) == Some(d)
    ensures Round(value, places) == Some(RoundTo(d, places, RoundHalfUp))
    ensures Floor(value, places) == Some(RoundTo(d, places, RoundDown))
    ensures Ceil(value, places) == Some(RoundTo(d, places, RoundUp))
  {
  }

  /** The text `sign` `a` `.` `b` reads as the one-place decimal n / 10. */
  lemma ParsedExample(s: string, sign: string, a: string, b: string, n: nat)
    requires s == sign + a + ['.'] + b
    requires sign == "" || sign == "-"
    requires |a| == 1 && |b| == 1 && AllDigits(a) && AllDigits(b)
    requires n == 10 * DigitValue(a[0]) + DigitValue(b[0])
    ensures forall i | 0 <= i < |s| :: IsNumChar(s[i])
    ensures ParseDecimal(Text(s)) == Some(Decimal(sign == "-", n, 1))
  {
    TwoDigits(a, b, n);
    ParseSeparated(s, sign, a, '.', b);
  }

  lemma TwoDigits(a: string, b: string, n: nat)
    requires |a| == 1 && |b| == 1 && AllDigits(a) && AllDigits(b)
    requires n == 10 * DigitValue(a[0]) + DigitValue(b[0])
    ensures DigitsAnd(a, Other('.')) && RemoveAll(a, Other('.')) != []
    ensures AllDigits(RemoveAll(a, Other('.')) + b)
    ensures DigitsToNat(RemoveAll(a, Other('.')) + b) == n
  {
    NoCommaInDigits(a);
    RemoveAllAbsent(a, ',');
    var ds := a + b;
    assert ds[..1] == a && a[..0] == [] && ds[1] == b[0];
    assert DigitsToNat(a) == DigitValue(a[0]);
  }

  /** Rounding an already rounded value to the same places changes nothing. */
  lemma RoundingIdempotent(value: Input, places: nat)
    requires ParseDecimal(value).Some?
    ensures Round(Instance(Round(value, places).value), places) == Round(value, places)
    ensures Floor(Instance(Floor(value, places).value), places) == Floor(value, places)
    ensures Ceil(Instance(Ceil(value, places).value), places) == Ceil(value, places)
  {
    var d := ParseDecimal(value).value;
    RoundToIdempotent(d, places, RoundHalfUp);
    RoundToIdempotent(d, places, RoundDown);
    RoundToIdempotent(d, places, RoundUp);
  }

  lemma RoundToIdempotent(d: Decimal, places: nat, mode: Rounding)
    ensures RoundTo(RoundTo(d, places, mode), places, mode) == RoundTo(d, places, mode)
  {
    assert Pow10(0) == 1;
  }

  // ---------------------------------------------------------------------
  // Sign predicates.

  /**
   * The trap in `isPositive` and `isNegative`: "0" (in any number of zeros)
   * is zero and positive, "-0" is zero and negative.
   */
  lemma SignedZeros(zeros: NumText)
    requires zeros != [] && forall i | 0 <= i < |zeros| :: zeros[i] == '0'
    ensures IsZeroOf(Text(zeros)) && IsPositiveOf(Text(zeros)) && !IsNegativeOf(Text(zeros))
    ensures IsZeroOf(Text("-" + zeros)) && IsNegativeOf(Text("-" + zeros)) && !IsPositiveOf(Text("-" + zeros))
  {
    ZerosValue(zeros);
    ParseInteger("", zeros);
    assert "" + zeros == zeros;
    ParseInteger("-", zeros);
  }

  /** On a nonzero value the sign predicates agree with the value's sign. */
  lemma SignOfNonZero(value: Input)
    requires ParseDecimal(value).Some? && !IsZeroOf(value)
    ensures IsPositiveOf(value) <==> Value(ParseDecimal(value).value) > 0.0
    ensures IsNegativeOf(value) <==> Value(ParseDecimal(value).value) < 0.0
  {
    SignPredicates(ParseDecimal(value).value);
  }

  // ---------------------------------------------------------------------
  // Aggregates.

  /** `sum` is the exact total of the values, and zero for an empty list. */
  lemma SumValue(values: seq<Input>)
    ensures SumOf([]) == Some(Zero)
    ensures SumOf(values).None? <==> exists i | 0 <= i < |values| :: ParseDecimal(values[i]).None?
    ensures SumOf(values).Some? ==> Value(SumOf(values).value) == ValueSum(values)
  {
    if AllValid(values) {
      TotalValue(values);
    }
  }

  /**
   * What `max` returns, read as values: None exactly when no element
   * parses, otherwise a parsed element whose value is at least that of
   * every parsed element.
   */
  lemma MaxIsGreatest(values: seq<Input>, r: Option<Decimal>)
    requires IsExtremeOf(values, |values|, 1, r)
    ensures r.None? <==> forall j | 0 <= j < |values| :: ParseDecimal(values[j]).None?
    ensures r.Some? ==> exists k | 0 <= k < |values| :: ParseDecimal(values[k]) == Some(r.value)
    ensures r.Some? ==>
      forall j | 0 <= j < |values| && ParseDecimal(values[j]).Some? ::
        Value(ParseDecimal(values[j]).value) <= Value(r.value)
  {
    var parsed := Parsed(values);
    assert forall j | 0 <= j < |values| :: parsed[j] == ParseDecimal(values[j]);
    ExtremeMeaning(parsed, 1, r);
  }

  /** What `min` returns, read as values. */
  lemma MinIsLeast(values: seq<Input>, r: Option<Decimal>)
    requires IsExtremeOf(values, |values|, -1, r)
    ensures r.None? <==> forall j | 0 <= j < |values| :: ParseDecimal(values[j]).None?
    ensures r.Some? ==> exists k | 0 <= k < |values| :: ParseDecimal(values[k]) == Some(r.value)
    ensures r.Some? ==>
      forall j | 0 <= j < |values| && ParseDecimal(values[j]).Some? ::
        Value(r.value) <= Value(ParseDecimal(values[j]).value)
  {
    var parsed := Parsed(values);
    assert forall j | 0 <= j < |values| :: parsed[j] == ParseDecimal(values[j]);
    ExtremeMeaning(parsed, -1, r);
  }

  /** Among equal maxima `max` keeps the first: no earlier parsed element has the same value. */
  lemma MaxKeepsFirst(values: seq<Input>, r: Option<Decimal>)
    requires IsExtremeOf(values, |values|, 1, r) && r.Some?
    ensures exists k | 0 <= k < |values| ::
      (ParseDecimal(values[k]) == Some(r.value) &&
       forall j | 0 <= j < k && ParseDecimal(values[j]).Some? ::
         Value(ParseDecimal(values[j]).value) < Value(r.value))
  {
    var parsed := Parsed(values);
    assert forall j | 0 <= j < |values| :: parsed[j] == ParseDecimal(values[j]);
    var k := FirstExtreme(parsed, r);
    assert ParseDecimal(values[k]) == Some(r.value);
  }

  /** `ExtremeAmong` read as values. */
  lemma ExtremeMeaning(parsed: seq<Option<Decimal>>, sign: int, r: Option<Decimal>)
    requires ExtremeAmong(parsed, |parsed|, sign, r)
    ensures r.None? <==> forall j | 0 <= j < |parsed| :: parsed[j].None?
    ensures r.Some? ==> exists k | 0 <= k < |parsed| :: parsed[k] == Some(r.value)
    ensures r.Some? && sign == 1 ==>
      forall j | 0 <= j < |parsed| && parsed[j].Some? :: Value(parsed[j].value) <= Value(r.value)
    ensures r.Some? && sign == -1 ==>
      forall j | 0 <= j < |parsed| && parsed[j].Some? :: Value(r.value) <= Value(parsed[j].value)
  {
    if r.Some? {
      var k :| 0 <= k < |parsed| && ParsesTo(parsed, k, r.value);
      forall j | 0 <= j < |parsed| && parsed[j].Some?
        ensures sign == 1 ==> Value(parsed[j].value) <= Value(r.value)
        ensures sign == -1 ==> Value(r.value) <= Value(parsed[j].value)
      {
        CmpValue(parsed[j].value, r.value);
      }
    }
  }

  /** The element `max` returns is the first with its value. */
  lemma FirstExtreme(parsed: seq<Option<Decimal>>, r: Option<Decimal>) returns (k: nat)
    requires ExtremeAmong(parsed, |parsed|, 1, r) && r.Some?
    ensures k < |parsed| && parsed[k] == Some(r.value)
    ensures forall j | 0 <= j < k && parsed[j].Some? :: Value(parsed[j].value) < Value(r.value)
  {
    k :| 0 <= k < |parsed| && ParsesTo(parsed, k, r.value) &&
      forall j | 0 <= j < k && parsed[j].Some? :: Cmp(parsed[j].value, r.value) < 0;
    forall j | 0 <= j < k && parsed[j].Some?
      ensures Value(parsed[j].value) < Value(r.value)
    {
      CmpValue(parsed[j].value, r.value);
    }
  }
}
