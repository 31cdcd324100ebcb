/**
 * What `formatDecimal` (src/utils/decimal.ts:76-122) writes: the grouping
 * regex, the trailing-zero strip, the shape of the output, and when
 * `parseDecimal` reads the output back.
 */
module DecimalFormatFacts {
  import opened Wrappers
  import opened Digits
  import opened Strings
  import opened DecimalJs
  import opened DecimalUtils
  import opened DecimalParseFacts

  // ---------------------------------------------------------------------
  // The grouping regex.

  /**
   * An independent reading of `\B(?=(\d{3})+(?!\d))` on a digit string,
   * scanning from the left: a separator goes before position p when p is
   * not the start (`\B`) and the digits from p to the end are a nonzero
   * multiple of three (the lookahead).
   */
  function MarkedFrom(ds: string, sep: string, p: nat): string
    requires p <= |ds|
    decreases |ds| - p
  {
    if p == |ds| then []
    else (if 0 < p && (|ds| - p) % 3 == 0 then sep else []) + [ds[p]] + MarkedFrom(ds, sep, p + 1)
  }

  lemma {:induction false} MarkedTail(ds: string, sep: string, p: nat)
    requires p <= |ds| && (|ds| - p < 3 || (p == 0 && |ds| <= 3))
    ensures MarkedFrom(ds, sep, p) == ds[p..]
    decreases |ds| - p
  {
    if p < |ds| {
      MarkedTail(ds, sep, p + 1);
      assert 0 < p ==> |ds| - p == 1 || |ds| - p == 2;
      assert ds[p..] == [ds[p]] + ds[p + 1..];
    }
  }

  lemma {:induction false} MarkedPrefix(ds: string, sep: string, p: nat)
    requires |ds| > 3 && p <= |ds| - 3
    ensures MarkedFrom(ds, sep, p) == MarkedFrom(ds[..|ds| - 3], sep, p) + sep + ds[|ds| - 3..]
    decreases |ds| - 3 - p
  {
    var m := |ds| - 3;
    var pre, last := ds[..m], ds[m..];
    if p == m {
      MarkedTail(ds, sep, m + 1);
      assert (|ds| - m) % 3 == 0;
      assert MarkedFrom(ds, sep, m) == sep + [ds[m]] + ds[m + 1..];
      assert last == [ds[m]] + ds[m + 1..];
      assert MarkedFrom(pre, sep, m) == [];
    } else {
      MarkedPrefix(ds, sep, p + 1);
      SameMark(|ds|, |pre|, p);
      assert pre[p] == ds[p];
      var mark := if 0 < p && (|ds| - p) % 3 == 0 then sep else [];
      var rest := MarkedFrom(pre, sep, p + 1);
      assert MarkedFrom(ds, sep, p) == mark + [ds[p]] + MarkedFrom(ds, sep, p + 1);
      assert MarkedFrom(pre, sep, p) == mark + [ds[p]] + rest;
      AppendAssoc(mark + [ds[p]], rest, sep, last);
    }
  }

  lemma SameMark(n: nat, m: nat, p: nat)
    requires n == m + 3 && p <= m
    ensures (n - p) % 3 == (m - p) % 3
  {
  }

  lemma AppendAssoc(a: string, b: string, c: string, d: string)
    ensures a + (b + c + d) == (a + b) + c + d
  {
  }

  /** The recursive grouping is the regex: separators exactly where `MarkedFrom` puts them. */
  lemma {:induction false} GroupIsRegex(ds: string, sep: string)
    ensures Group(ds, sep) == MarkedFrom(ds, sep, 0)
    decreases |ds|
  {
    if |ds| <= 3 {
      MarkedTail(ds, sep, 0);
    } else {
      GroupIsRegex(ds[..|ds| - 3], sep);
      MarkedPrefix(ds, sep, 0);
    }
  }

  lemma NotDigitAbsent(s: string, c: char)
    requires AllDigits(s) && !IsDigit(c)
    ensures c !in s
  {
  }

  /** Removing the separator from grouped digits gives the digits back. */
  lemma {:induction false} GroupRemove(ds: string, c: char)
    requires AllDigits(ds) && !IsDigit(c)
    ensures RemoveAll(Group(ds, [c]), c) == ds
    decreases |ds|
  {
    if |ds| <= 3 {
      NotDigitAbsent(ds, c);
      RemoveAllAbsent(ds, c);
    } else {
      var m := |ds| - 3;
      var pre, last := ds[..m], ds[m..];
      GroupRemove(pre, c);
      NotDigitAbsent(last, c);
      RemoveAllAbsent(last, c);
      RemoveAround(Group(pre, [c]), c, last);
      assert pre + last == ds;
    }
  }

  /** Removing c around one c between two texts joins what remains of them. */
  lemma RemoveAround(g: string, c: char, last: string)
    ensures RemoveAll(g + [c] + last, c) == RemoveAll(g, c) + RemoveAll(last, c)
  {
    var gc := g + [c];
    RemoveAllAppend(gc, last, c);
    RemoveAllAppend(g, [c], c);
    RemoveAllOne(c);
    assert RemoveAll(gc, c) == RemoveAll(g, c);
  }

  lemma RemoveAllOne(c: char)
    ensures RemoveAll([c], c) == []
  {
    assert [c][1..] == [];
  }

  /** One separator per full block of three digits left of the first block. */
  lemma {:induction false} GroupCount(ds: string, c: char)
    requires ds != [] && AllDigits(ds) && !IsDigit(c)
    ensures Count(Group(ds, [c]), c) == (|ds| - 1) / 3
    decreases |ds|
  {
    if |ds| <= 3 {
      NotDigitAbsent(ds, c);
    } else {
      var m := |ds| - 3;
      var pre, last := ds[..m], ds[m..];
      GroupCount(pre, c);
      var g := Group(pre, [c]);
      NotDigitAbsent(last, c);
      assert Count(last, c) == 0;
      CountAppend(g + [c], last, c);
      CountAppend(g, [c], c);
      assert [c][1..] == [];
      assert Count([c], c) == 1;
      BlocksStep(|pre|);
    }
  }

  lemma BlocksStep(k: nat)
    requires k >= 1
    ensures (k + 3 - 1) / 3 == (k - 1) / 3 + 1
  {
  }

  /** Grouped digits are digits and separators. */
  lemma {:induction false} GroupChars(ds: string, c: char)
    requires AllDigits(ds)
    ensures DigitsAnd(Group(ds, [c]), c)
    decreases |ds|
  {
    if |ds| > 3 {
      var m := |ds| - 3;
      GroupChars(ds[..m], c);
      DigitsAndAppend(Group(ds[..m], [c]), [c], c);
      DigitsAndAppend(Group(ds[..m], [c]) + [c], ds[m..], c);
    }
  }

  /** `\B` keeps the separator away from a leading `-`. */
  lemma GroupIntegerSigned(sign: string, ds: string, sep: string)
    requires sign == "" || sign == "-"
    requires ds != [] && AllDigits(ds)
    ensures GroupInteger(sign + ds, sep) == sign + Group(ds, sep)
  {
    if sign == "-" {
      assert (sign + ds)[1..] == ds;
    } else {
      assert sign + ds == ds;
    }
  }

  // ---------------------------------------------------------------------
  // The shape of the output.

  /** The decimal whose digits are printed: rounded half-up to the places, or canonical. */
  function Shown(d: Decimal, decimalPlaces: Option<nat>): Decimal {
    match decimalPlaces
    case Some(places) => RoundTo(d, places, RoundHalfUp)
    case None => Canonical(d)
  }

  function WholeDigits(b: Decimal): string {
    NatToDigits(Shifted(b.coefficient, b.scale))
  }

  function FractionDigits(b: Decimal): string {
    PadDigits(LowDigits(b.coefficient, b.scale), b.scale)
  }

  /** The fraction `formatDecimal` keeps: all digits, or the digits less trailing zeros. */
  function ShownFraction(b: Decimal, showTrailingZeros: bool): string {
    if showTrailingZeros then FractionDigits(b) else StripTrailingZeros(FractionDigits(b))
  }

  function Output(d: Decimal, options: FormatOptions): string {
    var b := Shown(d, options.decimalPlaces);
    var fraction := ShownFraction(b, options.showTrailingZeros);
    SignText(d) + Group(WholeDigits(b), options.thousandSeparator) +
      (if fraction == [] then [] else options.decimalSeparator + fraction)
  }

  lemma RenderedShape(d: Decimal, decimalPlaces: Option<nat>)
    ensures var b := Shown(d, decimalPlaces);
      Rendered(d, decimalPlaces) ==
        SignText(d) + WholeDigits(b) + (if b.scale == 0 then [] else "." + FractionDigits(b))
  {
    RenderedIsRender(d, decimalPlaces);
    RenderSplit(SignText(d), Shown(d, decimalPlaces));
  }

  lemma RenderedIsRender(d: Decimal, decimalPlaces: Option<nat>)
    ensures var b := Shown(d, decimalPlaces);
      Rendered(d, decimalPlaces) == SignText(d) + Render(b.coefficient, b.scale)
  {
    match decimalPlaces
    case Some(places) =>
      assert Shown(d, decimalPlaces).scale == places;
    case None =>
  }

  lemma RenderSplit(sign: string, b: Decimal)
    ensures sign + Render(b.coefficient, b.scale) ==
      sign + WholeDigits(b) + (if b.scale == 0 then [] else "." + FractionDigits(b))
  {
    var whole, fraction := WholeDigits(b), FractionDigits(b);
    if b.scale != 0 {
      assert sign + (whole + "." + fraction) == sign + whole + ("." + fraction);
    }
  }

  /**
   * The output is the sign (only for a nonzero negative value), the whole
   * digits grouped with the thousand separator, then the decimal
   * separator and the kept fraction, or nothing at all when the kept
   * fraction is empty. Without `showTrailingZeros` the fraction never ends
   * in `0`; with it and `decimalPlaces`, it has exactly that many digits.
   */
  lemma FormatShape(d: Decimal, options: FormatOptions)
    ensures FormatDecimal(Instance(d), options) == Output(d, options)
    ensures var fraction := ShownFraction(Shown(d, options.decimalPlaces), options.showTrailingZeros);
      !options.showTrailingZeros ==> fraction == [] || fraction[|fraction| - 1] != '0'
    ensures options.showTrailingZeros && options.decimalPlaces.Some? ==>
      |ShownFraction(Shown(d, options.decimalPlaces), true)| == options.decimalPlaces.value
  {
    var b := Shown(d, options.decimalPlaces);
    RenderedShape(d, options.decimalPlaces);
    FormatIsLayout(d, options);
    LayoutShape(SignText(d), WholeDigits(b), FractionDigits(b), options);
  }

  lemma FormatIsLayout(d: Decimal, options: FormatOptions)
    ensures FormatDecimal(Instance(d), options) == Layout(Rendered(d, options.decimalPlaces), options)
  {
  }

  /** Split, group and strip on sign, whole digits and an optional `.` fraction. */
  lemma LayoutShape(sign: string, whole: string, digits: string, options: FormatOptions)
    requires sign == "" || sign == "-"
    requires whole != [] && AllDigits(whole) && AllDigits(digits)
    ensures var kept := if options.showTrailingZeros then digits else StripTrailingZeros(digits);
      Layout(sign + whole + (if digits == [] then [] else "." + digits), options) ==
        sign + Group(whole, options.thousandSeparator) +
          (if kept == [] then [] else options.decimalSeparator + kept)
  {
    var formatted := sign + whole + (if digits == [] then [] else "." + digits);
    SplitAtPoint(sign, whole, digits);
    GroupIntegerSigned(sign, whole, options.thousandSeparator);
    LayoutOf(formatted, options, sign + whole, digits);
  }

  /** Layout once the text before and after the first `.` are known. */
  lemma LayoutOf(formatted: string, options: FormatOptions, integerPart: string, decimalPart: string)
    requires Before(formatted, '.') == integerPart && After(formatted, '.') == decimalPart
    ensures var kept := if options.showTrailingZeros then decimalPart else StripTrailingZeros(decimalPart);
      Layout(formatted, options) ==
        GroupInteger(integerPart, options.thousandSeparator) +
          (if kept == [] then [] else options.decimalSeparator + kept)
  {
    if decimalPart == [] {
      assert StripTrailingZeros(decimalPart) == [];
    }
  }

  /** The rendered text splits at its only `.`, if any. */
  lemma SplitAtPoint(sign: string, whole: string, digits: string)
    requires sign == "" || sign == "-"
    requires AllDigits(whole)
    ensures var formatted := sign + whole + (if digits == [] then [] else "." + digits);
      Before(formatted, '.') == sign + whole && After(formatted, '.') == digits
  {
    var formatted := sign + whole + (if digits == [] then [] else "." + digits);
    NoDotInDigits(whole);
    assert '.' !in sign + whole;
    if digits == [] {
      assert formatted == sign + whole;
      BeforeAfterAbsent(formatted, '.');
    } else {
      assert formatted == (sign + whole) + ['.'] + digits;
      BeforeAfterAt(sign + whole, '.', digits);
    }
  }

  // ---------------------------------------------------------------------
  // Reading the output back.

  /** The printed digits, with the fraction they stand for. */
  lemma ShownDigits(b: Decimal, show: bool)
    ensures AllDigits(WholeDigits(b) + ShownFraction(b, show))
    ensures Magnitude(b) ==
      DigitsToNat(WholeDigits(b) + ShownFraction(b, show)) as real / Pow10(|ShownFraction(b, show)|) as real
  {
    var kept := ShownFraction(b, show);
    CoefficientSplit(b, show);
    var n := DigitsToNat(WholeDigits(b) + kept);
    MagnitudeAt(Decimal(false, n, |kept|), b.scale);
  }

  /** The coefficient is the shown digits followed by the stripped zeros. */
  lemma CoefficientSplit(b: Decimal, show: bool)
    ensures |ShownFraction(b, show)| <= b.scale
    ensures AllDigits(WholeDigits(b) + ShownFraction(b, show))
    ensures b.coefficient ==
      DigitsToNat(WholeDigits(b) + ShownFraction(b, show)) * Pow10(b.scale - |ShownFraction(b, show)|)
  {
    WholeFractionValue(b);
    SplitZeros(WholeDigits(b), FractionDigits(b), ShownFraction(b, show));
  }

  /** Digits that differ from a prefix of them only by trailing zeros. */
  lemma SplitZeros(whole: string, digits: string, kept: string)
    requires AllDigits(whole) && AllDigits(digits)
    requires |kept| <= |digits| && kept == digits[..|kept|]
    requires forall i | |kept| <= i < |digits| :: digits[i] == '0'
    ensures AllDigits(whole + kept) && AllDigits(whole + digits)
    ensures DigitsToNat(whole + digits) == DigitsToNat(whole + kept) * Pow10(|digits| - |kept|)
  {
    var zeros := digits[|kept|..];
    assert digits == kept + zeros;
    DropZerosValue(whole, kept, zeros);
    assert whole + digits == (whole + kept) + zeros;
  }

  /** The whole digits followed by the padded fraction digits spell the coefficient. */
  lemma WholeFractionValue(b: Decimal)
    ensures AllDigits(WholeDigits(b) + FractionDigits(b))
    ensures DigitsToNat(WholeDigits(b) + FractionDigits(b)) == b.coefficient
  {
    DigitsToNatAppend(WholeDigits(b), FractionDigits(b));
    ModOfSmall(LowDigits(b.coefficient, b.scale), Pow10(b.scale));
    ShiftedRecombine(b.coefficient, b.scale);
  }

  /** Trailing zeros multiply the value of the digits before them by a power of ten. */
  lemma DropZerosValue(whole: string, kept: string, zeros: string)
    requires AllDigits(whole) && AllDigits(kept)
    requires forall i | 0 <= i < |zeros| :: zeros[i] == '0'
    ensures AllDigits(whole + kept) && AllDigits((whole + kept) + zeros)
    ensures DigitsToNat((whole + kept) + zeros) == DigitsToNat(whole + kept) * Pow10(|zeros|)
  {
    ZerosValue(zeros);
    DigitsToNatAppend(whole, kept);
    DigitsToNatAppend(whole + kept, zeros);
  }

  /** A zero coefficient stays zero when shown. */
  lemma ShownZero(d: Decimal, decimalPlaces: Option<nat>)
    requires d.coefficient == 0
    ensures Shown(d, decimalPlaces).coefficient == 0
  {
  }

  /** The sign written is the sign read, so the read value is that of the shown decimal. */
  lemma SignedMagnitude(d: Decimal, decimalPlaces: Option<nat>, m: real)
    requires m == Magnitude(Shown(d, decimalPlaces))
    ensures (if SignText(d) == "-" then -m else m) == Value(Shown(d, decimalPlaces))
  {
    if d.coefficient == 0 {
      ShownZero(d, decimalPlaces);
    }
  }

  /** The two separator pairs the application configures. */
  predicate SeparatorPair(t: char, m: char) {
    (t == '.' && m == ',') || (t == ',' && m == '.')
  }

  /**
   * Formatting with either separator pair and parsing the text back gives
   * the shown value (the input itself without `decimalPlaces`, the
   * half-up rounded value with it), provided the output keeps a fraction
   * or its whole part is below 1000.
   */
  lemma FormatParseRoundTrip(d: Decimal, decimalPlaces: Option<nat>, t: char, m: char, show: bool)
    requires SeparatorPair(t, m)
    requires var b := Shown(d, decimalPlaces);
      ShownFraction(b, show) != [] || Shifted(b.coefficient, b.scale) < 1000
    ensures var s := FormatDecimal(Instance(d), FormatOptions(decimalPlaces, [t], [m], show));
      (forall i | 0 <= i < |s| :: IsNumChar(s[i])) &&
      ParseDecimal(Text(s)).Some? &&
      Value(ParseDecimal(Text(s)).value) == Value(Shown(d, decimalPlaces))
    ensures var s := FormatDecimal(Instance(d), FormatOptions(decimalPlaces, [t], [m], show));
      (forall i | 0 <= i < |s| :: IsNumChar(s[i])) &&
      (decimalPlaces.None? ==> Value(ParseDecimal(Text(s)).value) == Value(d))
  {
    FormatShape(d, FormatOptions(decimalPlaces, [t], [m], show));
    ReadBack(d, decimalPlaces, t, m, show);
    ReadValue(d, decimalPlaces, show);
    if decimalPlaces.None? {
      CanonicalValue(d);
    }
  }

  /** The decimal read back from the shown digits has the shown value. */
  lemma ReadValue(d: Decimal, decimalPlaces: Option<nat>, show: bool)
    ensures var b := Shown(d, decimalPlaces);
      var kept := ShownFraction(b, show);
      Value(Decimal(SignText(d) == "-", DigitsToNat(WholeDigits(b) + kept), |kept|)) == Value(b)
  {
    var b := Shown(d, decimalPlaces);
    ShownDigits(b, show);
    SignedMagnitude(d, decimalPlaces, Magnitude(b));
  }

  /** The output text reads back as the shown digits at the shown fraction's length. */
  lemma ReadBack(d: Decimal, decimalPlaces: Option<nat>, t: char, m: char, show: bool)
    requires SeparatorPair(t, m)
    requires var b := Shown(d, decimalPlaces);
      ShownFraction(b, show) != [] || Shifted(b.coefficient, b.scale) < 1000
    ensures var b := Shown(d, decimalPlaces);
      var kept := ShownFraction(b, show);
      var s := Output(d, FormatOptions(decimalPlaces, [t], [m], show));
      AllDigits(WholeDigits(b) + kept) &&
      (forall i | 0 <= i < |s| :: IsNumChar(s[i])) &&
      ParseDecimal(Text(s)) == Some(Decimal(SignText(d) == "-", DigitsToNat(WholeDigits(b) + kept), |kept|))
  {
    var b := Shown(d, decimalPlaces);
    var whole, kept := WholeDigits(b), ShownFraction(b, show);
    KeptDigits(b, show);
    NatToDigitsLength(Shifted(b.coefficient, b.scale), 3);
    ReadBackText(SignText(d), whole, kept, t, m);
  }

  lemma ReadBackText(sign: string, whole: string, kept: string, t: char, m: char)
    requires sign == "" || sign == "-"
    requires SeparatorPair(t, m)
    requires whole != [] && AllDigits(whole) && AllDigits(kept)
    requires kept != [] || |whole| <= 3
    ensures AllDigits(whole + kept)
    ensures var s := sign + Group(whole, [t]) + (if kept == [] then [] else [m] + kept);
      (forall i | 0 <= i < |s| :: IsNumChar(s[i])) &&
      ParseDecimal(Text(s)) == Some(Decimal(sign == "-", DigitsToNat(whole + kept), |kept|))
  {
    AllDigitsAppend(whole, kept);
    if kept != [] {
      ReadBackFraction(sign, whole, kept, t, m);
    } else {
      assert whole + kept == whole;
      assert sign + Group(whole, [t]) + [] == sign + Group(whole, [t]);
      ReadBackWhole(sign, whole, t);
    }
  }

  lemma KeptDigits(b: Decimal, show: bool)
    ensures AllDigits(ShownFraction(b, show))
  {
    var digits := FractionDigits(b);
    var kept := ShownFraction(b, show);
    assert kept == digits[..|kept|];
  }

  lemma ReadBackFraction(sign: string, whole: string, kept: string, t: char, m: char)
    requires sign == "" || sign == "-"
    requires SeparatorPair(t, m)
    requires whole != [] && AllDigits(whole) && kept != [] && AllDigits(kept)
    ensures var s := sign + Group(whole, [t]) + ([m] + kept);
      (forall i | 0 <= i < |s| :: IsNumChar(s[i])) &&
      ParseDecimal(Text(s)) == Some(Decimal(sign == "-", DigitsToNat(whole + kept), |kept|))
  {
    var x := Group(whole, [t]);
    assert sign + x + ([m] + kept) == sign + x + [m] + kept;
    GroupChars(whole, t);
    GroupRemove(whole, t);
    assert t == Other(m);
    ParseSeparated(sign + x + ([m] + kept), sign, x, m, kept);
  }

  lemma ReadBackWhole(sign: string, whole: string, t: char)
    requires sign == "" || sign == "-"
    requires whole != [] && AllDigits(whole) && |whole| <= 3
    ensures var s := sign + Group(whole, [t]);
      (forall i | 0 <= i < |s| :: IsNumChar(s[i])) &&
      ParseDecimal(Text(s)) == Some(Decimal(sign == "-", DigitsToNat(whole), 0))
  {
    assert Group(whole, [t]) == whole;
    ParseInteger(sign, whole);
  }

  /**
   * The trap: an integer from 1000 to 999999 is written with the default
   * options as digits, `.`, three digits, with no decimal separator, and
   * `parseDecimal` takes that lone `.` as the decimal mark: the text reads
   * back as the integer divided by 1000.
   */
  lemma ThousandsMisread(n: nat)
    requires 1000 <= n < 1000000
    ensures var s := FormatDecimal(Instance(Decimal(false, n, 0)), DefaultFormat);
      (forall i | 0 <= i < |s| :: IsNumChar(s[i])) &&
      ParseDecimal(Text(s)) == Some(Decimal(false, n, 3)) &&
      Value(Decimal(false, n, 3)) != Value(Decimal(false, n, 0))
  {
    var pre, x, f := IntegerOutput(n);
    ThousandsParse(n, pre, f);
    ThousandthValue(n);
  }

  /** Digits, a lone `.`, three digits: `parseDecimal` reads three decimal places. */
  lemma ThousandsParse(n: nat, pre: string, f: string)
    requires pre + f == NatToDigits(n) && pre != [] && AllDigits(pre) && AllDigits(f) && |f| == 3
    ensures var s := pre + "." + f;
      (forall i | 0 <= i < |s| :: IsNumChar(s[i])) &&
      ParseDecimal(Text(s)) == Some(Decimal(false, n, 3))
  {
    NotDigitAbsent(pre, ',');
    RemoveAllAbsent(pre, ',');
    UnsignedText(pre, '.', f);
    ParseSeparated(pre + "." + f, "", pre, '.', f);
  }

  /**
   * With the default options an integer of four or more digits is written
   * as its leading digits grouped by `.`, a `.`, and its last three digits.
   */
  lemma IntegerOutput(n: nat) returns (pre: string, x: string, f: string)
    requires n >= 1000
    ensures FormatDecimal(Instance(Decimal(false, n, 0)), DefaultFormat) == x + "." + f
    ensures pre + f == NatToDigits(n) && pre != [] && AllDigits(pre) && AllDigits(f) && |f| == 3
    ensures x == Group(pre, ".")
    ensures n < 1000000 ==> x == pre
    ensures n >= 1000000 ==> |pre| > 3
  {
    var whole := NatToDigits(n);
    IntegerFormat(n);
    NatToDigitsLength(n, 3);
    NatToDigitsLength(n, 6);
    var k := |whole| - 3;
    pre, f := whole[..k], whole[k..];
    x := Group(pre, ".");
    assert Group(whole, ".") == x + "." + f;
    assert pre + f == whole;
  }

  /** With the default options an integer is written as its digits grouped by `.`. */
  lemma IntegerFormat(n: nat)
    ensures FormatDecimal(Instance(Decimal(false, n, 0)), DefaultFormat) == Group(NatToDigits(n), ".")
  {
    var d := Decimal(false, n, 0);
    FormatShape(d, DefaultFormat);
    IntegerShown(n);
  }

  lemma IntegerShown(n: nat)
    ensures Output(Decimal(false, n, 0), DefaultFormat) == Group(NatToDigits(n), ".")
  {
    var d := Decimal(false, n, 0);
    assert Canonical(d) == d;
    assert Shifted(n, 0) == n;
    assert WholeDigits(d) == NatToDigits(n);
    assert FractionDigits(d) == [];
    assert ShownFraction(d, false) == [];
  }

  lemma ThousandthValue(n: nat)
    requires n > 0
    ensures Value(Decimal(false, n, 3)) != Value(Decimal(false, n, 0))
  {
    assert Pow10(3) == 1000;
    assert Magnitude(Decimal(false, n, 3)) == n as real / 1000.0;
  }

  /** From 10^6 on, the default output has two `.` and does not parse at all. */
  lemma MillionsRejected(n: nat)
    requires n >= 1000000
    ensures var s := FormatDecimal(Instance(Decimal(false, n, 0)), DefaultFormat);
      (forall i | 0 <= i < |s| :: IsNumChar(s[i])) &&
      ParseDecimal(Text(s)) == None
  {
    var pre, x, f := IntegerOutput(n);
    TwoPoints(pre, x, f);
    ParseRejectsRepeatedMark(x + "." + f, '.');
  }

  /** Past a million the grouped digits carry a second `.`, and no `,`. */
  lemma TwoPoints(pre: string, x: string, f: string)
    requires AllDigits(pre) && |pre| > 3 && x == Group(pre, ".")
    requires AllDigits(f)
    ensures var s := x + "." + f;
      (forall i | 0 <= i < |s| :: IsNumChar(s[i])) &&
      LastIndexOf(Trim(s), ',') < LastIndexOf(Trim(s), '.') && Count(Trim(s), '.') >= 2
  {
    var s := x + "." + f;
    GroupChars(pre, '.');
    GroupCount(pre, '.');
    DigitsAndAppend(x, ".", '.');
    DigitsAndAppend(x + ".", f, '.');
    assert forall i | 0 <= i < |s| :: IsNumChar(s[i]) && s[i] != ' ' && s[i] != ',';
    TrimNoSpace(s);
    CountAppend(x, ".", '.');
    CountAppend(x + ".", f, '.');
    assert LastIndexOf(s, ',') == -1;
    assert s[|x|] == '.';
  }
}
