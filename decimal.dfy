/**
 * src/utils/decimal.ts: the fail-closed wrappers around decimal.js that the
 * rest of the application calls — the locale-tolerant parser, the
 * formatter, arithmetic, comparisons, rounding, sign predicates and the
 * aggregates over lists of values.
 */
module DecimalUtils {
  import opened Wrappers
  import opened Digits
  import opened Strings
  import opened DecimalJs

  /** The characters a textual amount is made of in this model. */
  predicate IsNumChar(c: char) {
    IsDigit(c) || c == '.' || c == ',' || c == '+' || c == '-' || c == ' '
  }

  type NumText = s: string | forall i | 0 <= i < |s| :: IsNumChar(s[i])

  /** What the wrappers accept: `null`/`undefined`, a string, or a Decimal instance. */
  datatype Input = Missing | Text(text: NumText) | Instance(dec: Decimal)

  // ---------------------------------------------------------------------
  // Parsing (decimal.ts:19-68).

  /**
   * The separator rewrite before `new Decimal`: when both `.` and `,` occur
   * the later kind is the decimal mark and the other kind is deleted; a
   * lone `,` is the decimal mark; a lone `.` is kept.
   */
  function Normalize(str: string): string {
    var lastDot := LastIndexOf(str, '.');
    var lastComma := LastIndexOf(str, ',');
    if lastDot > -1 && lastComma > -1 then
      if lastDot > lastComma then RemoveAll(str, ',')
      else ReplaceFirst(RemoveAll(str, '.'), ',', '.')
    else if lastComma > -1 then ReplaceFirst(RemoveAll(str, '.'), ',', '.')
    else if lastDot > -1 then RemoveAll(str, ',')
    else str
  }

  /** `parseDecimal`: None stands for `null`, including the thrown-and-caught parse error. */
  function ParseDecimal(value: Input): (r: Option<Decimal>)
    ensures value.Missing? ==> r.None?
    ensures value.Instance? ==> r == Some(value.dec)
    ensures value.Text? && r.Some? ==>
              var t := Trim(value.text); t != "" && t != "-" && ' ' !in t
  {
    match value
    case Missing => None
    case Instance(d) => Some(d)
    case Text(s) =>
      if s == "" then None
      else
        var str := Trim(s);
        if str == "" || str == "-" then None
        else
          var r := ParseLiteral(Normalize(str));
          NormalizeKeepsSpace(str);
          r
  }

  /** A space survives the separator rewrite, so decimal.js sees it and throws. */
  lemma NormalizeKeepsSpace(str: string)
    ensures ' ' in str ==> ' ' in Normalize(str)
  {
    if ' ' in str {
      var noDots := RemoveAll(str, '.');
      RemoveAllKeeps(str, '.', ' ');
      RemoveAllKeeps(str, ',', ' ');
      ReplaceFirstKeeps(noDots, ',', '.', ' ');
    }
  }

  /**
   * `isValid`: a missing value never is, a Decimal instance always is, and
   * valid text trims to something other than `""` and `-` with no space
   * inside. DecimalParseFacts.IsValidForms names the texts that are valid.
   */
  function IsValid(value: Input): (b: bool)
    ensures value.Missing? ==> !b
    ensures value.Instance? ==> b
    ensures value.Text? && b ==>
              var t := Trim(value.text); t != "" && t != "-" && ' ' !in t
  {
    ParseDecimal(value) != None
  }

  // ---------------------------------------------------------------------
  // Formatting (decimal.ts:76-122).

  /** The options of `formatDecimal`; a None `decimalPlaces` means `toString`. */
  datatype FormatOptions = FormatOptions(
    decimalPlaces: Option<nat>,
    thousandSeparator: string,
    decimalSeparator: string,
    showTrailingZeros: bool)

  /** The defaults: no rounding, `.` for thousands, `,` for decimals, trailing zeros dropped. */
  const DefaultFormat := FormatOptions(None, ".", ",", false)

  /**
   * Digit grouping: sep goes before every block of three digits counted
   * from the right, except at the front.
   */
  function Group(ds: string, sep: string): string
    decreases |ds|
  {
    if |ds| <= 3 then ds
    else Group(ds[..|ds| - 3], sep) + sep + ds[|ds| - 3..]
  }

  /**
   * `integerPart.replace(/\B(?=(\d{3})+(?!\d))/g, sep)` on an integer part
   * of the form `-`? digits: `\B` never matches between `-` and the first
   * digit, so the sign is left alone.
   */
  function GroupInteger(integerPart: string, sep: string): string {
    if |integerPart| > 0 && integerPart[0] == '-' then "-" + Group(integerPart[1..], sep)
    else Group(integerPart, sep)
  }

  /** The text decimal.js renders before any grouping: `toFixed(places, ROUND_HALF_UP)` or `toString()`. */
  function Rendered(d: Decimal, decimalPlaces: Option<nat>): string {
    match decimalPlaces
    case Some(places) => ToFixed(d, places, RoundHalfUp)
    case None => ToString(d)
  }

  /** Split at the `.`, group the integer part, strip fractional zeros, join. */
  function Layout(formatted: string, options: FormatOptions): string {
    var integerPart := Before(formatted, '.');
    var decimalPart := After(formatted, '.');
    var formattedInteger := GroupInteger(integerPart, options.thousandSeparator);
    var formattedDecimal :=
      if !options.showTrailingZeros && decimalPart != [] then StripTrailingZeros(decimalPart)
      else decimalPart;
    if formattedDecimal != [] then formattedInteger + options.decimalSeparator + formattedDecimal
    else formattedInteger
  }

  /** `formatDecimal`: `""` exactly when the input does not parse. */
  function FormatDecimal(value: Input, options: FormatOptions): (r: string)
    ensures r == "" <==> ParseDecimal(value).None?
  {
    match ParseDecimal(value)
    case None => ""
    case Some(d) =>
      var formatted := Rendered(d, options.decimalPlaces);
      RenderedStartsWithDigit(d, options.decimalPlaces);
      LayoutNonEmpty(formatted, options);
      Layout(formatted, options)
  }

  /** What decimal.js renders starts with `-` or a digit, never with the `.`. */
  lemma RenderedStartsWithDigit(d: Decimal, decimalPlaces: Option<nat>)
    ensures var f := Rendered(d, decimalPlaces); f != [] && f[0] != '.' && (f[0] == '-' || IsDigit(f[0]))
  {
    var r := if decimalPlaces.Some? then RoundTo(d, decimalPlaces.value, RoundHalfUp) else Canonical(d);
    var scale := if decimalPlaces.Some? then decimalPlaces.value else r.scale;
    var body := Render(r.coefficient, scale);
    assert Rendered(d, decimalPlaces) == SignText(d) + body;
    assert body[0] == NatToDigits(Shifted(r.coefficient, scale))[0];
  }

  lemma LayoutNonEmpty(f: string, options: FormatOptions)
    requires f != [] && f[0] != '.'
    ensures Layout(f, options) != []
  {
    var integerPart := Before(f, '.');
    assert IndexOf(f, '.') > 0;
    assert integerPart != [];
    GroupNonEmpty(if integerPart[0] == '-' then integerPart[1..] else integerPart, options.thousandSeparator);
  }

  lemma GroupNonEmpty(ds: string, sep: string)
    ensures ds != [] ==> Group(ds, sep) != []
  {
  }

  // ---------------------------------------------------------------------
  // Arithmetic (decimal.ts:127-182).

  /** `add`: None when either operand does not parse. */
  function Add(a: Input, b: Input): (r: Option<Decimal>)
    ensures r.None? <==> ParseDecimal(a).None? || ParseDecimal(b).None?
    ensures r.Some? ==> Value(r.value) == Value(ParseDecimal(a).value) + Value(ParseDecimal(b).value)
  {
    Added(ParseDecimal(a), ParseDecimal(b))
  }

  /** The sum of two parse results, None when either is. */
  function Added(x: Option<Decimal>, y: Option<Decimal>): (r: Option<Decimal>)
    ensures r.None? <==> x.None? || y.None?
    ensures r.Some? ==> Value(r.value) == Value(x.value) + Value(y.value)
  {
    match (x, y)
    case (Some(x), Some(y)) => PlusValue(x, y); Some(Plus(x, y))
    case _ => None
  }

  /** `subtract`. */
  function Subtract(a: Input, b: Input): (r: Option<Decimal>)
    ensures r.None? <==> ParseDecimal(a).None? || ParseDecimal(b).None?
    ensures r.Some? ==> Value(r.value) == Value(ParseDecimal(a).value) - Value(ParseDecimal(b).value)
  {
    Difference(ParseDecimal(a), ParseDecimal(b))
  }

  /** The difference of two parse results, None when either is. */
  function Difference(x: Option<Decimal>, y: Option<Decimal>): (r: Option<Decimal>)
    ensures r.None? <==> x.None? || y.None?
    ensures r.Some? ==> Value(r.value) == Value(x.value) - Value(y.value)
  {
    match (x, y)
    case (Some(x), Some(y)) => MinusValue(x, y); Some(Minus(x, y))
    case _ => None
  }

  /** `multiply`. */
  function Multiply(a: Input, b: Input): (r: Option<Decimal>)
    ensures r.None? <==> ParseDecimal(a).None? || ParseDecimal(b).None?
    ensures r.Some? ==> Value(r.value) == Value(ParseDecimal(a).value) * Value(ParseDecimal(b).value)
  {
    Product(ParseDecimal(a), ParseDecimal(b))
  }

  /** The product of two parse results, None when either is. */
  function Product(x: Option<Decimal>, y: Option<Decimal>): (r: Option<Decimal>)
    ensures r.None? <==> x.None? || y.None?
    ensures r.Some? ==> Value(r.value) == Value(x.value) * Value(y.value)
  {
    match (x, y)
    case (Some(x), Some(y)) => TimesValue(x, y); Some(Times(x, y))
    case _ => None
  }

  /** `divide`, as the exact quotient: None also when the divisor is zero. */
  function Divide(a: Input, b: Input): (r: Option<real>)
    ensures r.None? <==> ParseDecimal(a).None? || ParseDecimal(b).None? || Value(ParseDecimal(b).value) == 0.0
    ensures r.Some? ==> r.value * Value(ParseDecimal(b).value) == Value(ParseDecimal(a).value)
  {
    Quotient(ParseDecimal(a), ParseDecimal(b))
  }

  /** The exact quotient of two parse results, None when either is or the divisor is zero. */
  function Quotient(x: Option<Decimal>, y: Option<Decimal>): (r: Option<real>)
    ensures r.None? <==> x.None? || y.None? || Value(y.value) == 0.0
    ensures r.Some? ==> r.value * Value(y.value) == Value(x.value)
  {
    match (x, y)
    case (Some(x), Some(y)) =>
      SignPredicates(y);
      if IsZero(y) then None else Some(Value(x) / Value(y))
    case _ => None
  }

  // ---------------------------------------------------------------------
  // Comparisons (decimal.ts:187-257): false whenever either side does not parse.

  predicate BothParse(a: Input, b: Input) {
    ParseDecimal(a).Some? && ParseDecimal(b).Some?
  }

  /** `greaterThan`. */
  function GreaterThan(a: Input, b: Input): (r: bool)
    ensures r <==> BothParse(a, b) && Value(ParseDecimal(a).value) > Value(ParseDecimal(b).value)
  {
    match (ParseDecimal(a), ParseDecimal(b))
    case (Some(x), Some(y)) => CmpValue(x, y); Cmp(x, y) > 0
    case _ => false
  }

  /** `greaterThanOrEqual`. */
  function GreaterThanOrEqual(a: Input, b: Input): (r: bool)
    ensures r <==> BothParse(a, b) && Value(ParseDecimal(a).value) >= Value(ParseDecimal(b).value)
  {
    match (ParseDecimal(a), ParseDecimal(b))
    case (Some(x), Some(y)) => CmpValue(x, y); Cmp(x, y) >= 0
    case _ => false
  }

  /** `lessThan`. */
  function LessThan(a: Input, b: Input): (r: bool)
    ensures r <==> BothParse(a, b) && Value(ParseDecimal(a).value) < Value(ParseDecimal(b).value)
  {
    match (ParseDecimal(a), ParseDecimal(b))
    case (Some(x), Some(y)) => CmpValue(x, y); Cmp(x, y) < 0
    case _ => false
  }

  /** `lessThanOrEqual`. */
  function LessThanOrEqual(a: Input, b: Input): (r: bool)
    ensures r <==> BothParse(a, b) && Value(ParseDecimal(a).value) <= Value(ParseDecimal(b).value)
  {
    match (ParseDecimal(a), ParseDecimal(b))
    case (Some(x), Some(y)) => CmpValue(x, y); Cmp(x, y) <= 0
    case _ => false
  }

  /** `equals`: equal values, so 0 equals -0. */
  function Equals(a: Input, b: Input): (r: bool)
    ensures r <==> BothParse(a, b) && Value(ParseDecimal(a).value) == Value(ParseDecimal(b).value)
  {
    match (ParseDecimal(a), ParseDecimal(b))
    case (Some(x), Some(y)) => CmpValue(x, y); Cmp(x, y) == 0
    case _ => false
  }

  // ---------------------------------------------------------------------
  // Rounding and absolute value (decimal.ts:262-310).

  /** `round(value, places)`: ROUND_HALF_UP, ties away from zero. */
  function Round(value: Input, places: nat): (r: Option<Decimal>)
    ensures r.None? <==> ParseDecimal(value).None?
    ensures r.Some? ==>
              var d := ParseDecimal(value).value;
              r.value.scale == places && r.value.negative == d.negative &&
              Magnitude(r.value) - Ulp(places) / 2.0 <= Magnitude(d) < Magnitude(r.value) + Ulp(places) / 2.0
  {
    match ParseDecimal(value)
    case None => None
    case Some(d) => RoundToBounds(d, places, RoundHalfUp); Some(RoundTo(d, places, RoundHalfUp))
  }

  /** `floor(value, places)`: ROUND_DOWN, so toward zero, not toward minus infinity. */
  function Floor(value: Input, places: nat): (r: Option<Decimal>)
    ensures r.None? <==> ParseDecimal(value).None?
    ensures r.Some? ==>
              var d := ParseDecimal(value).value;
              r.value.scale == places && r.value.negative == d.negative &&
              Magnitude(r.value) <= Magnitude(d) < Magnitude(r.value) + Ulp(places)
  {
    match ParseDecimal(value)
    case None => None
    case Some(d) => RoundToBounds(d, places, RoundDown); Some(RoundTo(d, places, RoundDown))
  }

  /** `ceil(value, places)`: ROUND_UP, so away from zero, not toward plus infinity. */
  function Ceil(value: Input, places: nat): (r: Option<Decimal>)
    ensures r.None? <==> ParseDecimal(value).None?
    ensures r.Some? ==>
              var d := ParseDecimal(value).value;
              r.value.scale == places && r.value.negative == d.negative &&
              Magnitude(r.value) - Ulp(places) < Magnitude(d) <= Magnitude(r.value)
  {
    match ParseDecimal(value)
    case None => None
    case Some(d) => RoundToBounds(d, places, RoundUp); Some(RoundTo(d, places, RoundUp))
  }

  /** `abs`. */
  function AbsOf(value: Input): (r: Option<Decimal>)
    ensures r.None? <==> ParseDecimal(value).None?
    ensures r.Some? ==> (!r.value.negative &&
              Value(r.value) == (var v := Value(ParseDecimal(value).value); if v < 0.0 then -v else v))
  {
    match ParseDecimal(value)
    case None => None
    case Some(d) => AbsValue(d); Some(Abs(d))
  }

  // ---------------------------------------------------------------------
  // Predicates (decimal.ts:315-350): false on unparsable input.

  /** `isZero`. */
  function IsZeroOf(value: Input): (r: bool)
    ensures r <==> ParseDecimal(value).Some? && Value(ParseDecimal(value).value) == 0.0
  {
    match ParseDecimal(value)
    case None => false
    case Some(d) => SignPredicates(d); IsZero(d)
  }

  /** `isPositive`: decimal.js reads the sign bit, so a parsed "0" is positive. */
  function IsPositiveOf(value: Input): (r: bool)
    ensures r <==> ParseDecimal(value).Some? && !ParseDecimal(value).value.negative
    ensures r ==> Value(ParseDecimal(value).value) >= 0.0
  {
    match ParseDecimal(value)
    case None => false
    case Some(d) => SignPredicates(d); IsPositive(d)
  }

  /** `isNegative`: the sign bit, so a parsed "-0" is negative. */
  function IsNegativeOf(value: Input): (r: bool)
    ensures r <==> ParseDecimal(value).Some? && ParseDecimal(value).value.negative
    ensures r ==> Value(ParseDecimal(value).value) <= 0.0
  {
    match ParseDecimal(value)
    case None => false
    case Some(d) => SignPredicates(d); IsNegative(d)
  }

  // ---------------------------------------------------------------------
  // Aggregates (decimal.ts:367-441).

  predicate AllValid(values: seq<Input>) {
    forall i | 0 <= i < |values| :: ParseDecimal(values[i]).Some?
  }

  /** Zero plus every element, left to right, as `sum`'s loop adds them. */
  function Total(values: seq<Input>): Decimal
    requires AllValid(values)
  {
    if values == [] then Zero
    else Plus(Total(values[..|values| - 1]), ParseDecimal(values[|values| - 1]).value)
  }

  /** The specification of `sum`: None as soon as one element does not parse. */
  function SumOf(values: seq<Input>): Option<Decimal> {
    if AllValid(values) then Some(Total(values)) else None
  }

  /** The exact sum of the elements' values. */
  function ValueSum(values: seq<Input>): real
    requires AllValid(values)
  {
    if values == [] then 0.0
    else ValueSum(values[..|values| - 1]) + Value(ParseDecimal(values[|values| - 1]).value)
  }

  /** `sum`. */
  method Sum(values: seq<Input>) returns (r: Option<Decimal>)
    ensures r == SumOf(values)
  {
    if |values| == 0 {
      return Some(Zero);
    }
    var result := Zero;
    for i := 0 to |values|
      invariant AllValid(values[..i]) && result == Total(values[..i])
    {
      var decimal := ParseDecimal(values[i]);
      if decimal.None? {
        return None;
      }
      TotalStep(values, i);
      result := Plus(result, decimal.value);
    }
    assert values[..|values|] == values;
    return Some(result);
  }

  /** One more element of the loop: the prefix total grows by that element. */
  lemma TotalStep(values: seq<Input>, i: nat)
    requires i < |values| && AllValid(values[..i]) && ParseDecimal(values[i]).Some?
    ensures AllValid(values[..i + 1])
    ensures Total(values[..i + 1]) == Plus(Total(values[..i]), ParseDecimal(values[i]).value)
  {
    var prefix := values[..i + 1];
    assert prefix[..i] == values[..i];
    assert prefix[i] == values[i];
    forall j | 0 <= j < i + 1
      ensures ParseDecimal(prefix[j]).Some?
    {
      if j < i {
        assert prefix[j] == values[..i][j];
      }
    }
  }

  /** `average`: the exact mean, None for an empty list or an unparsable element. */
  method Average(values: seq<Input>) returns (r: Option<real>)
    ensures r.None? <==> |values| == 0 || !AllValid(values)
    ensures r.Some? ==> AllValid(values) && r.value == ValueSum(values) / |values| as real
  {
    if |values| == 0 {
      return None;
    }
    var total := Sum(values);
    if total == None {
      return None;
    }
    TotalValue(values);
    return Some(Value(total.value) / |values| as real);
  }

  /** The decimal the loop accumulates has the exact sum as its value. */
  lemma {:induction false} TotalValue(values: seq<Input>)
    requires AllValid(values)
    ensures Value(Total(values)) == ValueSum(values)
  {
    if values != [] {
      var init := values[..|values| - 1];
      TotalValue(init);
      PlusValue(Total(init), ParseDecimal(values[|values| - 1]).value);
    }
  }

  /** What `parseDecimal` makes of each element. */
  function Parsed(values: seq<Input>): (r: seq<Option<Decimal>>)
    ensures |r| == |values|
  {
    seq(|values|, i requires 0 <= i < |values| => ParseDecimal(values[i]))
  }

  /** Element i parses to d. */
  predicate ParsesTo(parsed: seq<Option<Decimal>>, i: int, d: Decimal) {
    0 <= i < |parsed| && parsed[i] == Some(d)
  }

  /**
   * The loop state of `max` (sign 1) or `min` (sign -1) after the first n
   * elements: None when none of them parses, otherwise the first parsed
   * element that no parsed element beats in the direction of `sign`.
   */
  predicate IsExtremeOf(values: seq<Input>, n: nat, sign: int, m: Option<Decimal>)
    requires n <= |values|
  {
    ExtremeAmong(Parsed(values), n, sign, m)
  }

  /** `IsExtremeOf` over the parse results. */
  predicate ExtremeAmong(parsed: seq<Option<Decimal>>, n: nat, sign: int, m: Option<Decimal>)
    requires n <= |parsed|
  {
    (m.None? <==> forall j | 0 <= j < n :: parsed[j].None?) &&
    (m.Some? ==>
       (exists k | 0 <= k < n :: ParsesTo(parsed, k, m.value) &&
          forall j | 0 <= j < k && parsed[j].Some? :: sign * Cmp(parsed[j].value, m.value) < 0) &&
       forall j | 0 <= j < n && parsed[j].Some? :: sign * Cmp(parsed[j].value, m.value) <= 0)
  }

  /** The loop step of `max`/`min`: replace the best so far only on a strict improvement. */
  function Better(sign: int, m: Option<Decimal>, decimal: Option<Decimal>): Option<Decimal> {
    if decimal.None? then m
    else if m.None? || sign * Cmp(decimal.value, m.value) > 0 then decimal
    else m
  }

  lemma ExtremeStep(values: seq<Input>, i: nat, sign: int, m: Option<Decimal>)
    requires i < |values| && (sign == 1 || sign == -1) && IsExtremeOf(values, i, sign, m)
    ensures IsExtremeOf(values, i + 1, sign, Better(sign, m, ParseDecimal(values[i])))
  {
    ExtremeAmongStep(Parsed(values), i, sign, m);
  }

  lemma ExtremeAmongStep(parsed: seq<Option<Decimal>>, i: nat, sign: int, m: Option<Decimal>)
    requires i < |parsed| && (sign == 1 || sign == -1) && ExtremeAmong(parsed, i, sign, m)
    ensures ExtremeAmong(parsed, i + 1, sign, Better(sign, m, parsed[i]))
  {
    var decimal := parsed[i];
    if decimal.None? {
      SkipStep(parsed, i, sign, m);
    } else if m.None? {
      FirstStep(parsed, i, sign);
    } else if sign * Cmp(decimal.value, m.value) > 0 {
      ImproveStep(parsed, i, sign, m.value);
    } else {
      KeepStep(parsed, i, sign, m.value);
    }
  }

  /** An element that does not parse leaves the best so far in place. */
  lemma SkipStep(parsed: seq<Option<Decimal>>, i: nat, sign: int, m: Option<Decimal>)
    requires i < |parsed| && parsed[i].None? && ExtremeAmong(parsed, i, sign, m)
    ensures ExtremeAmong(parsed, i + 1, sign, m)
  {
    if m.Some? {
      var k :| 0 <= k < i && ParsesTo(parsed, k, m.value) &&
        forall j | 0 <= j < k && parsed[j].Some? :: sign * Cmp(parsed[j].value, m.value) < 0;
    }
  }

  /** The first element that parses becomes the best so far. */
  lemma FirstStep(parsed: seq<Option<Decimal>>, i: nat, sign: int)
    requires i < |parsed| && parsed[i].Some? && ExtremeAmong(parsed, i, sign, None)
    ensures ExtremeAmong(parsed, i + 1, sign, parsed[i])
  {
    CmpReflexive(parsed[i].value);
    assert ParsesTo(parsed, i, parsed[i].value);
  }

  /** A strictly better element replaces the best so far. */
  lemma ImproveStep(parsed: seq<Option<Decimal>>, i: nat, sign: int, m: Decimal)
    requires i < |parsed| && (sign == 1 || sign == -1) && parsed[i].Some?
    requires ExtremeAmong(parsed, i, sign, Some(m)) && sign * Cmp(parsed[i].value, m) > 0
    ensures ExtremeAmong(parsed, i + 1, sign, parsed[i])
  {
    var d := parsed[i].value;
    CmpReflexive(d);
    forall j | 0 <= j < i && parsed[j].Some?
      ensures sign * Cmp(parsed[j].value, d) < 0
    {
      SignedBelow(parsed[j].value, m, d, sign);
    }
    assert ParsesTo(parsed, i, d);
  }

  /** What is no better than m is strictly worse than anything strictly better than m. */
  lemma SignedBelow(x: Decimal, m: Decimal, d: Decimal, sign: int)
    requires (sign == 1 || sign == -1) && sign * Cmp(x, m) <= 0 && sign * Cmp(d, m) > 0
    ensures sign * Cmp(x, d) < 0
  {
    CmpValue(x, d);
    CmpValue(x, m);
    CmpValue(d, m);
  }

  /** An element that is not strictly better leaves the best so far in place. */
  lemma KeepStep(parsed: seq<Option<Decimal>>, i: nat, sign: int, m: Decimal)
    requires i < |parsed| && (sign == 1 || sign == -1) && parsed[i].Some?
    requires ExtremeAmong(parsed, i, sign, Some(m)) && sign * Cmp(parsed[i].value, m) <= 0
    ensures ExtremeAmong(parsed, i + 1, sign, Some(m))
  {
    var k :| 0 <= k < i && ParsesTo(parsed, k, m) &&
      forall j | 0 <= j < k && parsed[j].Some? :: sign * Cmp(parsed[j].value, m) < 0;
  }

  /**
   * `max`: skips unparsable elements; None when none parses; otherwise
   * the first element whose value no other element exceeds.
   */
  method Max(values: seq<Input>) returns (r: Option<Decimal>)
    ensures IsExtremeOf(values, |values|, 1, r)
  {
    if |values| == 0 {
      return None;
    }
    var maxValue: Option<Decimal> := None;
    for i := 0 to |values|
      invariant IsExtremeOf(values, i, 1, maxValue)
    {
      var decimal := ParseDecimal(values[i]);
      ExtremeStep(values, i, 1, maxValue);
      if decimal.None? {
        continue;
      }
      if maxValue.None? || Cmp(decimal.value, maxValue.value) > 0 {
        maxValue := decimal;
      }
    }
    return maxValue;
  }

  /**
   * `min`: skips unparsable elements; None when none parses; otherwise
   * the first element whose value no other element undercuts.
   */
  method Min(values: seq<Input>) returns (r: Option<Decimal>)
    ensures IsExtremeOf(values, |values|, -1, r)
  {
    if |values| == 0 {
      return None;
    }
    var minValue: Option<Decimal> := None;
    for i := 0 to |values|
      invariant IsExtremeOf(values, i, -1, minValue)
    {
      var decimal := ParseDecimal(values[i]);
      ExtremeStep(values, i, -1, minValue);
      if decimal.None? {
        continue;
      }
      if minValue.None? || Cmp(decimal.value, minValue.value) < 0 {
        minValue := decimal;
      }
    }
    return minValue;
  }
}
