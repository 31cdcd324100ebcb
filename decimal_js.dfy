/**
 * The part of decimal.js that src/utils/decimal.ts relies on, as this
 * project configures it (no exponential notation): the value a `Decimal`
 * holds, the string grammar of `new Decimal(text)`, `toString`, `toFixed`,
 * `toDecimalPlaces` under three rounding modes, `plus`, `minus`, `times`,
 * `cmp`, the sign predicates and `abs`.
 */
module DecimalJs {
  import opened Wrappers
  import opened Digits
  import opened Strings

  /**
   * The number (-1)^negative * coefficient / 10^scale. The sign is kept for
   * zero, so -0 (as read from "-0") is a value of its own.
   */
  datatype Decimal = Decimal(negative: bool, coefficient: nat, scale: nat)

  /** `new Decimal(0)`. */
  const Zero := Decimal(false, 0, 0)

  function Magnitude(d: Decimal): real {
    d.coefficient as real / Pow10(d.scale) as real
  }

  function Value(d: Decimal): real {
    if d.negative then -Magnitude(d) else Magnitude(d)
  }

  /** One unit in the last of `places` fractional digits. */
  function Ulp(places: nat): real {
    1.0 / Pow10(places) as real
  }

  function Max(a: nat, b: nat): nat {
    if a < b then b else a
  }

  /** The signed coefficient of d written with e fractional digits. */
  function Aligned(d: Decimal, e: nat): int
    requires d.scale <= e
  {
    var m: int := Scaled(d.coefficient, e - d.scale);
    if d.negative then -m else m
  }

  /** c followed by k zeros. */
  function Scaled(c: nat, k: nat): nat {
    if k == 0 then c else 10 * Scaled(c, k - 1)
  }

  lemma {:induction false} ScaledIsProduct(c: nat, k: nat)
    ensures Scaled(c, k) == c * Pow10(k)
  {
    if k > 0 {
      ScaledIsProduct(c, k - 1);
      ShiftOnce(c, Pow10(k - 1));
    }
  }

  lemma ShiftOnce(c: nat, p: nat)
    ensures 10 * (c * p) == c * (10 * p)
  {
  }

  // ---------------------------------------------------------------------
  // Real arithmetic used to read integer facts as facts about values.

  lemma CancelReal(n: real, d: real, a: real, b: real, k: real)
    requires b > 0.0 && k > 0.0 && n == a * k && d == b * k
    ensures n / d == a / b
  {
  }

  lemma DivOrder(x: int, y: int, p: nat)
    requires p > 0
    ensures x < y <==> x as real / p as real < y as real / p as real
    ensures x <= y <==> x as real / p as real <= y as real / p as real
    ensures x == y <==> x as real / p as real == y as real / p as real
  {
  }

  lemma DivSum(x: int, y: int, p: nat)
    requires p > 0
    ensures x as real / p as real + y as real / p as real == (x + y) as real / p as real
  {
  }

  lemma MulCast(x: int, y: int)
    ensures (x * y) as real == x as real * y as real
  {
  }

  /** A product of integers read as a real, without exposing the product to the solver. */
  lemma CastProduct(a: int, b: int, c: int)
    requires a == b * c
    ensures a as real == b as real * c as real
  {
    MulCast(b, c);
  }

  lemma Pow10Split(s: nat, e: nat)
    requires s <= e
    ensures Pow10(e) as real == Pow10(s) as real * Pow10(e - s) as real
  {
    Pow10Add(s, e - s);
    CastProduct(Pow10(e), Pow10(s), Pow10(e - s));
  }

  /** The magnitude of d read with e fractional digits. */
  lemma MagnitudeAt(d: Decimal, e: nat)
    requires d.scale <= e
    ensures Magnitude(d) == (d.coefficient * Pow10(e - d.scale)) as real / Pow10(e) as real
  {
    var k := Pow10(e - d.scale);
    var n := (d.coefficient * k) as real;
    CastProduct(d.coefficient * k, d.coefficient, k);
    Pow10Split(d.scale, e);
    CancelReal(n, Pow10(e) as real, d.coefficient as real, Pow10(d.scale) as real, k as real);
  }

  lemma NegDiv(x: real, p: real)
    requires p > 0.0
    ensures (-x) / p == -(x / p)
  {
  }

  lemma MulDivEq(n: real, d: real, x: real, y: real, p: real, q: real)
    requires p > 0.0 && q > 0.0 && n == x * y && d == p * q
    ensures n / d == (x / p) * (y / q)
  {
  }

  lemma ValueAligned(d: Decimal, e: nat)
    requires d.scale <= e
    ensures Value(d) == Aligned(d, e) as real / Pow10(e) as real
  {
    var m := d.coefficient * Pow10(e - d.scale);
    MagnitudeAt(d, e);
    ScaledIsProduct(d.coefficient, e - d.scale);
    assert Aligned(d, e) == if d.negative then -m else m;
    NegDiv(m as real, Pow10(e) as real);
  }

  lemma UlpAt(places: nat, e: nat)
    requires places <= e
    ensures Ulp(places) == Pow10(e - places) as real / Pow10(e) as real
  {
    var k := Pow10(e - places);
    Pow10Split(places, e);
    CancelReal(k as real, Pow10(e) as real, 1.0, Pow10(places) as real, k as real);
  }

  /** A decimal built from a signed coefficient x at scale e has the value x / 10^e. */
  lemma ValueOfSigned(x: int, e: nat, negativeZero: bool)
    ensures Value(Decimal(x < 0 || (x == 0 && negativeZero), if x < 0 then -x else x, e))
            == x as real / Pow10(e) as real
  {
    NegDiv(x as real, Pow10(e) as real);
  }

  // ---------------------------------------------------------------------
  // Comparison, sign and arithmetic.

  /** `x.cmp(y)`: -1, 0 or 1 after aligning both coefficients to a common scale. */
  function Cmp(a: Decimal, b: Decimal): (r: int)
    ensures r == -1 || r == 0 || r == 1
  {
    var e := Max(a.scale, b.scale);
    var x, y := Aligned(a, e), Aligned(b, e);
    if x < y then -1 else if x == y then 0 else 1
  }

  /** `cmp` orders by value, so 0 and -0 compare equal. */
  lemma CmpValue(a: Decimal, b: Decimal)
    ensures Cmp(a, b) < 0 <==> Value(a) < Value(b)
    ensures Cmp(a, b) == 0 <==> Value(a) == Value(b)
    ensures Cmp(a, b) > 0 <==> Value(a) > Value(b)
  {
    var e := Max(a.scale, b.scale);
    ValueAligned(a, e);
    ValueAligned(b, e);
    DivOrder(Aligned(a, e), Aligned(b, e), Pow10(e));
  }

  lemma CmpTransitive(a: Decimal, b: Decimal, c: Decimal)
    ensures Cmp(a, b) <= 0 && Cmp(b, c) <= 0 ==> Cmp(a, c) <= 0
    ensures Cmp(a, b) < 0 && Cmp(b, c) <= 0 ==> Cmp(a, c) < 0
  {
    CmpValue(a, b);
    CmpValue(b, c);
    CmpValue(a, c);
  }

  lemma CmpReflexive(a: Decimal)
    ensures Cmp(a, a) == 0
  {
  }

  lemma CmpAntisymmetric(a: Decimal, b: Decimal)
    ensures Cmp(b, a) == -Cmp(a, b)
  {
    CmpValue(a, b);
    CmpValue(b, a);
  }

  /** `x.isZero()`. */
  function IsZero(d: Decimal): bool {
    d.coefficient == 0
  }

  /** `x.isPositive()`: the sign bit is clear, which holds for 0 but not -0. */
  function IsPositive(d: Decimal): bool {
    !d.negative
  }

  /** `x.isNegative()`: the sign bit is set, which holds for -0 but not 0. */
  function IsNegative(d: Decimal): bool {
    d.negative
  }

  /**
   * isZero tests the value; isPositive and isNegative test the sign bit,
   * so exactly one of them holds, and they agree with the value's sign
   * whenever the value is not zero.
   */
  lemma SignPredicates(d: Decimal)
    ensures IsZero(d) <==> Value(d) == 0.0
    ensures IsPositive(d) != IsNegative(d)
    ensures Value(d) > 0.0 ==> IsPositive(d)
    ensures Value(d) < 0.0 ==> IsNegative(d)
    ensures IsPositive(d) ==> Value(d) >= 0.0
    ensures IsNegative(d) ==> Value(d) <= 0.0
  {
    DivOrder(d.coefficient, 0, Pow10(d.scale));
  }

  /** `x.abs()`. */
  function Abs(d: Decimal): Decimal {
    Decimal(false, d.coefficient, d.scale)
  }

  lemma AbsValue(d: Decimal)
    ensures !Abs(d).negative
    ensures Value(Abs(d)) == if Value(d) < 0.0 then -Value(d) else Value(d)
  {
    DivOrder(d.coefficient, 0, Pow10(d.scale));
  }

  /** `x.neg()`. */
  function Negated(d: Decimal): Decimal {
    Decimal(!d.negative, d.coefficient, d.scale)
  }

  lemma NegatedValue(d: Decimal)
    ensures Value(Negated(d)) == -Value(d)
  {
  }

  /** `x.plus(y)` without the rounding to the configured precision. */
  function Plus(a: Decimal, b: Decimal): Decimal {
    var e := Max(a.scale, b.scale);
    var x := Aligned(a, e) + Aligned(b, e);
    Decimal(x < 0 || (x == 0 && a.negative && b.negative), if x < 0 then -x else x, e)
  }

  /**
   * The sum is exact, and a zero sum is -0 only when both operands are
   * negative: under the default rounding mode x + -x is +0.
   */
  lemma PlusValue(a: Decimal, b: Decimal)
    ensures Value(Plus(a, b)) == Value(a) + Value(b)
    ensures Plus(a, b).negative <==>
              Value(a) + Value(b) < 0.0 || (Value(a) + Value(b) == 0.0 && a.negative && b.negative)
  {
    var e := Max(a.scale, b.scale);
    var x := Aligned(a, e) + Aligned(b, e);
    ValueAligned(a, e);
    ValueAligned(b, e);
    DivSum(Aligned(a, e), Aligned(b, e), Pow10(e));
    ValueOfSigned(x, e, a.negative && b.negative);
    DivOrder(x, 0, Pow10(e));
  }

  /** `x.minus(y)`, which decimal.js computes as x plus the negation of y. */
  function Minus(a: Decimal, b: Decimal): Decimal {
    Plus(a, Negated(b))
  }

  lemma MinusValue(a: Decimal, b: Decimal)
    ensures Value(Minus(a, b)) == Value(a) - Value(b)
  {
    PlusValue(a, Negated(b));
  }

  /** `x.times(y)` without the rounding to the configured precision. */
  function Times(a: Decimal, b: Decimal): Decimal {
    Decimal(a.negative != b.negative, a.coefficient * b.coefficient, a.scale + b.scale)
  }

  /** The product is exact and its sign is the exclusive or of the operands' signs. */
  lemma TimesValue(a: Decimal, b: Decimal)
    ensures Value(Times(a, b)) == Value(a) * Value(b)
    ensures Times(a, b).negative == (a.negative != b.negative)
  {
    TimesMagnitude(a, b);
    SignedProduct(Magnitude(a), Magnitude(b));
  }

  lemma TimesMagnitude(a: Decimal, b: Decimal)
    ensures Magnitude(Times(a, b)) == Magnitude(a) * Magnitude(b)
  {
    var t := Times(a, b);
    TimesParts(a, b);
    MulDivEq(t.coefficient as real, Pow10(t.scale) as real,
      a.coefficient as real, b.coefficient as real, Pow10(a.scale) as real, Pow10(b.scale) as real);
  }

  lemma TimesParts(a: Decimal, b: Decimal)
    ensures Times(a, b).coefficient as real == a.coefficient as real * b.coefficient as real
    ensures Pow10(Times(a, b).scale) as real == Pow10(a.scale) as real * Pow10(b.scale) as real
    ensures Pow10(a.scale) as real > 0.0 && Pow10(b.scale) as real > 0.0
  {
    MulCast(a.coefficient, b.coefficient);
    Pow10AddCast(a.scale, b.scale);
  }

  lemma Pow10AddCast(a: nat, b: nat)
    ensures Pow10(a + b) as real == Pow10(a) as real * Pow10(b) as real
  {
    Pow10Add(a, b);
    CastProduct(Pow10(a + b), Pow10(a), Pow10(b));
  }

  lemma SignedProduct(x: real, y: real)
    ensures (-x) * y == -(x * y) && x * (-y) == -(x * y) && (-x) * (-y) == x * y
  {
  }

  // ---------------------------------------------------------------------
  // Rounding to a number of decimal places.

  /** decimal.js rounding modes used by the core: ROUND_UP, ROUND_DOWN, ROUND_HALF_UP. */
  datatype Rounding = RoundUp | RoundDown | RoundHalfUp

  /** The coefficient kept when `coefficient` loses digits worth `p` under `mode`. */
  function RoundedQuotient(coefficient: nat, p: nat, mode: Rounding): nat
    requires p >= 1
  {
    var q, rem := coefficient / p, coefficient % p;
    match mode
    case RoundDown => q
    case RoundUp => if rem > 0 then q + 1 else q
    case RoundHalfUp => if 2 * rem >= p then q + 1 else q
  }

  /** `x.toDecimalPlaces(places, mode)`. */
  function RoundTo(d: Decimal, places: nat, mode: Rounding): (r: Decimal)
    ensures r.negative == d.negative && r.scale == places
  {
    if d.scale <= places then
      Decimal(d.negative, d.coefficient * Pow10(places - d.scale), places)
    else
      Decimal(d.negative, RoundedQuotient(d.coefficient, Pow10(d.scale - places), mode), places)
  }

  /**
   * The rounded magnitude lies where the mode says: toward zero
   * (ROUND_DOWN), away from zero (ROUND_UP), or nearest with ties away
   * from zero (ROUND_HALF_UP), within one unit of the last kept place.
   */
  lemma RoundToBounds(d: Decimal, places: nat, mode: Rounding)
    ensures var r := RoundTo(d, places, mode);
            mode == RoundDown ==> Magnitude(r) <= Magnitude(d) < Magnitude(r) + Ulp(places)
    ensures var r := RoundTo(d, places, mode);
            mode == RoundUp ==> Magnitude(r) - Ulp(places) < Magnitude(d) <= Magnitude(r)
    ensures var r := RoundTo(d, places, mode);
            mode == RoundHalfUp ==>
              Magnitude(r) - Ulp(places) / 2.0 <= Magnitude(d) < Magnitude(r) + Ulp(places) / 2.0
  {
    var r := RoundTo(d, places, mode);
    if d.scale <= places {
      MagnitudeAt(d, places);
      assert Pow10(places - r.scale) == 1;
      MagnitudeAt(r, places);
      assert Magnitude(r) == Magnitude(d);
      UlpAt(places, places);
    } else {
      RoundBounds(d, places, mode, r);
    }
  }

  lemma RoundBounds(d: Decimal, places: nat, mode: Rounding, r: Decimal)
    requires places < d.scale
    requires r == Decimal(d.negative, RoundedQuotient(d.coefficient, Pow10(d.scale - places), mode), places)
    ensures mode == RoundDown ==>
              Magnitude(r) <= Magnitude(d) < Magnitude(r) + Ulp(places)
    ensures mode == RoundUp ==>
              Magnitude(r) - Ulp(places) < Magnitude(d) <= Magnitude(r)
    ensures mode == RoundHalfUp ==>
              Magnitude(r) - Ulp(places) / 2.0 <= Magnitude(d) < Magnitude(r) + Ulp(places) / 2.0
  {
    var e := d.scale;
    var p := Pow10(e - places);
    var c := d.coefficient;
    var y := r.coefficient * p;
    RoundedQuotientBounds(c, p, mode);
    MagnitudeAt(d, e);
    assert Pow10(e - d.scale) == 1;
    MagnitudeAt(r, e);
    UlpAt(places, e);
    match mode {
      case RoundDown =>
        DownReal(y, c, p, Pow10(e));
      case RoundUp =>
        UpReal(y, c, p, Pow10(e));
      case RoundHalfUp =>
        HalfReal(y, c, p, Pow10(e));
    }
  }

  /** The kept coefficient, scaled back by p, brackets the original one as the mode says. */
  lemma RoundedQuotientBounds(c: nat, p: nat, mode: Rounding)
    requires p >= 1
    ensures var y := RoundedQuotient(c, p, mode) * p;
            match mode
            case RoundDown => y <= c < y + p
            case RoundUp => y - p < c <= y
            case RoundHalfUp => 2 * y - p <= 2 * c < 2 * y + p
  {
    var q, rem := c / p, c % p;
    assert c == q * p + rem;
    assert (q + 1) * p == q * p + p;
  }

  lemma DownReal(y: int, x: int, u: int, big: nat)
    requires big > 0 && y <= x < y + u
    ensures y as real / big as real <= x as real / big as real
    ensures x as real / big as real < y as real / big as real + u as real / big as real
  {
    DivOrder(y, x, big);
    DivOrder(x, y + u, big);
    DivSum(y, u, big);
  }

  lemma UpReal(y: int, x: int, u: int, big: nat)
    requires big > 0 && y - u < x <= y
    ensures y as real / big as real - u as real / big as real < x as real / big as real
    ensures x as real / big as real <= y as real / big as real
  {
    DivOrder(y - u, x, big);
    DivOrder(x, y, big);
    DivSum(y - u, u, big);
  }

  lemma HalfReal(y: int, x: int, u: int, big: nat)
    requires big > 0 && 2 * y - u <= 2 * x < 2 * y + u
    ensures y as real / big as real - u as real / big as real / 2.0 <= x as real / big as real
    ensures x as real / big as real < y as real / big as real + u as real / big as real / 2.0
  {
    DivOrder(2 * y - u, 2 * x, big);
    DivOrder(2 * x, 2 * y + u, big);
    assert (2 * y - u) as real == 2.0 * y as real - u as real;
    assert (2 * y + u) as real == 2.0 * y as real + u as real;
    assert (2 * x) as real == 2.0 * x as real;
    DoubleDiv(y as real, u as real, big as real);
    DoubleDiv(x as real, 0.0, big as real);
  }

  lemma DoubleDiv(a: real, c: real, b: real)
    requires b > 0.0
    ensures (2.0 * a - c) / b == 2.0 * (a / b) - c / b
    ensures (2.0 * a + c) / b == 2.0 * (a / b) + c / b
  {
  }

  // ---------------------------------------------------------------------
  // Text.

  /** The same value with trailing fractional zeros removed (decimal.js's internal form). */
  function Canonical(d: Decimal): (r: Decimal)
    ensures r.negative == d.negative
    ensures r.scale <= d.scale
    ensures r.scale > 0 ==> r.coefficient % 10 != 0
    ensures r.coefficient / Pow10(r.scale) == d.coefficient / Pow10(d.scale)
    ensures (r.coefficient % Pow10(r.scale) == 0) == (d.coefficient % Pow10(d.scale) == 0)
    ensures (r.coefficient == 0) == (d.coefficient == 0)
    decreases d.scale
  {
    if d.scale > 0 && d.coefficient % 10 == 0 then
      var next := Decimal(d.negative, d.coefficient / 10, d.scale - 1);
      CanonicalStep(d, next);
      Canonical(next)
    else d
  }

  lemma CanonicalStep(d: Decimal, next: Decimal)
    requires d.scale > 0 && d.coefficient % 10 == 0
    requires next == Decimal(d.negative, d.coefficient / 10, d.scale - 1)
    ensures next.coefficient / Pow10(next.scale) == d.coefficient / Pow10(d.scale)
    ensures (next.coefficient % Pow10(next.scale) == 0) == (d.coefficient % Pow10(d.scale) == 0)
  {
    var p := Pow10(next.scale);
    ModSplit(d.coefficient, p);
    var c := d.coefficient;
    var a, b := c / 10 / p, c / 10 % p;
    assert c / 10 == p * a + b;
    assert c == (10 * p) * a + b * 10;
    DivModUnique(c, 10 * p, a, b * 10);
  }

  lemma CanonicalStepValue(d: Decimal, next: Decimal)
    requires d.scale > 0 && d.coefficient % 10 == 0
    requires next == Decimal(d.negative, d.coefficient / 10, d.scale - 1)
    ensures Value(next) == Value(d)
  {
    var p := Pow10(next.scale);
    assert d.coefficient == next.coefficient * 10;
    MulCast(next.coefficient, 10);
    MulCast(p, 10);
    CancelReal(d.coefficient as real, Pow10(d.scale) as real, next.coefficient as real, p as real, 10.0);
  }

  /** Dropping trailing fractional zeros keeps the value. */
  lemma {:induction false} CanonicalValue(d: Decimal)
    ensures Value(Canonical(d)) == Value(d)
    decreases d.scale
  {
    if d.scale > 0 && d.coefficient % 10 == 0 {
      var next := Decimal(d.negative, d.coefficient / 10, d.scale - 1);
      CanonicalStepValue(d, next);
      CanonicalValue(next);
    }
  }

  /** The digits of coefficient / 10^scale, with exactly `scale` fractional digits after a `.`. */
  function Render(coefficient: nat, scale: nat): string {
    var whole := NatToDigits(Shifted(coefficient, scale));
    if scale == 0 then whole else whole + "." + PadDigits(LowDigits(coefficient, scale), scale)
  }

  /** The `-` decimal.js writes: only for a negative value that is not zero. */
  function SignText(d: Decimal): string {
    if d.negative && d.coefficient != 0 then "-" else ""
  }

  /** `x.toString()`: the canonical form, so no trailing fractional zeros. */
  function ToString(d: Decimal): string {
    var c := Canonical(d);
    SignText(d) + Render(c.coefficient, c.scale)
  }

  /**
   * `x.toFixed(places, mode)`: the rounded value with exactly `places`
   * fractional digits; the `-` is decided by the unrounded value.
   */
  function ToFixed(d: Decimal, places: nat, mode: Rounding): string {
    var r := RoundTo(d, places, mode);
    SignText(d) + Render(r.coefficient, places)
  }

  /** `\d+(\.\d*)?|\.\d+`: the unsigned part of the decimal.js string grammar. */
  function ParseUnsigned(v: string): (r: Option<Decimal>)
    ensures r.Some? ==> !r.value.negative
    ensures r.Some? ==> forall i | 0 <= i < |v| :: IsDigit(v[i]) || v[i] == '.'
    ensures r.Some? ==> Count(v, '.') <= 1
  {
    var i := IndexOf(v, '.');
    if i == |v| then
      if v != [] && AllDigits(v) then Some(Decimal(false, DigitsToNat(v), 0)) else None
    else
      var ip, fp := v[..i], v[i + 1..];
      if AllDigits(ip) && AllDigits(fp) && (ip != [] || fp != []) then
        assert v == ip + ['.'] + fp;
        AllDigitsAppend(ip, fp);
        assert forall k | 0 <= k < |v| :: v[k] == if k < i then ip[k] else if k == i then '.' else fp[k - i - 1];
        NoDotInDigits(fp);
        CountAppend(ip + ['.'], fp, '.');
        CountAppend(ip, ['.'], '.');
        assert ['.'][1..] == [];
        Some(Decimal(false, DigitsToNat(ip + fp), |fp|))
      else None
  }

  /**
   * `new Decimal(v)` for text of digits, `.`, `,`, signs and spaces: an
   * optional `-` or `+`, then the unsigned grammar. Anything else throws,
   * which is None here.
   */
  function ParseLiteral(v: string): (r: Option<Decimal>)
    ensures r.Some? ==> forall i | 0 <= i < |v| :: IsDigit(v[i]) || v[i] == '.' || (i == 0 && v[i] in "+-")
    ensures r.Some? ==> Count(v, '.') <= 1
    ensures r.Some? ==> v != [] && (r.value.negative <==> v[0] == '-')
  {
    if |v| > 0 && (v[0] == '-' || v[0] == '+') then
      assert v == [v[0]] + v[1..];
      CountAppend([v[0]], v[1..], '.');
      match ParseUnsigned(v[1..])
      case None => None
      case Some(u) => Some(Decimal(v[0] == '-', u.coefficient, u.scale))
    else
      ParseUnsigned(v)
  }

  lemma NoDotInDigits(s: string)
    requires AllDigits(s)
    ensures '.' !in s
  {
  }

  // ---------------------------------------------------------------------
  // What the grammar reads.

  /** A run of digits reads as that integer. */
  lemma ParseUnsignedDigits(ds: string)
    requires ds != [] && AllDigits(ds)
    ensures ParseUnsigned(ds) == Some(Decimal(false, DigitsToNat(ds), 0))
  {
    NoDotInDigits(ds);
  }

  /** Digits, the point, digits: the point sets the scale to the number of fractional digits. */
  lemma ParseUnsignedPoint(ip: string, fp: string)
    requires AllDigits(ip) && AllDigits(fp) && (ip != [] || fp != [])
    ensures AllDigits(ip + fp)
    ensures ParseUnsigned(ip + "." + fp) == Some(Decimal(false, DigitsToNat(ip + fp), |fp|))
  {
    NoDotInDigits(ip);
    IndexOfAt(ip, '.', fp);
    var v := ip + "." + fp;
    assert v[..|ip|] == ip && v[|ip| + 1..] == fp;
    AllDigitsAppend(ip, fp);
  }

  /** A leading `-` sets the sign, a leading `+` is skipped. */
  lemma ParseLiteralSigned(sign: string, body: string)
    requires sign == "" || sign == "-" || sign == "+"
    requires body != [] && body[0] != '-' && body[0] != '+'
    ensures ParseLiteral(sign + body) ==
              match ParseUnsigned(body)
              case None => None
              case Some(u) => Some(Decimal(sign == "-", u.coefficient, u.scale))
  {
    var v := sign + body;
    if sign == "" {
      assert v == body;
    } else {
      assert v[1..] == body;
    }
  }

  /** The digits `Render` writes read back as the same coefficient and scale. */
  lemma RenderParse(coefficient: nat, scale: nat)
    ensures ParseUnsigned(Render(coefficient, scale)) == Some(Decimal(false, coefficient, scale))
  {
    var q, m := Shifted(coefficient, scale), LowDigits(coefficient, scale);
    var whole := NatToDigits(q);
    ShiftedRecombine(coefficient, scale);
    if scale == 0 {
      ParseUnsignedDigits(whole);
    } else {
      ModOfSmall(m, Pow10(scale));
      var fraction := PadDigits(m, scale);
      ParsePointValue(whole, fraction, q, m, scale);
    }
  }

  lemma ParsePointValue(whole: string, fraction: string, q: nat, m: nat, scale: nat)
    requires AllDigits(whole) && AllDigits(fraction) && whole != []
    requires DigitsToNat(whole) == q && DigitsToNat(fraction) == m && |fraction| == scale
    ensures ParseUnsigned(whole + "." + fraction) == Some(Decimal(false, q * Pow10(scale) + m, scale))
  {
    ParseUnsignedPoint(whole, fraction);
    DigitsToNatAppend(whole, fraction);
  }

  /** `new Decimal(x.toString())` has the value of x. */
  lemma ToStringRoundTrip(d: Decimal)
    ensures ParseLiteral(ToString(d)).Some?
    ensures Value(ParseLiteral(ToString(d)).value) == Value(d)
  {
    var c := Canonical(d);
    var body := Render(c.coefficient, c.scale);
    RenderParse(c.coefficient, c.scale);
    assert body[0] == NatToDigits(Shifted(c.coefficient, c.scale))[0];
    ParseLiteralSigned(SignText(d), body);
    CanonicalValue(d);
  }

  /** `toString` never shows a trailing fractional zero. */
  lemma ToStringNoTrailingZero(d: Decimal)
    ensures var s := ToString(d); '.' in s ==> s[|s| - 1] != '0'
  {
    var c := Canonical(d);
    var whole := NatToDigits(Shifted(c.coefficient, c.scale));
    NoDotInDigits(whole);
    if c.scale > 0 {
      ModLastDigit(c.coefficient, c.scale);
      var fraction := PadDigits(LowDigits(c.coefficient, c.scale), c.scale);
      assert ToString(d) == SignText(d) + whole + "." + fraction;
    } else {
      assert ToString(d) == SignText(d) + whole;
      NoDotInSign(SignText(d), whole);
    }
  }

  lemma NoDotInSign(sign: string, ds: string)
    requires sign == "" || sign == "-"
    requires '.' !in ds
    ensures '.' !in sign + ds
  {
  }
}
