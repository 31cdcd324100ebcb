/**
 * src/utils/decimalSchema.ts: string-valued validation schemas for decimal
 * form fields. A schema is an immutable sequence of rules; every chain
 * method returns a new schema with one rule appended and leaves its
 * receiver as it was. Validation tests the rules in order and collects the
 * message of every rule that fails; the first one is what the form shows.
 */
module DecimalSchema {
  import opened Wrappers
  import opened Digits
  import opened Strings
  import opened DecimalJs
  import opened DecimalUtils
  import opened DecimalParseFacts

  /**
   * A threshold passed to a chain method: a string or a Decimal instance.
   * A JavaScript number threshold is the Decimal it converts to.
   */
  datatype Bound = TextBound(text: NumText) | DecimalBound(dec: Decimal)

  function BoundInput(b: Bound): Input {
    match b
    case TextBound(t) => Text(t)
    case DecimalBound(d) => Instance(d)
  }

  /** `formatValueForMessage`: a Decimal is shown by `toString`, a string as it is. */
  function Display(b: Bound): string {
    match b
    case TextBound(t) => t
    case DecimalBound(d) => ToString(d)
  }

  /** What one rule tests. */
  datatype Check =
    | NumberOrEmpty          // the refine of `createDecimalSchema`
    | NonEmpty               // `min(1)` of `decimalRequired`
    | NonEmptyNumber         // the refine of `decimalRequired`
    | AtLeast(bound: Bound)
    | Above(bound: Bound)
    | AtMost(bound: Bound)
    | Below(bound: Bound)
    | EqualTo(bound: Bound)
    | Positive
    | Negative
    | ZeroValue
    | MaxPlaces(places: nat)

  /** The checks the chain methods append: each lets the empty string through. */
  predicate IsChained(c: Check) {
    !c.NumberOrEmpty? && !c.NonEmpty? && !c.NonEmptyNumber?
  }

  datatype Rule = Rule(check: Check, message: string)

  /** JavaScript's `message || fallback`: a missing or empty message gives the fallback. */
  function OrDefault(message: string, fallback: string): string {
    if message == "" then fallback else message
  }

  const InvalidMessage := "Giá trị phải là một số hợp lệ"
  const RequiredMessage := "Trường này là bắt buộc"

  /** The fractional digits decimal.js's `toString` writes. */
  function FractionText(d: Decimal): string {
    After(ToString(d), '.')
  }

  /** The predicate of `maxDecimalPlaces(places)` on a nonempty value. */
  function PlacesWithin(parsed: Option<Decimal>, places: nat): bool {
    match parsed
    case None => false
    case Some(d) =>
      var decimalPart := FractionText(d);
      decimalPart == [] || |decimalPart| <= places
  }

  /** The refinement of `maxDecimalPlaces(places)`: the empty value passes, an unparsable one fails. */
  function PlacesRule(value: NumText, places: nat): bool {
    value == "" || PlacesWithin(ParseDecimal(Text(value)), places)
  }

  /** Whether the form value passes one rule. */
  function Holds(c: Check, value: NumText): (r: bool)
    ensures c.MaxPlaces? ==> (r <==> PlacesRule(value, c.places))
    ensures c.NonEmpty? ==> (r <==> value != "")
    ensures c.NonEmptyNumber? ==> (r <==> value != "" && ParseDecimal(Text(value)).Some?)
  {
    match c
    case NumberOrEmpty => value == "" || IsValid(Text(value))
    case NonEmpty => |value| >= 1
    case NonEmptyNumber => value != "" && IsValid(Text(value))
    case AtLeast(b) => value == "" || GreaterThanOrEqual(Text(value), BoundInput(b))
    case Above(b) => value == "" || GreaterThan(Text(value), BoundInput(b))
    case AtMost(b) => value == "" || LessThanOrEqual(Text(value), BoundInput(b))
    case Below(b) => value == "" || LessThan(Text(value), BoundInput(b))
    case EqualTo(b) => value == "" || Equals(Text(value), BoundInput(b))
    case Positive => value == "" || IsPositiveOf(Text(value))
    case Negative => value == "" || IsNegativeOf(Text(value))
    case ZeroValue => value == "" || IsZeroOf(Text(value))
    case MaxPlaces(places) => PlacesRule(value, places)
  }

  /** Whether one rule passed, and the message it would report. */
  datatype Outcome = Outcome(passed: bool, message: string)

  /** Each rule put to the test, in rule order. */
  function Outcomes(rules: seq<Rule>, test: Check -> bool): (r: seq<Outcome>)
    ensures |r| == |rules|
  {
    seq(|rules|, i requires 0 <= i < |rules| => Outcome(test(rules[i].check), rules[i].message))
  }

  /** The test of every rule on one form value. */
  function On(value: NumText): Check -> bool {
    c => Holds(c, value)
  }

  /** The messages of the outcomes that did not pass, in order. */
  function Reported(outcomes: seq<Outcome>): seq<string> {
    if outcomes == [] then []
    else
      var last := outcomes[|outcomes| - 1];
      Reported(outcomes[..|outcomes| - 1]) + (if last.passed then [] else [last.message])
  }

  /** Every rule's message, in rule order. */
  function Messages(rules: seq<Rule>): (r: seq<string>)
    ensures |r| == |rules|
  {
    seq(|rules|, i requires 0 <= i < |rules| => rules[i].message)
  }

  datatype Schema = Schema(rules: seq<Rule>) {

    /** The schema with one more rule at the end. */
    function Then(c: Check, message: string): Schema {
      Schema(rules + [Rule(c, message)])
    }

    function GreaterThanOrEqual(threshold: Bound, message: string): Schema {
      Then(AtLeast(threshold), OrDefault(message, "Giá trị phải lớn hơn hoặc bằng " + Display(threshold)))
    }

    function GreaterThan(threshold: Bound, message: string): Schema {
      Then(Above(threshold), OrDefault(message, "Giá trị phải lớn hơn " + Display(threshold)))
    }

    function LessThanOrEqual(threshold: Bound, message: string): Schema {
      Then(AtMost(threshold), OrDefault(message, "Giá trị phải nhỏ hơn hoặc bằng " + Display(threshold)))
    }

    function LessThan(threshold: Bound, message: string): Schema {
      Then(Below(threshold), OrDefault(message, "Giá trị phải nhỏ hơn " + Display(threshold)))
    }

    function EqualsTo(value: Bound, message: string): Schema {
      Then(EqualTo(value), OrDefault(message, "Giá trị phải bằng " + Display(value)))
    }

    function IsPositive(message: string): Schema {
      Then(Positive, OrDefault(message, "Giá trị phải là số dương"))
    }

    function IsNegative(message: string): Schema {
      Then(Negative, OrDefault(message, "Giá trị phải là số âm"))
    }

    function IsZero(message: string): Schema {
      Then(ZeroValue, OrDefault(message, "Giá trị phải bằng 0"))
    }

    function MaxDecimalPlaces(places: nat, message: string): Schema {
      var fallback := "Số chữ số thập phân không được vượt quá " + NatToDigits(places);
      Then(MaxPlaces(places), OrDefault(message, fallback))
    }

    /** `min` is `greaterThanOrEqual`. */
    function Min(minValue: Bound, message: string): Schema {
      GreaterThanOrEqual(minValue, message)
    }

    /** `max` is `lessThanOrEqual`. */
    function Max(maxValue: Bound, message: string): Schema {
      LessThanOrEqual(maxValue, message)
    }

    /** `range`: `greaterThanOrEqual` then `lessThanOrEqual`, with one message for both. */
    function Range(minValue: Bound, maxValue: Bound, message: string): Schema {
      var m := OrDefault(message,
        "Giá trị phải trong khoảng từ " + Display(minValue) + " đến " + Display(maxValue));
      GreaterThanOrEqual(minValue, m).LessThanOrEqual(maxValue, m)
    }
  }

  /** `createDecimalSchema` and `decimal`: a valid number, or empty. */
  function DecimalOptional(message: string): Schema {
    Schema([Rule(NumberOrEmpty, OrDefault(message, InvalidMessage))])
  }

  /** `decimalRequired`: `min(1)`, then a valid number that must not be empty. */
  function DecimalRequired(message: string): Schema {
    Schema([Rule(NonEmpty, OrDefault(message, RequiredMessage)), Rule(NonEmptyNumber, OrDefault(message, InvalidMessage))])
  }

  /** The ordered failing messages. */
  function Validate(s: Schema, value: NumText): seq<string> {
    Reported(Outcomes(s.rules, On(value)))
  }

  /** The message the form shows. */
  function FirstError(s: Schema, value: NumText): Option<string> {
    var failures := Validate(s, value);
    if failures == [] then None else Some(failures[0])
  }

  /** s is base followed only by rules the chain methods append. */
  predicate ChainedFrom(s: Schema, base: Schema) {
    |base.rules| <= |s.rules| && s.rules[..|base.rules|] == base.rules &&
    forall i | |base.rules| <= i < |s.rules| :: IsChained(s.rules[i].check)
  }

  // ---------------------------------------------------------------------
  // Validation order.

  /** Reporting a concatenation of outcomes concatenates the reports. */
  lemma {:induction false} ReportedAppend(a: seq<Outcome>, b: seq<Outcome>)
    ensures Reported(a + b) == Reported(a) + Reported(b)
    decreases |b|
  {
    if b == [] {
      assert a + b == a;
    } else {
      var init := b[..|b| - 1];
      assert (a + b)[..|a + b| - 1] == a + init;
      ReportedAppend(a, init);
    }
  }

  /** A message is reported exactly when some outcome with that message did not pass. */
  lemma {:induction false} ReportedSpec(outcomes: seq<Outcome>, m: string)
    ensures m in Reported(outcomes) <==>
      exists i | 0 <= i < |outcomes| :: !outcomes[i].passed && outcomes[i].message == m
  {
    if outcomes != [] {
      var init := outcomes[..|outcomes| - 1];
      ReportedSpec(init, m);
      assert forall i | 0 <= i < |init| :: init[i] == outcomes[i];
    }
  }

  /** Nothing is reported exactly when every outcome passed. */
  lemma {:induction false} ReportedEmpty(outcomes: seq<Outcome>)
    ensures Reported(outcomes) == [] <==> forall i | 0 <= i < |outcomes| :: outcomes[i].passed
  {
    if outcomes != [] {
      var init := outcomes[..|outcomes| - 1];
      ReportedEmpty(init);
      assert forall i | 0 <= i < |init| :: init[i] == outcomes[i];
    }
  }

  /** When nothing passed, every message is reported, in order. */
  lemma {:induction false} ReportedAll(outcomes: seq<Outcome>)
    requires forall i | 0 <= i < |outcomes| :: !outcomes[i].passed
    ensures Reported(outcomes) == seq(|outcomes|, i requires 0 <= i < |outcomes| => outcomes[i].message)
  {
    if outcomes != [] {
      var init := outcomes[..|outcomes| - 1];
      assert forall i | 0 <= i < |init| :: init[i] == outcomes[i];
      ReportedAll(init);
    }
  }

  /** The first report is the message of the first outcome that did not pass. */
  lemma {:induction false} ReportedFirst(outcomes: seq<Outcome>, k: nat)
    requires k < |outcomes| && !outcomes[k].passed
    requires forall j | 0 <= j < k :: outcomes[j].passed
    ensures Reported(outcomes) != [] && Reported(outcomes)[0] == outcomes[k].message
  {
    var head, tail := outcomes[..k], outcomes[k..];
    assert outcomes == head + tail;
    ReportedAppend(head, tail);
    ReportedEmpty(head);
    assert tail == tail[..1] + tail[1..];
    ReportedAppend(tail[..1], tail[1..]);
    assert tail[..1][..0] == [];
  }

  /** Testing a concatenation of rules concatenates the outcomes. */
  lemma OutcomesAppend(a: seq<Rule>, b: seq<Rule>, test: Check -> bool)
    ensures Outcomes(a + b, test) == Outcomes(a, test) + Outcomes(b, test)
  {
    var ab := a + b;
    forall i | 0 <= i < |ab|
      ensures Outcomes(ab, test)[i] == (Outcomes(a, test) + Outcomes(b, test))[i]
    {
      if i < |a| {
        assert ab[i] == a[i];
      } else {
        assert ab[i] == b[i - |a|];
      }
    }
  }

  /**
   * A chain method leaves its receiver alone and adds its rule last: the
   * new schema fails exactly where the old one did, then on its own rule.
   */
  lemma ThenValidate(s: Schema, c: Check, message: string, value: NumText)
    ensures s.Then(c, message).rules[..|s.rules|] == s.rules
    ensures Validate(s.Then(c, message), value) ==
      Validate(s, value) + (if Holds(c, value) then [] else [message])
  {
    OutcomesAppend(s.rules, [Rule(c, message)], On(value));
    ReportedAppend(Outcomes(s.rules, On(value)), Outcomes([Rule(c, message)], On(value)));
    var single := Outcomes([Rule(c, message)], On(value));
    assert single == [Outcome(Holds(c, value), message)] by {
      assert single[0] == Outcome(On(value)([Rule(c, message)][0].check), message);
    }
    assert single[..0] == [];
  }

  /** The schema passes exactly when every rule holds. */
  lemma ValidateEmpty(s: Schema, value: NumText)
    ensures Validate(s, value) == [] <==> forall i | 0 <= i < |s.rules| :: Holds(s.rules[i].check, value)
  {
    var o := Outcomes(s.rules, On(value));
    ReportedEmpty(o);
    assert forall i | 0 <= i < |s.rules| :: o[i].passed == Holds(s.rules[i].check, value);
  }

  /** A message is reported exactly when some rule with that message fails. */
  lemma ValidateSpec(s: Schema, value: NumText, m: string)
    ensures m in Validate(s, value) <==>
      exists i | 0 <= i < |s.rules| :: !Holds(s.rules[i].check, value) && s.rules[i].message == m
  {
    var o := Outcomes(s.rules, On(value));
    ReportedSpec(o, m);
    assert forall i | 0 <= i < |s.rules| :: o[i].passed == Holds(s.rules[i].check, value) && o[i].message == s.rules[i].message;
  }

  /** The message the form shows is that of the first failing rule. */
  lemma FirstErrorIsFirstFailure(s: Schema, value: NumText, k: nat)
    requires k < |s.rules| && !Holds(s.rules[k].check, value)
    requires forall j | 0 <= j < k :: Holds(s.rules[j].check, value)
    ensures FirstError(s, value) == Some(s.rules[k].message)
  {
    var o := Outcomes(s.rules, On(value));
    assert forall j | 0 <= j < |s.rules| :: o[j].passed == Holds(s.rules[j].check, value);
    ReportedFirst(o, k);
  }

  /** When every rule fails, every message is reported, in order. */
  lemma ValidateAllFail(s: Schema, value: NumText)
    requires forall i | 0 <= i < |s.rules| :: !Holds(s.rules[i].check, value)
    ensures Validate(s, value) == Messages(s.rules)
  {
    var o := Outcomes(s.rules, On(value));
    assert forall j | 0 <= j < |s.rules| :: o[j].passed == Holds(s.rules[j].check, value);
    ReportedAll(o);
  }

  // ---------------------------------------------------------------------
  // The chain methods keep a schema chained from its base.

  lemma ThenChained(s: Schema, base: Schema, c: Check, message: string)
    requires ChainedFrom(s, base) && IsChained(c)
    ensures ChainedFrom(s.Then(c, message), base)
  {
    var rules := s.rules + [Rule(c, message)];
    assert rules[..|base.rules|] == s.rules[..|base.rules|];
  }

  /** `min` and `max` are the same rules as `greaterThanOrEqual` and `lessThanOrEqual`. */
  lemma MinMaxAliases(s: Schema, threshold: Bound, message: string, value: NumText)
    ensures Validate(s.Min(threshold, message), value) == Validate(s.GreaterThanOrEqual(threshold, message), value)
    ensures Validate(s.Max(threshold, message), value) == Validate(s.LessThanOrEqual(threshold, message), value)
  {
  }

  /**
   * `range(lo, hi)` adds a lower-bound rule and then an upper-bound rule,
   * both failing with the same message.
   */
  lemma RangeValidate(s: Schema, lo: Bound, hi: Bound, message: string, value: NumText)
    ensures var m := OrDefault(message, "Giá trị phải trong khoảng từ " + Display(lo) + " đến " + Display(hi));
      Validate(s.Range(lo, hi, message), value) ==
        Validate(s, value) +
        (if Holds(AtLeast(lo), value) then [] else [m]) +
        (if Holds(AtMost(hi), value) then [] else [m])
  {
    var m := OrDefault(message, "Giá trị phải trong khoảng từ " + Display(lo) + " đến " + Display(hi));
    assert m != "";
    var s1 := s.Then(AtLeast(lo), m);
    ThenValidate(s, AtLeast(lo), m, value);
    ThenValidate(s1, AtMost(hi), m, value);
  }

  // ---------------------------------------------------------------------
  // The empty, the blank and the unparsable value.

  /** Every chained rule lets `""` through. */
  lemma ChainedSkipsEmpty(c: Check)
    requires IsChained(c)
    ensures Holds(c, "")
  {
  }

  /** Every chained rule fails on nonempty text that does not parse. */
  lemma ChainedFailsUnparsable(c: Check, value: NumText)
    requires IsChained(c) && value != "" && ParseDecimal(Text(value)).None?
    ensures !Holds(c, value)
  {
  }

  /** When every rule after base holds, the schema reports what base reports. */
  lemma TailHolds(s: Schema, base: Schema, value: NumText)
    requires ChainedFrom(s, base)
    requires forall i | |base.rules| <= i < |s.rules| :: Holds(s.rules[i].check, value)
    ensures Validate(s, value) == Validate(base, value)
  {
    var tail := Schema(s.rules[|base.rules|..]);
    assert s.rules == base.rules + tail.rules;
    OutcomesAppend(base.rules, tail.rules, On(value));
    ReportedAppend(Outcomes(base.rules, On(value)), Outcomes(tail.rules, On(value)));
    ValidateEmpty(tail, value);
  }

  /** When every rule after base fails, their messages follow what base reports. */
  lemma TailFails(s: Schema, base: Schema, value: NumText)
    requires ChainedFrom(s, base)
    requires forall i | |base.rules| <= i < |s.rules| :: !Holds(s.rules[i].check, value)
    ensures Validate(s, value) == Validate(base, value) + Messages(s.rules[|base.rules|..])
  {
    var tail := Schema(s.rules[|base.rules|..]);
    assert s.rules == base.rules + tail.rules;
    OutcomesAppend(base.rules, tail.rules, On(value));
    ReportedAppend(Outcomes(base.rules, On(value)), Outcomes(tail.rules, On(value)));
    ValidateAllFail(tail, value);
  }

  /** With `decimal()`, the empty value passes the base rule and every chained rule. */
  lemma OptionalAcceptsEmpty(s: Schema, message: string)
    requires ChainedFrom(s, DecimalOptional(message))
    ensures Validate(s, "") == []
  {
    forall i | 1 <= i < |s.rules|
      ensures Holds(s.rules[i].check, "")
    {
      ChainedSkipsEmpty(s.rules[i].check);
    }
    TailHolds(s, DecimalOptional(message), "");
    ValidateEmpty(DecimalOptional(message), "");
  }

  /** The two base rules of `decimalRequired` on a value. */
  lemma RequiredBase(message: string, value: NumText)
    ensures Validate(DecimalRequired(message), value) ==
      (if Holds(NonEmpty, value) then [] else [OrDefault(message, RequiredMessage)]) +
      (if Holds(NonEmptyNumber, value) then [] else [OrDefault(message, InvalidMessage)])
  {
    var first := Schema([Rule(NonEmpty, OrDefault(message, RequiredMessage))]);
    assert first.Then(NonEmptyNumber, OrDefault(message, InvalidMessage)) == DecimalRequired(message);
    ThenValidate(first, NonEmptyNumber, OrDefault(message, InvalidMessage), value);
    ThenValidate(Schema([]), NonEmpty, OrDefault(message, RequiredMessage), value);
    assert Schema([]).Then(NonEmpty, OrDefault(message, RequiredMessage)) == first;
  }

  /**
   * With `decimalRequired()`, the empty value fails `min(1)` and the
   * valid-number rule, and no chained rule.
   */
  lemma RequiredRejectsEmpty(s: Schema, message: string)
    requires ChainedFrom(s, DecimalRequired(message))
    ensures Validate(s, "") == [OrDefault(message, RequiredMessage), OrDefault(message, InvalidMessage)]
    ensures FirstError(s, "") == Some(OrDefault(message, RequiredMessage))
  {
    forall i | 2 <= i < |s.rules|
      ensures Holds(s.rules[i].check, "")
    {
      ChainedSkipsEmpty(s.rules[i].check);
    }
    TailHolds(s, DecimalRequired(message), "");
    RequiredBase(message, "");
  }

  /**
   * With `decimal()`, nonempty text that does not parse fails every rule:
   * every message is reported, the base rule's first.
   */
  lemma OptionalUnparsable(s: Schema, message: string, value: NumText)
    requires ChainedFrom(s, DecimalOptional(message))
    requires value != "" && ParseDecimal(Text(value)).None?
    ensures Validate(s, value) == Messages(s.rules)
    ensures FirstError(s, value) == Some(OrDefault(message, InvalidMessage))
  {
    var base := DecimalOptional(message);
    ChainedTailFails(s, base, value);
    ValidateAllFail(base, value);
    MessagesSplit(s.rules, 1);
  }

  /**
   * With `decimalRequired()`, nonempty text that does not parse passes
   * `min(1)`, fails the valid-number rule and then every chained rule.
   */
  lemma RequiredUnparsable(s: Schema, message: string, value: NumText)
    requires ChainedFrom(s, DecimalRequired(message))
    requires value != "" && ParseDecimal(Text(value)).None?
    ensures Validate(s, value) == [OrDefault(message, InvalidMessage)] + Messages(s.rules[2..])
    ensures FirstError(s, value) == Some(OrDefault(message, InvalidMessage))
  {
    ChainedTailFails(s, DecimalRequired(message), value);
    RequiredBase(message, value);
    assert Holds(NonEmpty, value) && !Holds(NonEmptyNumber, value);
    assert Validate(DecimalRequired(message), value) == [OrDefault(message, InvalidMessage)];
  }

  /** Nonempty text that does not parse fails every rule chained after base. */
  lemma ChainedTailFails(s: Schema, base: Schema, value: NumText)
    requires ChainedFrom(s, base)
    requires value != "" && ParseDecimal(Text(value)).None?
    ensures Validate(s, value) == Validate(base, value) + Messages(s.rules[|base.rules|..])
  {
    forall i | |base.rules| <= i < |s.rules|
      ensures !Holds(s.rules[i].check, value)
    {
      ChainedFailsUnparsable(s.rules[i].check, value);
    }
    TailFails(s, base, value);
  }

  lemma MessagesSplit(rules: seq<Rule>, k: nat)
    requires k <= |rules|
    ensures Messages(rules) == Messages(rules[..k]) + Messages(rules[k..])
  {
  }

  /** Blank text passes `min(1)` of `decimalRequired()` but is not a valid number. */
  lemma RequiredRejectsBlank(s: Schema, message: string, value: NumText)
    requires ChainedFrom(s, DecimalRequired(message))
    requires value != "" && forall i | 0 <= i < |value| :: value[i] == ' '
    ensures Holds(NonEmpty, value) && !Holds(NonEmptyNumber, value)
    ensures FirstError(s, value) == Some(OrDefault(message, InvalidMessage))
  {
    ParseRejectsBlank(value);
    RequiredUnparsable(s, message, value);
  }

  // ---------------------------------------------------------------------
  // maxDecimalPlaces.

  /**
   * `maxDecimalPlaces(n)` counts the digits after the `.` of decimal.js's
   * normalised string, which are the scale once trailing zeros are gone.
   */
  lemma PlacesOfToString(d: Decimal)
    ensures |FractionText(d)| == Canonical(d).scale
  {
    var c := Canonical(d);
    var whole := NatToDigits(Shifted(c.coefficient, c.scale));
    NoDotInDigits(whole);
    NoDotInSign(SignText(d), whole);
    if c.scale == 0 {
      assert ToString(d) == SignText(d) + whole;
      BeforeAfterAbsent(ToString(d), '.');
    } else {
      var fraction := PadDigits(LowDigits(c.coefficient, c.scale), c.scale);
      assert ToString(d) == (SignText(d) + whole) + ['.'] + fraction;
      BeforeAfterAt(SignText(d) + whole, '.', fraction);
    }
  }

  lemma PlacesWithinSpec(d: Decimal, places: nat)
    ensures PlacesWithin(Some(d), places) <==> Canonical(d).scale <= places
  {
    PlacesOfToString(d);
  }

  /** A parsed value passes `maxDecimalPlaces(n)` exactly when its trailing-zero-free scale is at most n. */
  lemma MaxPlacesHolds(value: NumText, places: nat, d: Decimal)
    requires value != "" && ParseDecimal(Text(value)) == Some(d)
    ensures Holds(MaxPlaces(places), value) <==> Canonical(d).scale <= places
  {
    PlacesWithinSpec(d, places);
  }

  /** Integers pass any `maxDecimalPlaces`, whatever their text. */
  lemma IntegersPassMaxPlaces(value: NumText, places: nat)
    requires ParseDecimal(Text(value)).Some? && ParseDecimal(Text(value)).value.scale == 0
    ensures Holds(MaxPlaces(places), value)
  {
    if value != "" {
      MaxPlacesHolds(value, places, ParseDecimal(Text(value)).value);
    }
  }

  /**
   * Digits, `,`, then fractional digits ending in a nonzero digit pass
   * `maxDecimalPlaces(n)` exactly when there are at most n fractional
   * digits: "1,23" passes 2 and "1,234" does not.
   */
  lemma CommaFractionPlaces(whole: string, fraction: string, places: nat)
    requires whole != [] && AllDigits(whole)
    requires fraction != [] && AllDigits(fraction) && fraction[|fraction| - 1] != '0'
    ensures forall i | 0 <= i < |whole + "," + fraction| :: IsNumChar((whole + "," + fraction)[i])
    ensures Holds(MaxPlaces(places), whole + "," + fraction) <==> |fraction| <= places
  {
    var d := CommaFraction(whole, fraction);
    MaxPlacesHolds(whole + "," + fraction, places, d);
  }

  /** Such a text reads with as many places as it has fractional digits, and none is a trailing zero. */
  lemma CommaFraction(whole: string, fraction: string) returns (d: Decimal)
    requires whole != [] && AllDigits(whole)
    requires fraction != [] && AllDigits(fraction) && fraction[|fraction| - 1] != '0'
    ensures forall i | 0 <= i < |whole + "," + fraction| :: IsNumChar((whole + "," + fraction)[i])
    ensures ParseDecimal(Text(whole + "," + fraction)) == Some(d)
    ensures Canonical(d) == d && d.scale == |fraction|
  {
    NoDotInDigits(whole);
    RemoveAllAbsent(whole, '.');
    UnsignedText(whole, ',', fraction);
    ParseSeparated(whole + "," + fraction, "", whole, ',', fraction);
    d := Decimal(false, DigitsToNat(whole + fraction), |fraction|);
    NoTrailingZero(whole, fraction);
  }

  lemma NoTrailingZero(whole: string, fraction: string)
    requires AllDigits(whole)
    requires fraction != [] && AllDigits(fraction) && fraction[|fraction| - 1] != '0'
    ensures AllDigits(whole + fraction) && DigitsToNat(whole + fraction) % 10 != 0
  {
    DigitsToNatAppend(whole, fraction);
    LastDigitNonZero(fraction);
    Pow10Monotone(1, |fraction|);
    LastDigitOfSum(DigitsToNat(whole), Pow10(|fraction|), DigitsToNat(fraction));
  }

  lemma LastDigitNonZero(s: string)
    requires s != [] && AllDigits(s) && s[|s| - 1] != '0'
    ensures DigitsToNat(s) % 10 != 0
  {
    var init := s[..|s| - 1];
    var n := DigitsToNat(init);
    DivModUnique(n * 10 + DigitValue(s[|s| - 1]), 10, n, DigitValue(s[|s| - 1]));
  }

  lemma LastDigitOfSum(a: nat, p: nat, b: nat)
    requires p >= 10 && p % 10 == 0
    ensures (a * p + b) % 10 == b % 10
  {
    var k := p / 10;
    assert a * p == 10 * (a * k);
    DivModUnique(a * p + b, 10, a * k + b / 10, b % 10);
  }

  // ---------------------------------------------------------------------
  // The form fields of src/pages/Page3.tsx, on integer input.

  lemma IntegerValue(n: nat)
    ensures Value(Decimal(false, n, 0)) == n as real
  {
  }

  /** A digit string is a valid amount that reads as its integer. */
  lemma IntegerText(ds: string)
    requires ds != [] && AllDigits(ds)
    ensures forall i | 0 <= i < |ds| :: IsNumChar(ds[i])
    ensures ParseDecimal(Text(ds)) == Some(Decimal(false, DigitsToNat(ds), 0))
  {
    ParseInteger("", ds);
    assert "" + ds == ds;
  }

  /** Against a Decimal bound, a parsed value passes the order checks exactly as its value compares. */
  lemma DecimalBoundHolds(value: NumText, x: Decimal, y: Decimal)
    requires value != "" && ParseDecimal(Text(value)) == Some(x)
    ensures Holds(AtLeast(DecimalBound(y)), value) <==> Value(x) >= Value(y)
    ensures Holds(Above(DecimalBound(y)), value) <==> Value(x) > Value(y)
    ensures Holds(AtMost(DecimalBound(y)), value) <==> Value(x) <= Value(y)
    ensures Holds(Below(DecimalBound(y)), value) <==> Value(x) < Value(y)
    ensures Holds(EqualTo(DecimalBound(y)), value) <==> Value(x) == Value(y)
  {
    OrderChecks(value, y);
    ParsedComparisons(Text(value), Instance(y), x, y);
  }

  /** Against a Decimal bound the order checks pass on an empty value and otherwise ask src/utils/decimal.ts. */
  lemma OrderChecks(value: NumText, y: Decimal)
    ensures Holds(AtLeast(DecimalBound(y)), value) == (value == "" || GreaterThanOrEqual(Text(value), Instance(y)))
    ensures Holds(Above(DecimalBound(y)), value) == (value == "" || GreaterThan(Text(value), Instance(y)))
    ensures Holds(AtMost(DecimalBound(y)), value) == (value == "" || LessThanOrEqual(Text(value), Instance(y)))
    ensures Holds(Below(DecimalBound(y)), value) == (value == "" || LessThan(Text(value), Instance(y)))
    ensures Holds(EqualTo(DecimalBound(y)), value) == (value == "" || Equals(Text(value), Instance(y)))
  {
  }

  lemma ParsedComparisons(a: Input, b: Input, x: Decimal, y: Decimal)
    requires ParseDecimal(a) == Some(x) && ParseDecimal(b) == Some(y)
    ensures GreaterThanOrEqual(a, b) <==> Value(x) >= Value(y)
    ensures GreaterThan(a, b) <==> Value(x) > Value(y)
    ensures LessThanOrEqual(a, b) <==> Value(x) <= Value(y)
    ensures LessThan(a, b) <==> Value(x) < Value(y)
    ensures Equals(a, b) <==> Value(x) == Value(y)
  {
  }

  lemma AtLeastInteger(value: NumText, n: nat, t: nat)
    requires value != "" && ParseDecimal(Text(value)) == Some(Decimal(false, n, 0))
    ensures Holds(AtLeast(DecimalBound(Decimal(false, t, 0))), value) <==> n >= t
  {
    DecimalBoundHolds(value, Decimal(false, n, 0), Decimal(false, t, 0));
    IntegerValue(n);
    IntegerValue(t);
  }

  lemma AtMostInteger(value: NumText, n: nat, t: nat)
    requires value != "" && ParseDecimal(Text(value)) == Some(Decimal(false, n, 0))
    ensures Holds(AtMost(DecimalBound(Decimal(false, t, 0))), value) <==> n <= t
  {
    DecimalBoundHolds(value, Decimal(false, n, 0), Decimal(false, t, 0));
    IntegerValue(n);
    IntegerValue(t);
  }

  /** A nonempty valid number passes both base rules of `decimalRequired`. */
  lemma RequiredPassesNumber(message: string, value: NumText)
    requires value != "" && ParseDecimal(Text(value)).Some?
    ensures Validate(DecimalRequired(message), value) == []
  {
    RequiredBase(message, value);
  }

  /**
   * `decimalRequired('Trường này là bắt buộc').greaterThanOrEqual(100, 'Giá trị phải >= 100')`
   * accepts an integer text exactly from 100 on (so 99 fails, 100 passes),
   * and otherwise shows its own message.
   */
  lemma AtLeastHundredField(ds: NumText)
    requires ds != [] && AllDigits(ds)
    ensures var s := DecimalRequired(RequiredMessage).GreaterThanOrEqual(DecimalBound(Decimal(false, 100, 0)), "Giá trị phải >= 100");
      Validate(s, ds) == (if DigitsToNat(ds) >= 100 then [] else ["Giá trị phải >= 100"])
  {
    var bound := DecimalBound(Decimal(false, 100, 0));
    IntegerText(ds);
    RequiredPassesNumber(RequiredMessage, ds);
    AtLeastInteger(ds, DigitsToNat(ds), 100);
    ThenValidate(DecimalRequired(RequiredMessage), AtLeast(bound), "Giá trị phải >= 100", ds);
  }

  /**
   * `range(1, 100, 'Giá trị phải trong khoảng 1-100')` on `decimalRequired`
   * accepts an integer text exactly from 1 to 100 (0 and 101 fail, 1 and
   * 100 pass).
   */
  lemma RangeField(ds: NumText)
    requires ds != [] && AllDigits(ds)
    ensures var s := DecimalRequired(RequiredMessage).Range(DecimalBound(Decimal(false, 1, 0)), DecimalBound(Decimal(false, 100, 0)), "Giá trị phải trong khoảng 1-100");
      Validate(s, ds) == [] <==> 1 <= DigitsToNat(ds) <= 100
  {
    var lo, hi := DecimalBound(Decimal(false, 1, 0)), DecimalBound(Decimal(false, 100, 0));
    IntegerText(ds);
    RequiredPassesNumber(RequiredMessage, ds);
    AtLeastInteger(ds, DigitsToNat(ds), 1);
    AtMostInteger(ds, DigitsToNat(ds), 100);
    RangeValidate(DecimalRequired(RequiredMessage), lo, hi, "Giá trị phải trong khoảng 1-100", ds);
  }
}
