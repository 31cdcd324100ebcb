# Decimal amounts, price fields and sticky columns of vite-starter-react

This project models the money-handling core of the vite-starter-react
application, and the small helpers around it, in Dafny:

- **`src/utils/decimal.ts`** contains fail-closed wrappers around decimal.js.
  - `parseDecimal` reads amounts written with either `.` or `,` as the decimal
    mark. When both occur, the later kind is the decimal mark and the other kind
    is dropped as a thousands separator.
  - `formatDecimal` groups the integer part, joins it to the decimals with
    configurable separators, and strips trailing zeros.
  - The arithmetic, comparisons, rounding, sign predicates and aggregates
    (`sum`, `average`, `max`, `min`) return `null` or `false` whenever an
    operand does not parse.
- **`src/utils/decimalSchema.ts`** builds validation chains on a string
  form value, which is never transformed.
  - `decimal()` and `decimalRequired()` provide the base.
  - Each chain method adds one refinement. The empty string passes every
    refinement a chain method adds.
  - The refinements run in order, and every failing one reports its message.
- **`src/configs/curency.ts`** chooses the thousands/decimal separator pair
  from the currency configuration. `AppConfigProvider` refuses a
  configuration that turns thousand separators on without a separator
  character.
- **The `isAllowed` gate of `InputPriceField`** keeps an edit only while the
  integer part, without its sign, has at most `maxIntegerDigits` (18 by
  default) characters.
- **`parsePrice` of the Page4 data cells** turns a formatted price back into
  an integer. It keeps digits and `-` and then applies `parseInt`.
- **`getStickyStyle`** computes the pixel offset of a left- or right-sticky
  table column.

Amounts are modelled as `DecimalJs.Decimal(negative, coefficient, scale)`,
whose value is `±coefficient / 10^scale`. `DecimalJs` models the part of
decimal.js the wrappers use:

- the literal grammar
- `toString` and `toFixed`
- exact `plus`, `minus` and `times`
- `cmp`
- `toDecimalPlaces` for the three rounding modes
- the sign predicates

The wrappers read `null`/`undefined`, a string, or a Decimal instance
(`DecimalUtils.Input`). A string is restricted to the characters an amount is
typed with (digits, `.`, `,`, `+`, `-`, space).

Three behaviours of the code that a user may not expect:

- **Default separator pair.** Whenever thousand separators are off,
  `getSeparatorPair` (curency.ts:17-21) returns the US pair: `,` for thousands
  and `.` for decimals. The separator character is ignored in that case
  (`Currency.NoThousandsIsUs`).
- **Characters the parser accepts.** `parseDecimal` only trims the text and
  rewrites the separators (decimal.ts:36-62). It does not drop other
  characters: a space inside the trimmed text, or any other character
  decimal.js rejects, makes it return `null`
  (`DecimalParseFacts.ParseRejectsInnerSpace`).
- **Format then parse.** With the default options (decimal.ts:90-95),
  `parseDecimal(formatDecimal(d))` does not give `d` back:
  - An integer of 1000 to 999999 is formatted as `1.000` and read back as a
    thousand times smaller (`DecimalFormatFacts.ThousandsMisread`).
  - A larger integer is formatted with two or more `.` and does not parse
    (`DecimalFormatFacts.MillionsRejected`).
  - The round trip does hold when the decimal separator differs from the
    thousands separator and a fractional part is shown or the integer part is
    below 1000 (`DecimalFormatFacts.FormatParseRoundTrip`).

## Model

| member | source | states |
|---|---|---|
| DecimalUtils.ParseDecimal | src/utils/decimal.ts:19-68 | `null`/`undefined` gives None and a Decimal instance is returned as it is. Text that parses is nonempty after trimming, is not a lone `-` and holds no inner space. |
| DecimalUtils.NormalizeKeepsSpace | src/utils/decimal.ts:44-62 | Rewriting the separators never removes a space, so decimal.js still sees it and the parse fails. |
| DecimalParseFacts.ParseRejectsBlank | src/utils/decimal.ts:20-39 | Blank text, a lone `-` after trimming, and a missing value all parse to None. |
| DecimalParseFacts.ParseRejectsInnerSpace | src/utils/decimal.ts:36-67 | A space left inside the trimmed text makes the parse fail: the thrown error becomes None. |
| DecimalParseFacts.ParseRejectsRepeatedMark | src/utils/decimal.ts:47-64 | When the later separator kind occurs twice or more, the rewritten text has two points and the parse fails. |
| DecimalParseFacts.NormalizeMarkLast | src/utils/decimal.ts:45-58 | When one kind of separator occurs last, the other kind is deleted. A `,` decimal mark also becomes `.`. |
| DecimalParseFacts.NormalizeSeparated | src/utils/decimal.ts:44-62 | In `[-]` digits-and-thousands-marks, decimal mark, digits, the thousands marks are dropped and the decimal mark becomes `.`. |
| DecimalParseFacts.ParseSeparated | src/utils/decimal.ts:19-68 | `[-]` digits with one kind of thousands marks, then the other kind as decimal mark, then digits, parses to the digits without the marks, with the fraction length as scale and the sign. |
| DecimalParseFacts.ParseInteger | src/utils/decimal.ts:36-64 | A signed or unsigned run of digits parses to that integer with scale 0, negative exactly for `-`. |
| DecimalParseFacts.TwoMarks | src/utils/decimal.ts:47-64 | Digits separated twice by the same separator, with no other kind present, do not parse. |
| DecimalParseFacts.RejectsComma | src/utils/decimal.ts:64 | decimal.js refuses any literal that still holds a `,`. |
| DecimalUtils.IsValid | src/utils/decimal.ts:315-317 | A missing value is never valid and a Decimal instance always is. Valid text trims to something other than `""` and `-`, with no space inside. |
| DecimalParseFacts.IsValidForms | src/utils/decimal.ts:315-317 | Text of `[-]` digits with one kind of thousands marks, then the other kind as decimal mark, then digits, is valid exactly when it holds at least one digit: `1.234,5` and `,5` are valid, `,` and `-.,` are not. |
| DecimalParseFacts.IsValidInteger | src/utils/decimal.ts:315-317 | A run of digits after an optional `-` or `+` is valid exactly when the run is not empty. |
| DecimalUtils.FormatDecimal | src/utils/decimal.ts:85-88 | The output is empty exactly when the value does not parse: a parsed value always renders at least one character. |
| DecimalUtils.RenderedStartsWithDigit | src/utils/decimal.ts:99-103 | `toFixed`/`toString` output is nonempty and starts with `-` or a digit, never with the decimal point. |
| DecimalFormatFacts.FormatShape | src/utils/decimal.ts:76-122 | The formatted text is sign, grouped whole digits, then the decimal separator and the fraction when one is shown. Without `showTrailingZeros` the fraction never ends in 0. With it and `decimalPlaces` set, exactly `decimalPlaces` fraction digits are shown. |
| DecimalFormatFacts.LayoutShape | src/utils/decimal.ts:106-121 | Splitting at `.`, grouping the integer part and stripping trailing zeros turns sign + whole + `.` + digits into sign + grouped whole + decimal separator + kept digits. The separator is left out when nothing is kept. |
| DecimalFormatFacts.GroupIsRegex | src/utils/decimal.ts:109 | The recursive grouping inserts the separator exactly at the positions the `\B(?=(\d{3})+(?!\d))` regular expression matches: before each block of three digits counted from the right, never at the front. |
| DecimalFormatFacts.GroupIntegerSigned | src/utils/decimal.ts:109 | A leading `-` is left in front and the digits after it are grouped (no `\B` between `-` and a digit). |
| DecimalFormatFacts.GroupRemove | src/utils/decimal.ts:109 | Grouping with a non-digit separator loses nothing: deleting the separator gives the digits back. |
| DecimalFormatFacts.GroupCount | src/utils/decimal.ts:109 | A digit string of length n receives exactly (n - 1) / 3 separators. |
| DecimalFormatFacts.RenderedShape | src/utils/decimal.ts:99-103 | The rendered text is the sign, the whole digits and, for a positive scale, `.` and the fraction digits of the rounded or unrounded value. |
| DecimalFormatFacts.ShownDigits | src/utils/decimal.ts:112-115 | The shown digits, with trailing zeros stripped or not, still denote the magnitude of the value once divided by 10 to the number of fraction digits shown. |
| DecimalFormatFacts.FormatParseRoundTrip | src/utils/decimal.ts:76-122 | With one-character separators that are distinct `.`/`,` marks, a shown fraction or whole part below 1000 reads back to the value displayed. With no `decimalPlaces`, that value is the input's. |
| DecimalFormatFacts.ReadBack | src/utils/decimal.ts:19-122 | Under the same conditions, parsing the formatted text gives exactly the shown digits as the coefficient, the kept fraction length as the scale, and the displayed sign. |
| DecimalFormatFacts.ThousandsMisread | src/utils/decimal.ts:92-93 | With the default separators, an integer n from 1000 to 999999 formats as `x.yyy`, and that text parses back to n / 1000, a different value. |
| DecimalFormatFacts.MillionsRejected | src/utils/decimal.ts:92-93 | With the default separators, an integer of a million or more formats with two `.` and the result does not parse. |
| DecimalFormatFacts.IntegerFormat | src/utils/decimal.ts:90-121 | With the default options an integer is shown as its decimal digits grouped by `.`. |
| DecimalUtils.Add | src/utils/decimal.ts:127-137 | None exactly when an operand does not parse; otherwise the value is the sum of the operands' values. |
| DecimalUtils.Subtract | src/utils/decimal.ts:142-152 | None exactly when an operand does not parse; otherwise the value is the difference. |
| DecimalUtils.Multiply | src/utils/decimal.ts:157-167 | None exactly when an operand does not parse; otherwise the value is the product. |
| DecimalUtils.Divide | src/utils/decimal.ts:172-182 | None exactly when an operand does not parse or the divisor is zero; otherwise the quotient times the divisor is the dividend. |
| DecimalFacts.AddSubtractInverse | src/utils/decimal.ts:127-152 | Subtracting b from a + b gives back the value of a. |
| DecimalFacts.DivideMultiplyInverse | src/utils/decimal.ts:157-182 | For a nonzero divisor the quotient exists and multiplying it by the divisor gives the dividend. |
| DecimalJs.PlusValue | src/utils/decimal.ts:136 | decimal.js addition is exact. Its sign is negative for a negative sum, and for a zero sum only when both operands are negative. |
| DecimalJs.MinusValue | src/utils/decimal.ts:151 | decimal.js subtraction is exact. |
| DecimalJs.TimesValue | src/utils/decimal.ts:166 | decimal.js multiplication is exact, and the product is negative exactly when the signs differ. |
| DecimalJs.Cmp | src/utils/decimal.ts:196 | `cmp` is -1, 0 or 1. |
| DecimalJs.CmpValue | src/utils/decimal.ts:187-257 | `cmp` is negative, zero or positive exactly as the first value is below, equal to or above the second. |
| DecimalJs.CmpTransitive | src/utils/decimal.ts:404-441 | `cmp` is transitive, in both its strict and its non-strict reading. |
| DecimalJs.CmpAntisymmetric | src/utils/decimal.ts:404-441 | Swapping the operands of `cmp` negates it. |
| DecimalUtils.GreaterThan | src/utils/decimal.ts:187-197 | True exactly when both parse and the first value is above the second. |
| DecimalUtils.GreaterThanOrEqual | src/utils/decimal.ts:202-212 | True exactly when both parse and the first value is at least the second. |
| DecimalUtils.LessThan | src/utils/decimal.ts:217-227 | True exactly when both parse and the first value is below the second. |
| DecimalUtils.LessThanOrEqual | src/utils/decimal.ts:232-242 | True exactly when both parse and the first value is at most the second. |
| DecimalUtils.Equals | src/utils/decimal.ts:247-257 | True exactly when both parse and the values are equal (scale is irrelevant). |
| DecimalFacts.ComparisonsFailClosed | src/utils/decimal.ts:191-195 | Every comparison is false when an operand does not parse. When both parse, `<=` is the negation of `>` and `<` the negation of `>=`. |
| DecimalFacts.ComparisonsSwap | src/utils/decimal.ts:187-257 | `a > b` is `b < a`, `a >= b` is `b <= a`, and equality is symmetric and is `>=` together with `<=`. |
| DecimalUtils.Round | src/utils/decimal.ts:262-271 | None exactly when the value does not parse. Otherwise the result is represented at the requested scale (only its value and canonical rendering are observable) and has the sign of the input, and its magnitude is the nearest multiple of 10^-places, with ties away from zero. |
| DecimalUtils.Floor | src/utils/decimal.ts:276-285 | Same scale and sign; the magnitude is cut down to the multiple of 10^-places just below it (ROUND_DOWN, toward zero). |
| DecimalUtils.Ceil | src/utils/decimal.ts:290-299 | Same scale and sign; the magnitude is raised to the multiple of 10^-places just above it (ROUND_UP, away from zero). |
| DecimalJs.RoundTo | src/utils/decimal.ts:270 | `toDecimalPlaces` keeps the sign, and its result is represented at the requested scale. decimal.js normalises its results, so only the value and the canonical rendering of that result are observable. |
| DecimalJs.RoundToBounds | src/utils/decimal.ts:262-299 | For each of ROUND_DOWN, ROUND_UP and ROUND_HALF_UP, the rounded magnitude lies in the interval that mode defines around the original magnitude. |
| DecimalFacts.FloorTowardZero | src/utils/decimal.ts:276-285 | The result of `floor` lies between zero and the value: it is truncation, not a mathematical floor, for negative values. |
| DecimalFacts.CeilAwayFromZero | src/utils/decimal.ts:290-299 | The value lies between zero and the result of `ceil`: it rounds away from zero for negative values. |
| DecimalFacts.FloorNegativeExample | src/utils/decimal.ts:276-285 | `floor("-1.5", 0)` is -1, with the text going through the parser. |
| DecimalFacts.CeilNegativeExample | src/utils/decimal.ts:290-299 | `ceil("-1.2", 0)` is -2. |
| DecimalFacts.RoundTieExample | src/utils/decimal.ts:262-271 | `round("2.5", 0)` is 3. |
| DecimalFacts.RoundNegativeTieExample | src/utils/decimal.ts:262-271 | `round("-2.5", 0)` is -3. |
| DecimalFacts.RoundingIdempotent | src/utils/decimal.ts:262-299 | Rounding, floor and ceil applied twice with the same places give the same result as applied once. |
| DecimalUtils.AbsOf | src/utils/decimal.ts:304-310 | None exactly when the value does not parse; otherwise a non-negative Decimal with the absolute value. |
| DecimalUtils.IsZeroOf | src/utils/decimal.ts:322-328 | True exactly when the value parses to zero. |
| DecimalUtils.IsPositiveOf | src/utils/decimal.ts:333-339 | True exactly when the value parses with a positive sign, which includes +0. |
| DecimalUtils.IsNegativeOf | src/utils/decimal.ts:344-350 | True exactly when the value parses with a negative sign, which includes -0. |
| DecimalJs.SignPredicates | src/utils/decimal.ts:322-350 | Exactly one of `isPositive` and `isNegative` holds. `isZero` is value zero, and a nonzero value's sign decides. |
| DecimalFacts.SignedZeros | src/utils/decimal.ts:322-350 | `0` is zero and positive; `-0` is zero and negative. |
| DecimalFacts.SignOfNonZero | src/utils/decimal.ts:333-350 | For a nonzero value, `isPositive` means above zero and `isNegative` means below zero. |
| DecimalUtils.Sum | src/utils/decimal.ts:367-381 | The loop returns zero for the empty list and None as soon as an element does not parse. Otherwise it returns the left-to-right total of all elements. |
| DecimalFacts.SumValue | src/utils/decimal.ts:367-381 | The sum of the empty list is zero. The sum is None exactly when some element does not parse, and otherwise its value is the exact sum of the values. |
| DecimalUtils.TotalValue | src/utils/decimal.ts:372-380 | The Decimal the loop accumulates has the exact sum of the element values as its value. |
| DecimalUtils.Average | src/utils/decimal.ts:386-399 | None exactly for the empty list or an unparsable element; otherwise the exact sum divided by the length. |
| DecimalUtils.Max | src/utils/decimal.ts:404-420 | The loop satisfies the extreme-so-far invariant over the whole list (unparsable elements skipped, strict improvement only). |
| DecimalFacts.MaxIsGreatest | src/utils/decimal.ts:404-420 | `max` is None exactly when no element parses. Otherwise it is one of the parsed elements, and no parsed element's value exceeds it. |
| DecimalFacts.MaxKeepsFirst | src/utils/decimal.ts:413-415 | On ties the first maximal element is kept: every parsed element before it is strictly smaller. |
| DecimalUtils.Min | src/utils/decimal.ts:425-441 | The loop satisfies the extreme-so-far invariant for the least value over the whole list. |
| DecimalFacts.MinIsLeast | src/utils/decimal.ts:425-441 | `min` is None exactly when no element parses. Otherwise it is one of the parsed elements, and no parsed element's value is below it. |
| DecimalUtils.ExtremeStep | src/utils/decimal.ts:408-418 | One loop step, skipping an unparsable element or replacing the best only on a strict improvement, keeps the invariant. |
| DecimalJs.ParseLiteral | src/utils/decimal.ts:64 | A literal decimal.js accepts consists of digits and at most one point, with an optional leading sign that decides the sign of the result. |
| DecimalJs.ToStringRoundTrip | src/utils/decimal.ts:102 | `toString` output parses back to the same value. |
| DecimalJs.ToStringNoTrailingZero | src/utils/decimal.ts:102 | `toString` never ends a fraction in 0. |
| DecimalJs.Canonical | src/utils/decimalSchema.ts:296 | The canonical form `toString` prints keeps sign, whole part and zero-ness, has no trailing fractional zero, and has a scale no larger than the original. |
| DecimalJs.CanonicalValue | src/utils/decimalSchema.ts:296 | The canonical form has the same value. |
| DecimalSchema.ValidateSpec | src/utils/decimalSchema.ts:137-333 | A message is reported exactly when some rule of the chain with that message fails on the value. |
| DecimalSchema.ValidateEmpty | src/utils/decimalSchema.ts:137-333 | A value passes exactly when every rule of the chain holds on it. |
| DecimalSchema.FirstErrorIsFirstFailure | src/utils/decimalSchema.ts:137-333 | The first error shown is the message of the first failing rule in chain order. |
| DecimalSchema.ThenValidate | src/utils/decimalSchema.ts:141-162 | A chain method leaves the receiver's rules as they are and appends its own check last, adding its message exactly when that check fails. |
| DecimalSchema.ThenChained | src/utils/decimalSchema.ts:137-322 | Appending any chain method's check keeps a schema chained from its base. |
| DecimalSchema.MinMaxAliases | src/utils/decimalSchema.ts:310-322 | `min` validates exactly as `greaterThanOrEqual`, and `max` exactly as `lessThanOrEqual`. |
| DecimalSchema.RangeValidate | src/utils/decimalSchema.ts:324-333 | `range` adds a lower and then an upper bound check, both reporting the same message, whose default names both bounds. |
| DecimalSchema.ChainedSkipsEmpty | src/utils/decimalSchema.ts:144-145 | Every check a chain method adds lets the empty string through. |
| DecimalSchema.ChainedFailsUnparsable | src/utils/decimalSchema.ts:148-301 | Every check a chain method adds fails on a nonempty value that does not parse. |
| DecimalSchema.OptionalAcceptsEmpty | src/utils/decimalSchema.ts:47-63 | A chain built on `decimal()` accepts the empty string. |
| DecimalSchema.OptionalUnparsable | src/utils/decimalSchema.ts:47-63 | On `decimal()`, a nonempty unparsable value fails every rule of the chain. The first message is the base's, or its default "Giá trị phải là một số hợp lệ". |
| DecimalSchema.RequiredBase | src/utils/decimalSchema.ts:104-124 | `decimalRequired` checks length at least 1 and then nonempty-and-valid, reporting the custom message or the respective default. |
| DecimalSchema.RequiredRejectsEmpty | src/utils/decimalSchema.ts:106-120 | On `decimalRequired`, the empty string reports the required message and then the invalid message (zod runs both). The first error is the required message. |
| DecimalSchema.RequiredUnparsable | src/utils/decimalSchema.ts:104-124 | On `decimalRequired`, a nonempty unparsable value reports the invalid message and then the message of every chained rule. |
| DecimalSchema.RequiredRejectsBlank | src/utils/decimalSchema.ts:108-115 | A value made only of spaces passes the length check but is not a valid number: the invalid message comes first. |
| DecimalSchema.RequiredPassesNumber | src/utils/decimalSchema.ts:104-124 | `decimalRequired` alone accepts every nonempty value that parses. |
| DecimalSchema.OrderChecks | src/utils/decimalSchema.ts:137-236 | Each comparison check passes the empty value and otherwise is the corresponding comparison wrapper against the threshold. |
| DecimalSchema.DecimalBoundHolds | src/utils/decimalSchema.ts:137-236 | On a parsed value, the five comparison checks mean `>=`, `>`, `<=`, `<`, `==` on the values. |
| DecimalSchema.PlacesWithinSpec | src/utils/decimalSchema.ts:292-301 | A parsed value passes `maxDecimalPlaces(p)` exactly when its canonical `toString` has at most p fraction digits. |
| DecimalSchema.PlacesOfToString | src/utils/decimalSchema.ts:296-297 | The text after the point of `toString` is as long as the canonical scale. |
| DecimalSchema.MaxPlacesHolds | src/utils/decimalSchema.ts:283-308 | On a nonempty parsed value, `maxDecimalPlaces(p)` holds exactly when the canonical scale is at most p, so trailing zeros do not count. |
| DecimalSchema.IntegersPassMaxPlaces | src/utils/decimalSchema.ts:298-299 | A value without a fractional part passes every place limit. |
| DecimalSchema.CommaFractionPlaces | src/utils/decimalSchema.ts:283-308 | For `whole,fraction` with a fraction not ending in 0, the check holds exactly when the fraction has at most p digits. |
| DecimalSchema.AtLeastHundredField | src/pages/Page3.tsx:15-18 | The `decimalRequired().greaterThanOrEqual(100)` field accepts a run of digits exactly when it denotes at least 100, and otherwise reports only its message. |
| DecimalSchema.RangeField | src/pages/Page3.tsx:57 | The `range(1, 100)` field accepts a run of digits exactly when it denotes 1 to 100. |
| Currency.GetSeparatorPair | src/configs/curency.ts:13-28 | The two separators always differ, and each is `.` or `,`. |
| Currency.CommaDecimalExactly | src/configs/curency.ts:17-27 | The decimal separator is `,` exactly when thousand separators are on with a character other than `.`. The thousands separator is `,` exactly when the decimal one is `.`. |
| Currency.NoThousandsIsUs | src/configs/curency.ts:17-21 | Without thousand separators the pair is the US one, whatever character is configured. |
| Currency.AcceptedPairs | src/configs/curency.ts:17-27 | For a configuration accepted at setup with thousand separators on: a character is present, `,` selects the Vietnamese pair and `.` the US pair. |
| Currency.SetupRejects | src/contexts/AppConfigProvider.tsx:21-23 | Setup throws exactly for thousand separators on with a missing or empty separator character. |
| InputPriceField.IntegerPart | src/components/InputPriceField.tsx:35 | The integer part is a prefix of the raw value without `.` or `,`, and it ends at the first separator or the end of the text. |
| InputPriceField.FractionIrrelevant | src/components/InputPriceField.tsx:32-38 | The digits after the first separator never change whether an edit is kept. |
| InputPriceField.EmptyAndSignAllowed | src/components/InputPriceField.tsx:33-37 | The empty value and a lone `-` are allowed for any non-negative limit. |
| InputPriceField.DefaultLimit | src/components/InputPriceField.tsx:20 | With the default limit a run of digits, signed or not, is allowed exactly when it has at most 18 digits. |
| InputPriceField.NineteenthDigitRefused | cypress/e2e/inputprice.cy.ts:22-36 | Eighteen digits are kept and a nineteenth integer digit is refused. |
| InputPriceField.PrefixAllowed | src/components/InputPriceField.tsx:32-38 | Deleting from the end of an allowed value keeps it allowed. |
| InputPriceField.LimitMonotone | src/components/InputPriceField.tsx:37 | A larger limit allows everything a smaller one does. |
| PriceCell.Cleaned | src/pages/Page4/DataCell.tsx:10 | The clean-up is no longer than its input and keeps only digits and `-`. |
| PriceCell.ParsePriceDigits | src/pages/Page4/DataCell.tsx:7-13 | Without a `-`, all digits of the text, wherever they stand, are read as one number, and text without digits gives 0. |
| PriceCell.ParsePriceMerges | src/pages/Page4/DataCell.tsx:10-11 | A separator between two digit runs is dropped: `a.b` reads as the number `ab`. |
| PriceCell.ParsePriceSigned | src/pages/Page4/DataCell.tsx:11-12 | A run of digits reads as its value, and with a leading `-` as its negation. |
| PriceCell.ParsePriceStopsAtMinus | src/pages/Page4/DataHeaderCell.tsx:15-16 | The number ends at the first `-` after the digits: `12-3` reads as 12. |
| PriceCell.ParsePriceNoDigits | src/pages/Page4/DataHeaderCell.tsx:16-17 | When no digit follows the optional sign (`-`, `--5`), the NaN becomes 0. |
| PriceCell.GroupedReadsBack | src/pages/Page4/DataCell.tsx:7-13 | An integer grouped with any separator that is not a digit or `-` reads back as that integer, and with a leading `-` as its negation. |
| PriceCell.DataCellExamples | src/pages/Page4/DataCell.tsx:8-12 | `""` gives 0, `12.5` gives 125 and `1.234` gives 1234. |
| PriceCell.HeaderCellExamples | src/pages/Page4/DataHeaderCell.tsx:12-18 | `12-3` gives 12; `-` and `--5` give 0. |
| StickyStyle.GetStickyStyle | src/components/TanstackVirtualizedTable/utils.ts:3-27 | No style exactly for a column that is not sticky. Otherwise a left style for left-sticky and a right style for right-sticky. |
| StickyStyle.SliceFrom | src/components/TanstackVirtualizedTable/utils.ts:14 | `slice(start)` is the suffix from start when start is within the list. |
| StickyStyle.SliceTo | src/components/TanstackVirtualizedTable/utils.ts:21 | `slice(0, end)` is the prefix up to end when end is within the list. |
| StickyStyle.SumFromTotal | src/components/TanstackVirtualizedTable/utils.ts:14-21 | The `reduce` fold adds the total width of the columns to its start value. |
| StickyStyle.StickyOffsets | src/components/TanstackVirtualizedTable/utils.ts:13-26 | For a column of the list, the left offset is the total width strictly before it and the right offset the total width strictly after it. |
| StickyStyle.OffsetsPartition | src/components/TanstackVirtualizedTable/utils.ts:14-21 | Left offset, the column's own width and right offset add up to the table's width. |
| StickyStyle.EdgeOffsets | src/components/TanstackVirtualizedTable/utils.ts:14-21 | The first column is pinned at 0 on the left, the last at 0 on the right. |
| StickyStyle.LeftOffsetStep | src/components/TanstackVirtualizedTable/utils.ts:21 | Each left offset is the previous one plus the previous column's width. |
| StickyStyle.LeftOffsetMonotone | src/components/TanstackVirtualizedTable/utils.ts:21 | With widths that are not negative, left offsets grow from left to right. |

## Left out

- Add, Subtract, Multiply: exact here. decimal.js rounds results to 28 significant digits (decimal.ts:7-11), and that rounding is not modelled.
- Divide, Average: return the exact real quotient; the 28-digit rounding of `div` is not modelled.
- `number` inputs to the wrappers and `number` thresholds of the chain methods (decimal.ts:28-33, decimalSchema.ts:72-74): floating point is not modelled. Thresholds are strings or Decimal instances.
- `toNumber` (decimal.ts:356-362) and `decimalFromNumber` (decimalSchema.ts:349-363) convert to and from floating point, so they are not modelled.
- The other literal forms `new Decimal` (decimal.ts:64) accepts: the exponent notation (`1e5` parses to 100000), the `0x`/`0b`/`0o` prefixed forms, and `NaN` and `Infinity` (so `isValid("NaN")` and `isValid("Infinity")` are true in the code). Their letters lie outside `NumText`, so none of them can be written here. The `toExpNeg`/`toExpPos` configuration (decimal.ts:7-11) only keeps `toString` from writing exponent notation; it does not stop these forms from being parsed.
- DecimalUtils.ParseDecimal: text is limited to digits, `.`, `,`, `+`, `-` and the space, by the `NumText` type. Other white space is excluded too, although `str.trim()` (decimal.ts:36) strips tab, newline, no-break space and the rest at the ends, so `"\t12\n"` parses to 12 in the code and cannot be stated here. Every other character fails decimal.js's grammar in the code, except in the exponent, prefixed, `NaN` and `Infinity` forms named above, which decimal.js accepts.
- DecimalUtils.Round, DecimalUtils.Floor, DecimalUtils.Ceil: `places` is a `nat`. decimal.js's `toDecimalPlaces` throws a RangeError for a negative, fractional or above-1e9 number of places (its `checkInt32(dp, 0, 1e9)`), and the wrappers (decimal.ts:270, 284, 298) do not catch it. The model cannot state the negative or fractional cases, and above 1e9 it returns a rounded value instead of the throw.
- DecimalUtils.FormatDecimal: `decimalPlaces` is an `Option<nat>`, so the same RangeError of `toFixed` (decimal.ts:100) is not modelled, and above 1e9 places the model renders instead of throwing. `Group` inserts `thousandSeparator` literally, while `String.replace` (decimal.ts:109) reads `$$`, `$&`, `` $` ``, `$'` and `$1` in it as replacement patterns (`"$$"` inserts `"$"`); the model matches the code only for separators without `$`.
- The `console.log` in `greaterThanOrEqual` (decimalSchema.ts:150-154) is output only.
- zod's own machinery: `safeParse`, issue objects and paths, and the non-string inputs zod rejects first. A validation result is the ordered list of failing messages.
- DecimalSchema.Schema.MaxDecimalPlaces: the limit is a `nat`. `maxDecimalPlaces` (decimalSchema.ts:283-308) accepts any number: with a negative limit every value with a fraction fails and the default message names that negative number, and a fractional limit p acts as its floor in `decimalPart.length <= places` while the message names p itself. Neither case is modelled; every call in the application passes 2 or 3.
- The React components, rendering, react-hook-form wiring and the live editing of `NumericFormat` (caret handling, grouping while typing, pasting) are not modelled; only the `isAllowed` callback is.
- Currency.CurrencyConfig: `separatorCharacter` is any string or absent, as in the `CurrencyConfig` type of AppConfigProvider.tsx:4-12. That type also ties an absent or `never` character to `useThousandSeparator: false`, which the model does not enforce, so it also covers configurations the type rules out. Getting the configuration through the React context is not modelled.
- Currency.AcceptedAtSetup: the thrown `Error` is modelled as this predicate being false.
- PriceCell.ParseInt: leading white space is never skipped, since the clean-up leaves none. The `-0` that `parseInt("-0")` returns is the integer 0, since the form stores it as 0 either way.
- PriceCell.ParsePrice: integers are unbounded, so the loss of precision of JavaScript numbers beyond 2^53 is not modelled.
- StickyStyle.GetStickyStyle: column widths are integers rather than floating-point numbers. `position: 'sticky'` and the `${offset}px` text are implied by the style's constructor and not rendered.
