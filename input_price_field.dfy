/**
 * The `isAllowed` gate of src/components/InputPriceField.tsx: an edit of
 * the price field is kept only when the integer part of the raw value,
 * without a leading `-`, has at most `maxIntegerDigits` characters.
 */
module InputPriceField {
  import opened Digits

  /** The default of the `maxIntegerDigits` property. */
  const DefaultMaxIntegerDigits := 18

  predicate IsSeparator(c: char) {
    c == '.' || c == ','
  }

  /** `raw.split(/[.,]/)[0]`: the text before the first `.` or `,`. */
  function IntegerPart(raw: string): (r: string)
    ensures r <= raw
    ensures forall i | 0 <= i < |r| :: !IsSeparator(r[i])
    ensures |r| == |raw| || IsSeparator(raw[|r|])
  {
    if raw == [] || IsSeparator(raw[0]) then []
    else [raw[0]] + IntegerPart(raw[1..])
  }

  /** The integer part without one leading `-`. */
  function IntegerDigits(raw: string): string {
    var intPart := IntegerPart(raw);
    if |intPart| > 0 && intPart[0] == '-' then intPart[1..] else intPart
  }

  /** `isAllowed` for the raw value and the field's `maxIntegerDigits`. */
  predicate IsAllowed(raw: string, maxIntegerDigits: int) {
    |IntegerDigits(raw)| <= maxIntegerDigits
  }

  /** The integer part of text without separators is the whole text. */
  lemma {:induction false} IntegerPartWhole(s: string)
    requires forall i | 0 <= i < |s| :: !IsSeparator(s[i])
    ensures IntegerPart(s) == s
    decreases |s|
  {
    if s != [] {
      IntegerPartWhole(s[1..]);
    }
  }

  /** Whatever follows the first separator is not part of the integer part. */
  lemma {:induction false} IntegerPartCut(i: string, sep: char, f: string)
    requires forall k | 0 <= k < |i| :: !IsSeparator(i[k])
    requires IsSeparator(sep)
    ensures IntegerPart(i + [sep] + f) == i
    decreases |i|
  {
    if i == [] {
      assert (i + [sep] + f)[0] == sep;
    } else {
      assert (i + [sep] + f)[1..] == i[1..] + [sep] + f;
      IntegerPartCut(i[1..], sep, f);
    }
  }

  /** The digits after the decimal separator never change the verdict. */
  lemma FractionIrrelevant(i: string, sep: char, f: string, maxIntegerDigits: int)
    requires forall k | 0 <= k < |i| :: !IsSeparator(i[k])
    requires IsSeparator(sep)
    ensures IsAllowed(i + [sep] + f, maxIntegerDigits) == IsAllowed(i, maxIntegerDigits)
  {
    IntegerPartCut(i, sep, f);
    IntegerPartWhole(i);
  }

  /** The empty value and a lone `-` pass any limit that is not negative. */
  lemma EmptyAndSignAllowed(maxIntegerDigits: int)
    requires maxIntegerDigits >= 0
    ensures IsAllowed("", maxIntegerDigits)
    ensures IsAllowed("-", maxIntegerDigits)
  {
    IntegerPartWhole("-");
  }

  /**
   * With the default limit a run of digits, signed or not, is allowed
   * exactly when it has at most 18 digits.
   */
  lemma DefaultLimit(ds: string)
    requires AllDigits(ds)
    ensures IsAllowed(ds, DefaultMaxIntegerDigits) <==> |ds| <= 18
    ensures IsAllowed("-" + ds, DefaultMaxIntegerDigits) <==> |ds| <= 18
  {
    IntegerPartWhole(ds);
    IntegerPartWhole("-" + ds);
    assert ("-" + ds)[1..] == ds;
  }

  /**
   * An 18-digit value is kept and any further integer digit is refused,
   * so the field stays at 18 digits.
   */
  lemma NineteenthDigitRefused(ds: string, d: char)
    requires AllDigits(ds) && |ds| == 18 && IsDigit(d)
    ensures IsAllowed(ds, DefaultMaxIntegerDigits)
    ensures !IsAllowed(ds + [d], DefaultMaxIntegerDigits)
  {
    DefaultLimit(ds);
    DefaultLimit(ds + [d]);
  }

  /** Deleting from the end of an allowed value keeps it allowed. */
  lemma PrefixAllowed(raw: string, n: nat, maxIntegerDigits: int)
    requires n <= |raw| && IsAllowed(raw, maxIntegerDigits) && maxIntegerDigits >= 0
    ensures IsAllowed(raw[..n], maxIntegerDigits)
  {
    IntegerPartPrefix(raw, n);
  }

  /** The integer part of a prefix is a prefix of the integer part. */
  lemma {:induction false} IntegerPartPrefix(raw: string, n: nat)
    requires n <= |raw|
    ensures IntegerPart(raw[..n]) <= IntegerPart(raw)
    decreases n
  {
    if n > 0 && !IsSeparator(raw[0]) {
      assert raw[..n][1..] == raw[1..][..n - 1];
      IntegerPartPrefix(raw[1..], n - 1);
    }
  }

  /** A larger limit allows everything a smaller one does. */
  lemma LimitMonotone(raw: string, m: int, m': int)
    requires IsAllowed(raw, m) && m <= m'
    ensures IsAllowed(raw, m')
  {
  }
}
