/**
 * `parsePrice` of src/pages/Page4/DataCell.tsx, of which
 * src/pages/Page4/DataHeaderCell.tsx holds an identical copy: the price
 * text a table cell's input reports becomes the integer the form stores.
 * Every character other than a digit or `-` is dropped, the rest is read
 * by JavaScript's `parseInt(…, 10)`, and text it cannot read gives 0.
 */
module PriceCell {
  import opened Wrappers
  import opened Digits
  import opened Strings
  import opened DecimalUtils
  import opened DecimalFormatFacts

  /** The characters `/[^\d-]/g` does not match. */
  predicate Kept(c: char) {
    IsDigit(c) || c == '-'
  }

  /** `val.replace(/[^\d-]/g, '')`. */
  function Cleaned(s: string): (r: string)
    ensures |r| <= |s|
    ensures forall i | 0 <= i < |r| :: Kept(r[i])
  {
    if s == [] then []
    else (if Kept(s[0]) then [s[0]] else []) + Cleaned(s[1..])
  }

  /** The longest run of digits at the front of s. */
  function LeadingDigits(s: string): (r: string)
    ensures AllDigits(r) && |r| <= |s|
  {
    if s == [] || !IsDigit(s[0]) then []
    else [s[0]] + LeadingDigits(s[1..])
  }

  /**
   * `parseInt(s, 10)` on text without leading white space: an optional
   * sign, then the longest run of decimal digits; None is NaN.
   */
  function ParseInt(s: string): Option<int>
  {
    var negative := |s| > 0 && s[0] == '-';
    var rest := if |s| > 0 && (s[0] == '-' || s[0] == '+') then s[1..] else s;
    var ds := LeadingDigits(rest);
    if ds == [] then None
    else if negative then Some(-(DigitsToNat(ds) as int))
    else Some(DigitsToNat(ds))
  }

  /** `parsePrice`: 0 for the empty text and for text `parseInt` cannot read. */
  function ParsePrice(val: string): int {
    if val == "" then 0
    else match ParseInt(Cleaned(val))
      case None => 0
      case Some(n) => n
  }

  // ---------------------------------------------------------------------
  // The clean-up.

  lemma {:induction false} CleanedAppend(a: string, b: string)
    ensures Cleaned(a + b) == Cleaned(a) + Cleaned(b)
    decreases |a|
  {
    if a == [] {
      assert a + b == b;
    } else {
      assert (a + b)[1..] == a[1..] + b;
      CleanedAppend(a[1..], b);
    }
  }

  /** Text made only of digits and `-` is left as it is. */
  lemma {:induction false} CleanedKeepsAll(s: string)
    requires forall i | 0 <= i < |s| :: Kept(s[i])
    ensures Cleaned(s) == s
    decreases |s|
  {
    if s != [] {
      CleanedKeepsAll(s[1..]);
    }
  }

  /** Removing a character the clean-up drops anyway changes nothing. */
  lemma {:induction false} CleanedRemoveAll(s: string, c: char)
    requires !Kept(c)
    ensures Cleaned(RemoveAll(s, c)) == Cleaned(s)
    decreases |s|
  {
    if s != [] {
      var head := if s[0] == c then [] else [s[0]];
      CleanedAppend(head, RemoveAll(s[1..], c));
      CleanedRemoveAll(s[1..], c);
      assert Cleaned(head) == if Kept(s[0]) then [s[0]] else [];
    }
  }

  /** The whole of a digit string is its leading run. */
  lemma {:induction false} LeadingDigitsAll(ds: string)
    requires AllDigits(ds)
    ensures LeadingDigits(ds) == ds
    decreases |ds|
  {
    if ds != [] {
      LeadingDigitsAll(ds[1..]);
    }
  }

  /** The leading run stops at the first `-`. */
  lemma {:induction false} LeadingDigitsStop(ds: string, rest: string)
    requires AllDigits(ds) && (rest == [] || !IsDigit(rest[0]))
    ensures LeadingDigits(ds + rest) == ds
    decreases |ds|
  {
    if ds == [] {
      assert ds + rest == rest;
    } else {
      assert (ds + rest)[1..] == ds[1..] + rest;
      LeadingDigitsStop(ds[1..], rest);
    }
  }

  // ---------------------------------------------------------------------
  // What `parsePrice` returns.

  /**
   * Without a `-`, every digit counts, wherever it stands: the digits are
   * read as one number and text without digits gives 0, so the
   * fractional digits of `12.5` merge into 125.
   */
  lemma ParsePriceDigits(val: string)
    requires forall i | 0 <= i < |val| :: val[i] != '-'
    ensures AllDigits(Cleaned(val))
    ensures ParsePrice(val) == DigitsToNat(Cleaned(val))
  {
    CleanedNoMinus(val);
    ParseIntDigits(Cleaned(val));
  }

  /** `parseInt` reads a whole run of digits; the empty text is NaN. */
  lemma ParseIntDigits(t: string)
    requires AllDigits(t)
    ensures ParseInt(t) == if t == [] then None else Some(DigitsToNat(t))
  {
    LeadingDigitsAll(t);
    if t != [] {
      assert IsDigit(t[0]);
    }
  }

  /** Without a `-`, only digits survive the clean-up. */
  lemma {:induction false} CleanedNoMinus(s: string)
    requires forall i | 0 <= i < |s| :: s[i] != '-'
    ensures AllDigits(Cleaned(s))
    decreases |s|
  {
    if s != [] {
      CleanedNoMinus(s[1..]);
      var head := if Kept(s[0]) then [s[0]] else [];
      AllDigitsAppend(head, Cleaned(s[1..]));
    }
  }

  /** One separator between two digit runs is dropped: `12.5` is read as 125. */
  lemma ParsePriceMerges(a: string, sep: char, b: string)
    requires AllDigits(a) && AllDigits(b) && !Kept(sep)
    ensures AllDigits(a + b)
    ensures ParsePrice(a + [sep] + b) == DigitsToNat(a + b)
  {
    AllDigitsAppend(a, b);
    CleanedMerges(a, sep, b);
    ParseIntDigits(a + b);
  }

  lemma CleanedMerges(a: string, sep: char, b: string)
    requires AllDigits(a) && AllDigits(b) && !Kept(sep)
    ensures Cleaned(a + [sep] + b) == a + b
  {
    CleanedAppend(a + [sep], b);
    CleanedAppend(a, [sep]);
    CleanedKeepsAll(a);
    CleanedKeepsAll(b);
    assert Cleaned([sep]) == [];
  }

  /** A signed run of digits is read with its sign. */
  lemma ParsePriceSigned(ds: string)
    requires AllDigits(ds) && ds != []
    ensures ParsePrice(ds) == DigitsToNat(ds)
    ensures ParsePrice("-" + ds) == -(DigitsToNat(ds) as int)
  {
    CleanedKeepsAll(ds);
    ParseIntDigits(ds);
    NegativeRun(ds);
  }

  lemma NegativeRun(ds: string)
    requires AllDigits(ds) && ds != []
    ensures Cleaned("-" + ds) == "-" + ds
    ensures ParseInt("-" + ds) == Some(-(DigitsToNat(ds) as int))
  {
    CleanedKeepsAll("-" + ds);
    LeadingDigitsAll(ds);
    assert ("-" + ds)[1..] == ds;
  }

  /** Reading stops at the first `-` after the digits: `12-3` gives 12. */
  lemma ParsePriceStopsAtMinus(sign: string, ds: string, rest: string)
    requires sign == "" || sign == "-"
    requires AllDigits(ds) && ds != []
    ensures ParsePrice(sign + ds + "-" + rest) == if sign == "" then DigitsToNat(ds) else -(DigitsToNat(ds) as int)
  {
    CleanedStops(sign, ds, rest);
    ParseIntStops(sign, ds, "-" + Cleaned(rest));
  }

  lemma CleanedStops(sign: string, ds: string, rest: string)
    requires sign == "" || sign == "-"
    requires AllDigits(ds)
    ensures Cleaned(sign + ds + "-" + rest) == sign + ds + ("-" + Cleaned(rest))
  {
    var head := sign + ds + "-";
    CleanedAppend(head, rest);
    CleanedKeepsAll(head);
  }

  lemma ParseIntStops(sign: string, ds: string, tail: string)
    requires sign == "" || sign == "-"
    requires AllDigits(ds) && ds != [] && (tail == [] || !IsDigit(tail[0]))
    ensures ParseInt(sign + ds + tail) == Some(if sign == "" then DigitsToNat(ds) else -(DigitsToNat(ds) as int))
  {
    LeadingDigitsStop(ds, tail);
    ParseIntRun(ds, tail);
    SignedText(sign, ds, tail);
  }

  lemma SignedText(sign: string, ds: string, tail: string)
    requires sign == "" || sign == "-"
    ensures sign + ds + tail == if sign == "" then ds + tail else "-" + (ds + tail)
  {
  }

  /** `parseInt` reads the leading run of digits, after an optional `-`. */
  lemma ParseIntRun(ds: string, tail: string)
    requires AllDigits(ds) && ds != [] && LeadingDigits(ds + tail) == ds
    ensures ParseInt(ds + tail) == Some(DigitsToNat(ds))
    ensures ParseInt("-" + (ds + tail)) == Some(-(DigitsToNat(ds) as int))
  {
    assert ("-" + (ds + tail))[1..] == ds + tail;
  }

  /** No digit right after the optional sign gives 0: `-` and `--5` do. */
  lemma ParsePriceNoDigits(val: string)
    requires var t := Cleaned(val);
      t == [] || t == "-" || (|t| >= 2 && t[0] == '-' && t[1] == '-')
    ensures ParsePrice(val) == 0
  {
  }

  /**
   * The integer the form stores is read back from its grouped display:
   * every separator other than `-` and the digits is dropped.
   */
  lemma GroupedReadsBack(n: nat, c: char)
    requires !Kept(c)
    ensures ParsePrice(Group(NatToDigits(n), [c])) == n
    ensures ParsePrice("-" + Group(NatToDigits(n), [c])) == -(n as int)
  {
    var ds := NatToDigits(n);
    var g := Group(ds, [c]);
    GroupRemove(ds, c);
    CleanedRemoveAll(g, c);
    CleanedKeepsAll(ds);
    CleanedAppend("-", g);
    ParsePriceSigned(ds);
    GroupNonEmpty(ds, [c]);
  }

  /** The empty text, and fractional digits that merge: `12.5` gives 125. */
  lemma DataCellExamples()
    ensures ParsePrice("") == 0
    ensures ParsePrice("12.5") == 125
    ensures ParsePrice("1.234") == 1234
  {
    ParsePriceMerges("12", '.', "5");
    assert "12" + ['.'] + "5" == "12.5";
    assert "12" + "5" == "125";
    ParsePriceMerges("1", '.', "234");
    assert "1" + ['.'] + "234" == "1.234";
    assert "1" + "234" == "1234";
    SmallValues();
  }

  lemma SmallValues()
    ensures DigitsToNat("12") == 12
    ensures DigitsToNat("125") == 125
    ensures DigitsToNat("1234") == 1234
  {
    assert "12"[..1] == "1";
    assert "125"[..2] == "12";
    assert "123"[..2] == "12";
    assert "1234"[..3] == "123";
  }

  /** A later `-` ends the number, and a sign without digits gives 0. */
  lemma HeaderCellExamples()
    ensures ParsePrice("12-3") == 12
    ensures ParsePrice("-") == 0
    ensures ParsePrice("--5") == 0
  {
    ParsePriceStopsAtMinus("", "12", "3");
    assert "" + "12" + "-" + "3" == "12-3";
    SmallValues();
    ParsePriceNoDigits("-");
    assert Cleaned("--5") == "--5";
    ParsePriceNoDigits("--5");
  }
}
