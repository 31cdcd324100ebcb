/**
 * What `parseDecimal` (src/utils/decimal.ts:19-68) accepts and rejects:
 * blank and sign-only text, inner spaces, the separator rules, and the
 * values it reads.
 */
module DecimalParseFacts {
  import opened Wrappers
  import opened Digits
  import opened Strings
  import opened DecimalJs
  import opened DecimalUtils

  /** The separator that is not `mark`. */
  function Other(mark: char): char {
    if mark == '.' then ',' else '.'
  }

  /** Digits, possibly interleaved with the separator `o`. */
  predicate DigitsAnd(x: string, o: char) {
    forall i | 0 <= i < |x| :: IsDigit(x[i]) || x[i] == o
  }

  lemma {:induction false} DigitsAfterRemoval(x: string, o: char)
    requires DigitsAnd(x, o)
    ensures AllDigits(RemoveAll(x, o))
  {
    if x != [] {
      DigitsAfterRemoval(x[1..], o);
      var head := if x[0] == o then [] else [x[0]];
      AllDigitsAppend(head, RemoveAll(x[1..], o));
    }
  }

  // ---------------------------------------------------------------------
  // Rejections.

  /** `null`, `""`, blank text and a lone `-` (after trimming) are all `null`. */
  lemma ParseRejectsBlank(s: NumText)
    requires (forall i | 0 <= i < |s| :: s[i] == ' ') || Trim(s) == "-"
    ensures ParseDecimal(Text(s)) == None
    ensures ParseDecimal(Missing) == None
  {
    if forall i | 0 <= i < |s| :: s[i] == ' ' {
      TrimAllSpaces(s);
    }
  }

  /** `trim` only removes outer spaces, so a space inside the number makes decimal.js throw. */
  lemma ParseRejectsInnerSpace(s: NumText)
    requires ' ' in Trim(s)
    ensures ParseDecimal(Text(s)) == None
  {
  }

  /**
   * More than one decimal mark fails: when `mark` is the kind that occurs
   * last, it is the decimal mark, and if it occurs twice the rewritten
   * text keeps a second `.` (for `.`) or a `,` (for `,`, of which only the
   * first is rewritten), which decimal.js rejects.
   */
  lemma ParseRejectsRepeatedMark(s: NumText, mark: char)
    requires mark == '.' || mark == ','
    requires LastIndexOf(Trim(s), Other(mark)) < LastIndexOf(Trim(s), mark)
    requires Count(Trim(s), mark) >= 2
    ensures ParseDecimal(Text(s)) == None
  {
    var t := Trim(s);
    assert s != "" && t != "" && t != "-" by {
      assert mark in t;
    }
    var n := Normalize(t);
    NormalizeMarkLast(t, mark);
    if mark == '.' {
      CountRemoveAll(t, ',', '.');
    } else {
      var noDots := RemoveAll(t, '.');
      CountRemoveAll(t, '.', ',');
      CountReplaceFirst(noDots, ',', '.');
      assert ',' in n;
      RejectsComma(n);
    }
  }

  lemma RejectsComma(v: string)
    requires ',' in v
    ensures ParseLiteral(v) == None
  {
    var i :| 0 <= i < |v| && v[i] == ',';
    assert !IsDigit(v[i]);
  }

  // ---------------------------------------------------------------------
  // What is read.

  /** The characters of a separated amount are amount characters, and none is a space. */
  lemma SeparatedChars(sign: string, x: string, mark: char, f: string)
    requires sign == "" || sign == "-"
    requires mark == '.' || mark == ','
    requires DigitsAnd(x, Other(mark)) && AllDigits(f)
    ensures forall i | 0 <= i < |sign + x + [mark] + f| ::
              IsNumChar((sign + x + [mark] + f)[i]) && (sign + x + [mark] + f)[i] != ' '
  {
    var s := sign + x + [mark] + f;
    var k := |sign| + |x|;
    forall i | 0 <= i < |s|
      ensures IsNumChar(s[i]) && s[i] != ' '
    {
      if i < |sign| {
        assert s[i] == sign[i];
      } else if i < k {
        assert s[i] == x[i - |sign|];
      } else if i > k {
        assert s[i] == f[i - k - 1];
      }
    }
  }

  /**
   * When `mark` occurs after every separator of the other kind, `mark` is
   * the decimal mark: for `.` the commas are deleted; for `,` the dots are
   * deleted and the first comma becomes the point.
   */
  lemma NormalizeMarkLast(s: string, mark: char)
    requires mark == '.' || mark == ','
    requires LastIndexOf(s, Other(mark)) < LastIndexOf(s, mark)
    ensures Normalize(s) ==
              if mark == '.' then RemoveAll(s, ',') else ReplaceFirst(RemoveAll(s, '.'), ',', '.')
  {
  }

  /** Deleting the other kind from sign, digits-and-separators, mark, digits. */
  lemma RemoveOtherKind(sign: string, x: string, mark: char, f: string)
    requires sign == "" || sign == "-"
    requires mark == '.' || mark == ','
    requires AllDigits(f)
    ensures RemoveAll(sign + x + [mark] + f, Other(mark)) == sign + RemoveAll(x, Other(mark)) + [mark] + f
  {
    var o := Other(mark);
    NoDotInDigits(f);
    NoCommaInDigits(f);
    var q := [mark] + f;
    assert o !in q;
    assert o !in sign;
    RemoveAllInside(sign, x, q, o);
    assert sign + x + [mark] + f == sign + x + q;
    assert sign + RemoveAll(x, o) + q == sign + RemoveAll(x, o) + [mark] + f;
  }

  /** In a separated amount the mark is the last separator. */
  lemma MarkIsLast(sign: string, x: string, mark: char, f: string)
    requires mark == '.' || mark == ','
    requires AllDigits(f)
    ensures LastIndexOf(sign + x + [mark] + f, Other(mark)) < LastIndexOf(sign + x + [mark] + f, mark)
  {
    var s := sign + x + [mark] + f;
    var k := |sign| + |x|;
    var q := [mark] + f;
    NoDotInDigits(f);
    NoCommaInDigits(f);
    assert s == (sign + x) + q;
    assert s[k..] == q && s[k] == mark && s[k + 1..] == f;
    LastIndexOfAt(s, mark, k);
    LastIndexOfBefore(s, Other(mark), k);
  }

  /**
   * The separator rewrite on a separated amount: the other-kind separators
   * are deleted and the mark becomes the point, whichever the mark is.
   */
  lemma NormalizeSeparated(sign: string, x: string, mark: char, f: string)
    requires sign == "" || sign == "-"
    requires mark == '.' || mark == ','
    requires DigitsAnd(x, Other(mark)) && AllDigits(f)
    ensures Normalize(sign + x + [mark] + f) == sign + RemoveAll(x, Other(mark)) + "." + f
  {
    var o := Other(mark);
    var s := sign + x + [mark] + f;
    var digits := RemoveAll(x, o);
    MarkIsLast(sign, x, mark, f);
    NormalizeMarkLast(s, mark);
    RemoveOtherKind(sign, x, mark, f);
    if mark == ',' {
      assert ',' !in x;
      RemoveAllKeeps(x, '.', ',');
      assert ',' !in sign + digits;
      ReplaceFirstAt(sign + digits, ',', '.', f);
    }
  }

  /** A separated amount is left alone by `trim` and is not a lone `-`. */
  lemma SeparatedIsTrimmed(sign: string, x: string, mark: char, f: string)
    requires sign == "" || sign == "-"
    requires mark == '.' || mark == ','
    requires DigitsAnd(x, Other(mark)) && AllDigits(f)
    ensures Trim(sign + x + [mark] + f) == sign + x + [mark] + f
    ensures sign + x + [mark] + f != "-"
  {
    var s := sign + x + [mark] + f;
    SeparatedChars(sign, x, mark, f);
    assert ' ' !in s;
    TrimNoSpace(s);
    assert |s| == 1 ==> s[0] == mark;
  }

  /** decimal.js reads an optional `-`, digits, the point and digits. */
  lemma ParsePointLiteral(sign: string, digits: string, f: string)
    requires sign == "" || sign == "-"
    requires AllDigits(digits) && AllDigits(f) && (digits != [] || f != [])
    ensures AllDigits(digits + f)
    ensures ParseLiteral(sign + digits + "." + f) == Some(Decimal(sign == "-", DigitsToNat(digits + f), |f|))
  {
    var body := digits + "." + f;
    assert sign + digits + "." + f == sign + body;
    ParseUnsignedPoint(digits, f);
    assert body[0] == (if digits != [] then digits[0] else '.');
    ParseLiteralSigned(sign, body);
  }

  /**
   * An optional `-`, then digits possibly interleaved with the other
   * separator kind, then the decimal mark, then digits, reads as the
   * digits run together with the scale set by the digits after the mark.
   * So "1.234,56" and "1,234.56" read the same, and "1.234" is 1.234.
   */
  lemma ParseSeparated(s: string, sign: string, x: string, mark: char, f: string)
    requires s == sign + x + [mark] + f
    requires sign == "" || sign == "-"
    requires mark == '.' || mark == ','
    requires DigitsAnd(x, Other(mark)) && AllDigits(f)
    requires RemoveAll(x, Other(mark)) != [] || f != []
    ensures forall i | 0 <= i < |s| :: IsNumChar(s[i])
    ensures AllDigits(RemoveAll(x, Other(mark)) + f)
    ensures ParseDecimal(Text(s)) ==
              Some(Decimal(sign == "-", DigitsToNat(RemoveAll(x, Other(mark)) + f), |f|))
  {
    var digits := RemoveAll(x, Other(mark));
    DigitsAfterRemoval(x, Other(mark));
    SeparatedChars(sign, x, mark, f);
    SeparatedIsTrimmed(sign, x, mark, f);
    NormalizeSeparated(sign, x, mark, f);
    ParsePointLiteral(sign, digits, f);
  }

  /** The unsigned form of the text `ParseSeparated` reads. */
  lemma UnsignedText(x: string, mark: char, f: string)
    ensures x + [mark] + f == "" + x + [mark] + f
  {
  }

  lemma NoCommaInDigits(s: string)
    requires AllDigits(s)
    ensures ',' !in s
  {
  }

  /** Without separators the rewrite leaves the text alone. */
  lemma NormalizeNoSeparator(s: string)
    requires '.' !in s && ',' !in s
    ensures Normalize(s) == s
  {
  }

  /** Digits after an optional sign: amount characters, no space, no separator. */
  lemma SignedDigitsChars(sign: string, ds: string)
    requires sign == "" || sign == "-" || sign == "+"
    requires AllDigits(ds)
    ensures forall i | 0 <= i < |sign + ds| ::
              IsNumChar((sign + ds)[i]) && (sign + ds)[i] != ' ' && (sign + ds)[i] != '.' && (sign + ds)[i] != ','
  {
    var s := sign + ds;
    forall i | 0 <= i < |s|
      ensures IsNumChar(s[i]) && s[i] != ' ' && s[i] != '.' && s[i] != ','
    {
      if i >= |sign| {
        assert s[i] == ds[i - |sign|];
      }
    }
  }

  /** Text with no separator at all reads as the integer it spells. */
  lemma ParseInteger(sign: string, ds: string)
    requires sign == "" || sign == "-" || sign == "+"
    requires ds != [] && AllDigits(ds)
    ensures forall i | 0 <= i < |sign + ds| :: IsNumChar((sign + ds)[i])
    ensures ParseDecimal(Text(sign + ds)) == Some(Decimal(sign == "-", DigitsToNat(ds), 0))
  {
    var s := sign + ds;
    SignedDigitsChars(sign, ds);
    assert ' ' !in s && '.' !in s && ',' !in s;
    TrimNoSpace(s);
    NormalizeNoSeparator(s);
    ParseUnsignedDigits(ds);
    ParseLiteralSigned(sign, ds);
  }

  /** Digits and `mark` only. */
  lemma TwoMarksChars(a: string, mark: char, b: string, c: string)
    requires mark == '.' || mark == ','
    requires AllDigits(a) && AllDigits(b) && AllDigits(c)
    ensures DigitsAnd(a + [mark] + b + [mark] + c, mark)
  {
    assert DigitsAnd(a, mark) && DigitsAnd(b, mark) && DigitsAnd(c, mark) && DigitsAnd([mark], mark);
    DigitsAndAppend(a, [mark], mark);
    DigitsAndAppend(a + [mark], b, mark);
    DigitsAndAppend(a + [mark] + b, [mark], mark);
    DigitsAndAppend(a + [mark] + b + [mark], c, mark);
  }

  /** In digits, mark, digits, mark, digits the mark is the last separator and occurs twice. */
  lemma TwoMarksPositions(a: string, mark: char, b: string, c: string)
    requires mark == '.' || mark == ','
    requires AllDigits(c)
    requires Other(mark) !in a + [mark] + b + [mark] + c
    ensures LastIndexOf(a + [mark] + b + [mark] + c, Other(mark)) < LastIndexOf(a + [mark] + b + [mark] + c, mark)
    ensures Count(a + [mark] + b + [mark] + c, mark) >= 2
  {
    var x := a + [mark] + b;
    var y := [mark] + c;
    var s := x + y;
    assert s == a + [mark] + b + [mark] + c;
    var k := |x|;
    assert s[k..] == y && s[k + 1..] == c;
    NoDotInDigits(c);
    NoCommaInDigits(c);
    LastIndexOfAt(s, mark, k);
    assert LastIndexOf(s, Other(mark)) == -1;
    assert x[|a|] == mark && y[0] == mark;
    assert Count(x, mark) >= 1 && Count(y, mark) >= 1;
    CountAppend(x, y, mark);
  }

  /** Digits, a mark, digits, the same mark, digits: rejected. */
  lemma TwoMarks(a: string, mark: char, b: string, c: string)
    requires mark == '.' || mark == ','
    requires AllDigits(a) && AllDigits(b) && AllDigits(c)
    ensures forall i | 0 <= i < |a + [mark] + b + [mark] + c| :: IsNumChar((a + [mark] + b + [mark] + c)[i])
    ensures ParseDecimal(Text(a + [mark] + b + [mark] + c)) == None
  {
    var s := a + [mark] + b + [mark] + c;
    TwoMarksChars(a, mark, b, c);
    assert forall i | 0 <= i < |s| :: IsNumChar(s[i]);
    assert ' ' !in s && Other(mark) !in s;
    TrimNoSpace(s);
    TwoMarksPositions(a, mark, b, c);
    ParseRejectsRepeatedMark(s, mark);
  }

  lemma DigitsAndAppend(x: string, y: string, o: char)
    requires DigitsAnd(x, o) && DigitsAnd(y, o)
    ensures DigitsAnd(x + y, o)
  {
    assert forall i | 0 <= i < |x + y| :: (x + y)[i] == if i < |x| then x[i] else y[i - |x|];
  }

  // ---------------------------------------------------------------------
  // Which texts `isValid` accepts (decimal.ts:315-317).

  /**
   * A number whose last separator is its decimal mark, with the other kind
   * as thousands marks before it, is valid exactly when it has a digit:
   * `1.234,5` and `,5` are, `,` and `-.,` are not.
   */
  lemma IsValidForms(sign: string, x: string, mark: char, f: string)
    requires sign == "" || sign == "-"
    requires mark == '.' || mark == ','
    requires DigitsAnd(x, Other(mark)) && AllDigits(f)
    ensures forall i | 0 <= i < |sign + x + [mark] + f| :: IsNumChar((sign + x + [mark] + f)[i])
    ensures IsValid(Text(sign + x + [mark] + f)) <==> RemoveAll(x, Other(mark)) != [] || f != []
  {
    var s := sign + x + [mark] + f;
    SeparatedChars(sign, x, mark, f);
    if RemoveAll(x, Other(mark)) != [] || f != [] {
      ParseSeparated(s, sign, x, mark, f);
    } else {
      SeparatedIsTrimmed(sign, x, mark, f);
      NormalizeSeparated(sign, x, mark, f);
      assert Normalize(s) == sign + ".";
      PointAlone(sign);
    }
  }

  /** A decimal mark without digits on either side is not a number. */
  lemma PointAlone(sign: string)
    requires sign == "" || sign == "-"
    ensures ParseLiteral(sign + ".") == None
  {
    IndexOfAt("", '.', "");
    assert "" + ['.'] + "" == ".";
    if sign == "-" {
      ParseLiteralSigned("-", ".");
    }
  }

  /** An optionally signed run of digits is valid exactly when it is not empty. */
  lemma IsValidInteger(sign: string, ds: string)
    requires sign == "" || sign == "-" || sign == "+"
    requires AllDigits(ds)
    ensures forall i | 0 <= i < |sign + ds| :: IsNumChar((sign + ds)[i])
    ensures IsValid(Text(sign + ds)) <==> ds != []
  {
    SignedDigitsChars(sign, ds);
    if ds != [] {
      ParseInteger(sign, ds);
    } else {
      assert sign + ds == sign;
      TrimNoSpace(sign);
    }
  }
}
