/**
 * Decimal digit strings and the natural numbers they denote: the
 * conversions that decimal.js performs when it reads a coefficient from text
 * and writes it back.
 */
module Digits {

  predicate IsDigit(c: char) {
    '0' <= c <= '9'
  }

  predicate AllDigits(s: string) {
    forall i | 0 <= i < |s| :: IsDigit(s[i])
  }

  function DigitValue(c: char): (n: nat)
    requires IsDigit(c)
    ensures n < 10
  {
    c as int - '0' as int
  }

  function DigitChar(n: nat): (c: char)
    requires n < 10
    ensures IsDigit(c) && DigitValue(c) == n
  {
    ('0' as int + n) as char
  }

  function Pow10(n: nat): (p: nat)
    ensures p >= 1
  {
    if n == 0 then 1 else 10 * Pow10(n - 1)
  }

  lemma {:induction false} Pow10Add(a: nat, b: nat)
    ensures Pow10(a + b) == Pow10(a) * Pow10(b)
  {
    if b > 0 {
      Pow10Add(a, b - 1);
      assert Pow10(a + b) == 10 * Pow10(a + b - 1);
    }
  }

  lemma {:induction false} Pow10Monotone(a: nat, b: nat)
    requires a <= b
    ensures Pow10(a) <= Pow10(b)
  {
    if a < b {
      Pow10Monotone(a, b - 1);
    }
  }

  /** The number a digit string denotes, most significant digit first. */
  function DigitsToNat(s: string): nat
    requires AllDigits(s)
  {
    if s == [] then 0 else DigitsToNat(s[..|s| - 1]) * 10 + DigitValue(s[|s| - 1])
  }

  lemma {:induction false} AllDigitsAppend(a: string, b: string)
    requires AllDigits(a) && AllDigits(b)
    ensures AllDigits(a + b)
  {
    assert forall i | 0 <= i < |a + b| :: (a + b)[i] == if i < |a| then a[i] else b[i - |a|];
  }

  /** Reading the concatenation of two digit strings shifts the first by the length of the second. */
  lemma {:induction false} DigitsToNatAppend(a: string, b: string)
    requires AllDigits(a) && AllDigits(b)
    ensures AllDigits(a + b)
    ensures DigitsToNat(a + b) == DigitsToNat(a) * Pow10(|b|) + DigitsToNat(b)
  {
    AllDigitsAppend(a, b);
    if b == [] {
      assert a + b == a;
    } else {
      var b' := b[..|b| - 1];
      assert (a + b)[..|a + b| - 1] == a + b';
      DigitsToNatAppend(a, b');
      var d := DigitValue(b[|b| - 1]);
      assert DigitsToNat(a + b) == DigitsToNat(a + b') * 10 + d;
      AppendStep(DigitsToNat(a), Pow10(|b'|), DigitsToNat(b'), d);
    }
  }

  lemma AppendStep(x: nat, p: nat, y: nat, d: nat)
    ensures (x * p + y) * 10 + d == x * (10 * p) + (y * 10 + d)
  {
  }

  /** A digit string of length w denotes a number below 10^w. */
  lemma {:induction false} DigitsToNatBound(s: string)
    requires AllDigits(s)
    ensures DigitsToNat(s) < Pow10(|s|)
  {
    if s != [] {
      DigitsToNatBound(s[..|s| - 1]);
    }
  }

  /** A run of zeros reads as zero. */
  lemma {:induction false} ZerosValue(s: string)
    requires forall i | 0 <= i < |s| :: s[i] == '0'
    ensures AllDigits(s) && DigitsToNat(s) == 0
  {
    if s != [] {
      ZerosValue(s[..|s| - 1]);
    }
  }

  /** decimal.js's rendering of a natural number: no leading zeros, "0" for zero. */
  function NatToDigits(n: nat): (s: string)
    ensures s != [] && AllDigits(s)
    ensures DigitsToNat(s) == n
    ensures n > 0 ==> s[0] != '0'
    ensures n == 0 ==> s == "0"
    decreases n
  {
    if n < 10 then [DigitChar(n)]
    else
      var init := NatToDigits(n / 10);
      var s := init + [DigitChar(n % 10)];
      assert s[..|s| - 1] == init;
      s
  }

  /** The rendering of n takes at most k digits exactly when n is below 10^k. */
  lemma {:induction false} NatToDigitsLength(n: nat, k: nat)
    requires k >= 1
    ensures |NatToDigits(n)| <= k <==> n < Pow10(k)
    decreases n
  {
    if n >= 10 {
      assert |NatToDigits(n)| == |NatToDigits(n / 10)| + 1;
      if k == 1 {
        assert Pow10(1) == 10;
      } else {
        NatToDigitsLength(n / 10, k - 1);
        assert Pow10(k) == 10 * Pow10(k - 1);
      }
    } else {
      Pow10Monotone(1, k);
      assert Pow10(1) == 10;
    }
  }

  /** The low w digits of n, padded on the left with zeros (a fraction part). */
  function PadDigits(n: nat, w: nat): (s: string)
    ensures |s| == w && AllDigits(s)
    ensures DigitsToNat(s) == n % Pow10(w)
    ensures w > 0 ==> s[w - 1] == DigitChar(n % 10)
    decreases w
  {
    if w == 0 then []
    else
      var init := PadDigits(n / 10, w - 1);
      var s := init + [DigitChar(n % 10)];
      assert s[..|s| - 1] == init;
      ModSplit(n, Pow10(w - 1));
      s
  }

  /** n mod 10P is made of the last digit of n and (n div 10) mod P. */
  lemma ModSplit(n: nat, p: nat)
    requires p >= 1
    ensures n % (10 * p) == (n / 10 % p) * 10 + n % 10
  {
    var a := n / 10 / p;
    var b := n / 10 % p;
    assert n / 10 == p * a + b;
    assert n == 10 * (n / 10) + n % 10;
    assert n == (10 * p) * a + (b * 10 + n % 10);
    DivModUnique(n, 10 * p, a, b * 10 + n % 10);
  }

  lemma DivModUnique(n: int, d: int, q: int, r: int)
    requires d > 0 && n == d * q + r && 0 <= r < d
    ensures n / d == q && n % d == r
  {
    var q', r' := n / d, n % d;
    assert n == d * q' + r' && 0 <= r' < d;
    var k := q - q';
    assert d * k == r' - r by {
      assert d * q - d * q' == d * k;
    }
    if k > 0 {
      MulAtLeast(d, k);
    } else if k < 0 {
      MulAtLeast(d, -k);
    }
  }

  lemma MulAtLeast(d: int, k: int)
    requires d > 0 && k >= 1
    ensures d * k >= d
  {
    assert d * k == d * (k - 1) + d;
    assert d * (k - 1) >= 0;
  }

  /** Euclidean division of a natural number by a positive one stays natural. */
  lemma DivNat(c: int, p: int)
    requires c >= 0 && p >= 1
    ensures c / p >= 0 && c % p < p
    ensures c == p * (c / p) + c % p
  {
  }

  lemma ModOfSmall(m: int, p: int)
    requires 0 <= m < p
    ensures m % p == m
  {
    DivModUnique(m, p, 0, m);
  }

  /** Keeping the low k >= 1 digits keeps the last digit. */
  lemma ModLastDigit(c: nat, k: nat)
    requires k >= 1
    ensures c % Pow10(k) % 10 == c % 10
  {
    var p' := Pow10(k - 1);
    assert Pow10(k) == 10 * p';
    ModSplit(c, p');
    var x := c / 10 % p';
    DivModUnique(x * 10 + c % 10, 10, x, c % 10);
  }

  /** The integer part of c / 10^k. */
  function Shifted(c: nat, k: nat): (q: nat)
    ensures q == c / Pow10(k)
  {
    DivNat(c, Pow10(k));
    c / Pow10(k)
  }

  /** The low k digits of c. */
  function LowDigits(c: nat, k: nat): (m: nat)
    ensures m == c % Pow10(k) && m < Pow10(k)
  {
    DivNat(c, Pow10(k));
    c % Pow10(k)
  }

  lemma ShiftedRecombine(c: nat, k: nat)
    ensures c == Shifted(c, k) * Pow10(k) + LowDigits(c, k)
  {
    DivNat(c, Pow10(k));
  }
}
