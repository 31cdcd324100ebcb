/**
 * The JavaScript string operations the core is built from: `trim`,
 * `lastIndexOf`, `replace(/c/g, '')`, `replace(c, d)` (first occurrence only),
 * `split` at the first occurrence and the `/0+$/` strip.
 */
module Strings {

  /** `s.indexOf(c)`, with |s| standing for "not found". */
  function IndexOf(s: string, c: char): (i: nat)
    ensures i <= |s|
    ensures i < |s| ==> s[i] == c
    ensures c !in s[..i]
  {
    if s == [] then 0
    else if s[0] == c then 0
    else
      var j := IndexOf(s[1..], c);
      assert s[..j + 1] == [s[0]] + s[1..][..j];
      1 + j
  }

  /** `s.lastIndexOf(c)`: -1 when c does not occur. */
  function LastIndexOf(s: string, c: char): (i: int)
    ensures -1 <= i < |s|
    ensures i == -1 <==> c !in s
    ensures i >= 0 ==> s[i] == c && c !in s[i + 1..]
  {
    if s == [] then -1
    else if s[|s| - 1] == c then |s| - 1
    else
      var init := s[..|s| - 1];
      assert s == init + [s[|s| - 1]];
      var j := LastIndexOf(init, c);
      assert j >= 0 ==> s[j + 1..] == init[j + 1..] + [s[|s| - 1]];
      j
  }

  /** The last occurrence of c is the one with no c after it. */
  lemma LastIndexOfAt(s: string, c: char, k: nat)
    requires k < |s| && s[k] == c && c !in s[k + 1..]
    ensures LastIndexOf(s, c) == k
  {
  }

  /** Every c in the prefix s[..k] lies before position k. */
  lemma LastIndexOfBefore(s: string, c: char, k: nat)
    requires k <= |s| && c !in s[k..]
    ensures LastIndexOf(s, c) < k
  {
  }

  /** `s.replace(/c/g, '')`. */
  function RemoveAll(s: string, c: char): (r: string)
    ensures c !in r
  {
    if s == [] then []
    else (if s[0] == c then [] else [s[0]]) + RemoveAll(s[1..], c)
  }

  /** Every character other than c survives the removal, and nothing else appears. */
  lemma {:induction false} RemoveAllKeeps(s: string, c: char, x: char)
    requires x != c
    ensures x in RemoveAll(s, c) <==> x in s
  {
    if s != [] {
      RemoveAllKeeps(s[1..], c, x);
      assert s == [s[0]] + s[1..];
    }
  }

  lemma {:induction false} RemoveAllAppend(a: string, b: string, c: char)
    ensures RemoveAll(a + b, c) == RemoveAll(a, c) + RemoveAll(b, c)
  {
    if a != [] {
      assert (a + b)[1..] == a[1..] + b;
      RemoveAllAppend(a[1..], b, c);
    } else {
      assert a + b == b;
    }
  }

  lemma {:induction false} RemoveAllAbsent(s: string, c: char)
    requires c !in s
    ensures RemoveAll(s, c) == s
  {
    if s != [] {
      assert s == [s[0]] + s[1..];
      RemoveAllAbsent(s[1..], c);
    }
  }

  /** Removing c from p + x + q touches only x when c occurs in neither p nor q. */
  lemma RemoveAllInside(p: string, x: string, q: string, c: char)
    requires c !in p && c !in q
    ensures RemoveAll(p + x + q, c) == p + RemoveAll(x, c) + q
  {
    var px := p + x;
    RemoveAllAppend(px, q, c);
    RemoveAllAppend(p, x, c);
    RemoveAllAbsent(p, c);
    RemoveAllAbsent(q, c);
    assert RemoveAll(px, c) == p + RemoveAll(x, c);
  }

  /** `s.replace(c, d)` with a one-character pattern: only the first c changes. */
  function ReplaceFirst(s: string, c: char, d: char): (r: string)
    ensures |r| == |s|
  {
    var i := IndexOf(s, c);
    if i == |s| then s else s[..i] + [d] + s[i + 1..]
  }

  lemma ReplaceFirstAt(a: string, c: char, d: char, b: string)
    requires c !in a
    ensures ReplaceFirst(a + [c] + b, c, d) == a + [d] + b
  {
    var s := a + [c] + b;
    IndexOfAt(a, c, b);
    assert s[..|a|] == a && s[|a| + 1..] == b;
  }

  lemma IndexOfAt(a: string, c: char, b: string)
    requires c !in a
    ensures IndexOf(a + [c] + b, c) == |a|
  {
    var s := a + [c] + b;
    assert s[|a|] == c;
    assert s[..|a|] == a;
  }

  lemma ReplaceFirstAbsent(s: string, c: char, d: char)
    requires c !in s
    ensures ReplaceFirst(s, c, d) == s
  {
    assert IndexOf(s, c) == |s|;
  }

  /** The text before the first c (all of s when c is absent). */
  function Before(s: string, c: char): (r: string)
    ensures c !in r
    ensures |r| <= |s| && r == s[..|r|]
  {
    s[..IndexOf(s, c)]
  }

  /** The text after the first c (empty when c is absent). */
  function After(s: string, c: char): (r: string)
  {
    var i := IndexOf(s, c);
    if i == |s| then [] else s[i + 1..]
  }

  lemma BeforeAfterAt(a: string, c: char, b: string)
    requires c !in a
    ensures Before(a + [c] + b, c) == a && After(a + [c] + b, c) == b
  {
    var s := a + [c] + b;
    IndexOfAt(a, c, b);
    assert s[..|a|] == a && s[|a| + 1..] == b;
  }

  lemma BeforeAfterAbsent(s: string, c: char)
    requires c !in s
    ensures Before(s, c) == s && After(s, c) == []
  {
    assert IndexOf(s, c) == |s|;
  }

  /** Drops the leading spaces. */
  function TrimStart(s: string): string {
    if s != [] && s[0] == ' ' then TrimStart(s[1..]) else s
  }

  /** Drops the trailing spaces. */
  function TrimEnd(s: string): string {
    if s != [] && s[|s| - 1] == ' ' then TrimEnd(s[..|s| - 1]) else s
  }

  /** `s.trim()` over text whose only white space is the plain space. */
  function Trim(s: string): string {
    TrimEnd(TrimStart(s))
  }

  /** TrimStart keeps a suffix, cuts only spaces, and stops at a non-space. */
  lemma {:induction false} TrimStartSpec(s: string)
    ensures var r := TrimStart(s);
      |r| <= |s| && r == s[|s| - |r|..] && (r != [] ==> r[0] != ' ') &&
      forall i | 0 <= i < |s| - |r| :: s[i] == ' '
  {
    if s != [] && s[0] == ' ' {
      TrimStartSpec(s[1..]);
      var r := TrimStart(s[1..]);
      assert forall i | 1 <= i < |s| - |r| :: s[i] == s[1..][i - 1];
    }
  }

  /** TrimEnd keeps a prefix, cuts only spaces, and stops at a non-space. */
  lemma {:induction false} TrimEndSpec(s: string)
    ensures var r := TrimEnd(s);
      |r| <= |s| && r == s[..|r|] && (r != [] ==> r[|r| - 1] != ' ') &&
      forall i | |r| <= i < |s| :: s[i] == ' '
  {
    if s != [] && s[|s| - 1] == ' ' {
      TrimEndSpec(s[..|s| - 1]);
    }
  }

  /**
   * `trim` keeps the contiguous middle of s that neither starts nor ends
   * with a space, and cuts only spaces around it.
   */
  lemma TrimSpec(s: string)
    ensures |TrimStart(s)| <= |s|
    ensures var r, n := Trim(s), |s| - |TrimStart(s)|;
      n + |r| <= |s| && r == s[n..n + |r|] &&
      (r != [] ==> r[0] != ' ' && r[|r| - 1] != ' ') &&
      (forall i | 0 <= i < n :: s[i] == ' ') &&
      (forall i | n + |r| <= i < |s| :: s[i] == ' ')
  {
    var t := TrimStart(s);
    TrimStartSpec(s);
    TrimEndSpec(t);
    var r, n := Trim(s), |s| - |t|;
    assert forall i | n + |r| <= i < |s| :: s[i] == t[i - n];
  }

  lemma {:induction false} TrimAllSpaces(s: string)
    requires forall i | 0 <= i < |s| :: s[i] == ' '
    ensures Trim(s) == []
  {
    TrimStartSpec(s);
    assert TrimStart(s) == [];
  }

  lemma TrimNoSpace(s: string)
    requires ' ' !in s
    ensures Trim(s) == s
  {
    if s != [] {
      assert s[0] in s && s[|s| - 1] in s;
    }
  }

  /** `s.replace(/0+$/, '')`. */
  function StripTrailingZeros(s: string): (r: string)
    ensures |r| <= |s| && r == s[..|r|]
    ensures r != [] ==> r[|r| - 1] != '0'
    ensures forall i | |r| <= i < |s| :: s[i] == '0'
  {
    if s != [] && s[|s| - 1] == '0' then
      var r := StripTrailingZeros(s[..|s| - 1]);
      assert r == s[..|r|];
      r
    else s
  }

  /** Number of occurrences of c in s. */
  function Count(s: string, c: char): (n: nat)
    ensures n == 0 <==> c !in s
  {
    if s == [] then 0 else (if s[0] == c then 1 else 0) + Count(s[1..], c)
  }

  lemma {:induction false} CountAppend(a: string, b: string, c: char)
    ensures Count(a + b, c) == Count(a, c) + Count(b, c)
  {
    if a == [] {
      assert a + b == b;
    } else {
      assert (a + b)[1..] == a[1..] + b;
      CountAppend(a[1..], b, c);
    }
  }

  /** Removing one character leaves the count of every other character unchanged. */
  lemma {:induction false} CountRemoveAll(s: string, c: char, x: char)
    requires x != c
    ensures Count(RemoveAll(s, c), x) == Count(s, x)
  {
    if s != [] {
      CountRemoveAll(s[1..], c, x);
      CountAppend(if s[0] == c then [] else [s[0]], RemoveAll(s[1..], c), x);
    }
  }

  /** Replacing the first c by another character removes exactly one c. */
  lemma CountReplaceFirst(s: string, c: char, d: char)
    requires c in s && c != d
    ensures Count(ReplaceFirst(s, c, d), c) == Count(s, c) - 1
  {
    var i := IndexOf(s, c);
    assert s == s[..i] + [c] + s[i + 1..];
    CountAppend(s[..i] + [c], s[i + 1..], c);
    CountAppend(s[..i], [c], c);
    CountAppend(s[..i] + [d], s[i + 1..], c);
    CountAppend(s[..i], [d], c);
    assert [c][1..] == [] && [d][1..] == [];
  }

  /** Replacing the first c keeps every character other than c. */
  lemma ReplaceFirstKeeps(s: string, c: char, d: char, x: char)
    requires x != c && x in s
    ensures x in ReplaceFirst(s, c, d)
  {
    var i := IndexOf(s, c);
    if i < |s| {
      var k :| 0 <= k < |s| && s[k] == x;
      var r := ReplaceFirst(s, c, d);
      assert r[k] == x;
    }
  }
}
