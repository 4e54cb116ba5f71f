/** The pieces of `java.lang.String` the tile code relies on: decimal
    formatting of an `int` (string concatenation with `+`), and
    `String.replace(CharSequence, CharSequence)`. */
module Strings {

  predicate IsDigit(c: char) {
    '0' <= c <= '9'
  }

  predicate AllDigits(s: string) {
    forall i :: 0 <= i < |s| ==> IsDigit(s[i])
  }

  function DigitChar(d: int): (c: char)
    requires 0 <= d < 10
    ensures IsDigit(c)
  {
    ('0' as int + d) as char
  }

  /** Decimal digits of a natural number, most significant first, no leading zeros. */
  function NatToString(n: nat): (s: string)
    ensures |s| >= 1 && AllDigits(s)
    ensures n >= 10 ==> |s| >= 2
    decreases n
  {
    if n < 10 then [DigitChar(n)] else NatToString(n / 10) + [DigitChar(n % 10)]
  }

  /** `Integer.toString(n)`: a minus sign for negative values, then the digits. */
  function IntToString(n: int): (s: string)
    ensures |s| >= 1
    ensures n >= 0 <==> IsDigit(s[0])
    ensures n < 0 <==> s[0] == '-'
    ensures forall i :: 0 < i < |s| ==> IsDigit(s[i])
  {
    if n < 0 then "-" + NatToString(-n) else NatToString(n)
  }

  lemma {:induction false} NatToStringInjective(a: nat, b: nat)
    requires NatToString(a) == NatToString(b)
    ensures a == b
    decreases a
  {
    var sa, sb := NatToString(a), NatToString(b);
    if a < 10 && b < 10 {
      assert sa[0] == DigitChar(a) && sb[0] == DigitChar(b);
    } else if a >= 10 && b >= 10 {
      assert sa[|sa| - 1] == DigitChar(a % 10);
      assert sb[|sb| - 1] == DigitChar(b % 10);
      assert NatToString(a / 10) == sa[..|sa| - 1];
      assert NatToString(b / 10) == sb[..|sb| - 1];
      NatToStringInjective(a / 10, b / 10);
    }
  }

  /** Distinct integers print differently, so a printed `int` identifies it. */
  lemma IntToStringInjective(a: int, b: int)
    requires IntToString(a) == IntToString(b)
    ensures a == b
  {
    if a < 0 {
      assert IntToString(a)[1..] == NatToString(-a);
      assert IntToString(b)[1..] == NatToString(-b);
      NatToStringInjective(-a, -b);
    } else {
      NatToStringInjective(a, b);
    }
  }

  /** `s + c + rest`: a part, a one-character separator, and the rest. */
  function Join(s: string, c: char, rest: string): string {
    s + [c] + rest
  }

  lemma SeparatorAt(a: string, b: string, c: char)
    ensures (a + [c] + b)[|a|] == c
  {
  }

  /** Two strings joined by a separator that occurs in neither left part split back uniquely. */
  lemma SplitAtSeparator(a1: string, b1: string, a2: string, b2: string, c: char)
    requires c !in a1 && c !in a2
    requires Join(a1, c, b1) == Join(a2, c, b2)
    ensures a1 == a2 && b1 == b2
  {
    var s := a1 + [c] + b1;
    if |a1| == |a2| {
      assert a1 == s[..|a1|] == a2;
      assert b1 == s[|a1| + 1..] == b2;
    } else if |a1| < |a2| {
      SeparatorAt(a1, b1, c);
    } else {
      SeparatorAt(a2, b2, c);
    }
  }

  lemma DropCommonPrefix(p: string, s1: string, s2: string)
    requires p + s1 == p + s2
    ensures s1 == s2
  {
    assert s1 == (p + s1)[|p|..];
    assert s2 == (p + s2)[|p|..];
  }

  lemma DropCommonSuffix(s1: string, s2: string, e: string)
    requires s1 + e == s2 + e
    ensures s1 == s2
  {
    assert s1 == (s1 + e)[..|s1|];
    assert s2 == (s2 + e)[..|s2|];
  }

  lemma DropAffixes(p: string, s1: string, s2: string, e: string)
    requires p + s1 + e == p + s2 + e
    ensures s1 == s2
  {
    assert p + s1 + e == p + (s1 + e);
    assert p + s2 + e == p + (s2 + e);
    DropCommonPrefix(p, s1 + e, s2 + e);
    DropCommonSuffix(s1, s2, e);
  }

  /** Only digits and a leading minus sign appear in a printed `int`. */
  lemma NotInIntToString(n: int, c: char)
    requires !IsDigit(c) && c != '-'
    ensures c !in IntToString(n)
  {
  }

  /** A printed `int` followed by a non-digit separator splits back
      uniquely, even when the separator is the minus sign. */
  lemma SplitAfterInt(a1: int, r1: string, a2: int, r2: string, c: char)
    requires !IsDigit(c)
    requires Join(IntToString(a1), c, r1) == Join(IntToString(a2), c, r2)
    ensures a1 == a2 && r1 == r2
  {
    assert IntToString(a1) + [c] + r1 == IntToString(a1) + ([c] + r1);
    assert IntToString(a2) + [c] + r2 == IntToString(a2) + ([c] + r2);
    var s1, s2 := IntToString(a1), IntToString(a2);
    if c != '-' {
      NotInIntToString(a1, c);
      NotInIntToString(a2, c);
      SplitAtSeparator(s1, r1, s2, r2, c);
      IntToStringInjective(a1, a2);
    } else if a1 >= 0 && a2 >= 0 {
      SplitAtSeparator(s1, r1, s2, r2, c);
      IntToStringInjective(a1, a2);
    } else if a1 < 0 && a2 < 0 {
      var n1, n2 := NatToString(-a1), NatToString(-a2);
      assert s1 + [c] + r1 == "-" + (n1 + [c] + r1);
      assert s2 + [c] + r2 == "-" + (n2 + [c] + r2);
      DropCommonPrefix("-", n1 + [c] + r1, n2 + [c] + r2);
      SplitAtSeparator(n1, r1, n2, r2, c);
      IntToStringInjective(a1, a2);
    } else {
      SameHead(s1, [c] + r1, s2, [c] + r2);
    }
  }

  lemma SameHead(a1: string, b1: string, a2: string, b2: string)
    requires |a1| >= 1 && |a2| >= 1 && a1 + b1 == a2 + b2
    ensures a1[0] == a2[0]
  {
    assert (a1 + b1)[0] == a1[0];
    assert (a2 + b2)[0] == a2[0];
  }

  /** True when `t` occurs in `s` starting at index `i`. */
  predicate OccursAt(s: string, t: string, i: nat) {
    i + |t| <= |s| && s[i..i + |t|] == t
  }

  /** `s.replace(target, replacement)`: every occurrence of `target`, scanned
      left to right without overlap, is replaced. The tile code only passes
      non-empty literal targets. */
  function Replace(s: string, target: string, replacement: string): string
    requires |target| > 0
    decreases |s|
  {
    if |s| < |target| then s
    else if s[..|target|] == target then replacement + Replace(s[|target|..], target, replacement)
    else [s[0]] + Replace(s[1..], target, replacement)
  }

  /** A prefix free of the target's first character is copied unchanged. */
  lemma {:induction false} ReplaceSkips(a: string, rest: string, target: string, replacement: string)
    requires |target| > 0 && target[0] !in a
    ensures Replace(a + rest, target, replacement) == a + Replace(rest, target, replacement)
    decreases |a|
  {
    if |a| == 0 {
      assert a + rest == rest;
    } else {
      var s := a + rest;
      ReplaceSkips(a[1..], rest, target, replacement);
      assert s[1..] == a[1..] + rest;
      if |s| >= |target| {
        assert s[..|target|][0] == a[0];
        assert Replace(s, target, replacement) == [s[0]] + Replace(s[1..], target, replacement);
      } else {
        assert |rest| < |target|;
      }
      assert [a[0]] + a[1..] == a;
    }
  }

  /** A string free of the target's first character is left as it is. */
  lemma ReplaceNoOccurrence(s: string, target: string, replacement: string)
    requires |target| > 0 && target[0] !in s
    ensures Replace(s, target, replacement) == s
  {
    ReplaceSkips(s, [], target, replacement);
    assert s + [] == s;
  }

  /** An occurrence of the target at the front is replaced. */
  lemma ReplaceHit(target: string, rest: string, replacement: string)
    requires |target| > 0
    ensures Replace(target + rest, target, replacement) == replacement + Replace(rest, target, replacement)
  {
    var s := target + rest;
    assert s[..|target|] == target;
    assert s[|target|..] == rest;
  }

  /** A different `{name}` placeholder at the front is copied unchanged:
      both begin with `{`, they differ at the next character, and neither
      holds another `{`. */
  lemma ReplaceOtherPlaceholder(u: string, rest: string, target: string, replacement: string)
    requires |u| >= 2 && |target| >= 2
    requires u[0] == '{' && target[0] == '{' && u[1] != target[1]
    requires '{' !in u[1..]
    ensures Replace(u + rest, target, replacement) == u + Replace(rest, target, replacement)
  {
    var s := u + rest;
    ReplaceMismatch(s, target, replacement);
    assert s[1..] == u[1..] + rest;
    ReplaceSkips(u[1..], rest, target, replacement);
    var tail := Replace(rest, target, replacement);
    assert [u[0]] + (u[1..] + tail) == ([u[0]] + u[1..]) + tail;
    assert [u[0]] + u[1..] == u;
  }

  /** A string whose second character differs from the target's is copied
      from its first character on. */
  lemma ReplaceMismatch(s: string, target: string, replacement: string)
    requires |s| >= 2 && |target| >= 2 && s[1] != target[1]
    ensures Replace(s, target, replacement) == [s[0]] + Replace(s[1..], target, replacement)
  {
    if |s| >= |target| {
      assert s[..|target|][1] == s[1];
    }
  }
}
