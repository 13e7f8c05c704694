/**
  The string operations the system relies on: `String.prototype.trim`,
  lower-casing for case-insensitive matching, substring containment
  (`includes`, `ILIKE '%term%'`) and the order `ORDER BY` uses on text.
 */
module Strings {

  import opened Sorting

  /** The code points `String.prototype.trim` removes: the ECMAScript
      WhiteSpace and LineTerminator characters. */
  predicate IsWhitespace(c: char) {
    || c == '\t' || c == '\n' || c == '\U{B}' || c == '\U{C}' || c == '\r'
    || c == ' ' || c == '\U{A0}' || c == '\U{1680}'
    || ('\U{2000}' <= c <= '\U{200A}')
    || c == '\U{2028}' || c == '\U{2029}' || c == '\U{202F}' || c == '\U{205F}'
    || c == '\U{3000}' || c == '\U{FEFF}'
  }

  /** `s` consists of white space only (the empty string included). */
  predicate IsBlank(s: string) {
    forall i :: 0 <= i < |s| ==> IsWhitespace(s[i])
  }

  /** The length of the white space that `s` starts with. */
  function LeadingBlank(s: string): (k: nat)
    ensures k <= |s| && IsBlank(s[..k])
    ensures k < |s| ==> !IsWhitespace(s[k])
    decreases |s|
  {
    if |s| > 0 && IsWhitespace(s[0]) then
      var k := LeadingBlank(s[1..]);
      assert s[..k + 1] == [s[0]] + s[1..][..k];
      k + 1
    else 0
  }

  /** Where the white space that `s` ends with begins. */
  function TrailingBlank(s: string): (k: nat)
    ensures k <= |s| && IsBlank(s[k..])
    ensures k > 0 ==> !IsWhitespace(s[k - 1])
    decreases |s|
  {
    if |s| > 0 && IsWhitespace(s[|s| - 1]) then
      var init := s[..|s| - 1];
      var k := TrailingBlank(init);
      assert k > 0 ==> s[k - 1] == init[k - 1];
      assert IsBlank(s[k..]) by {
        forall i | 0 <= i < |s[k..]|
          ensures IsWhitespace(s[k..][i])
        {
          if k + i < |init| {
            assert s[k..][i] == init[k..][i];
          }
        }
      }
      k
    else |s|
  }

  /** `s` with its leading white space removed. */
  function TrimStart(s: string): (r: string)
    ensures exists k :: 0 <= k <= |s| && r == s[k..] && IsBlank(s[..k])
    ensures |r| > 0 ==> !IsWhitespace(r[0])
  {
    s[LeadingBlank(s)..]
  }

  /** `s` with its trailing white space removed. */
  function TrimEnd(s: string): (r: string)
    ensures exists k :: 0 <= k <= |s| && r == s[..k] && IsBlank(s[k..])
    ensures |r| > 0 ==> !IsWhitespace(r[|r| - 1])
  {
    s[..TrailingBlank(s)]
  }

  /** `String.prototype.trim`. */
  function Trim(s: string): string {
    TrimEnd(TrimStart(s))
  }

  /** `s.trim()` is falsy exactly when `s` is white space only. */
  lemma TrimEmptyIffBlank(s: string)
    ensures Trim(s) == "" <==> IsBlank(s)
  {
    var t := TrimStart(s);
    var k :| 0 <= k <= |s| && t == s[k..] && IsBlank(s[..k]);
    if |t| == 0 {
      assert s == s[..k];
    } else {
      assert t[0] == s[k];
      var m :| 0 <= m <= |t| && Trim(s) == t[..m] && IsBlank(t[m..]);
      assert t[0..] == t;
      assert !IsBlank(t) by {
        assert !IsWhitespace(t[0]);
      }
      assert m > 0;
    }
  }

  /** ASCII lower-casing of one character. */
  function LowerChar(c: char): char {
    if 'A' <= c <= 'Z' then (c as int - 'A' as int + 'a' as int) as char else c
  }

  /** `String.prototype.toLowerCase`, restricted to the ASCII letters. */
  function ToLower(s: string): (r: string)
    ensures |r| == |s|
    ensures forall i :: 0 <= i < |s| ==> r[i] == LowerChar(s[i])
  {
    seq(|s|, i requires 0 <= i < |s| => LowerChar(s[i]))
  }

  /** Lower-casing twice is lower-casing once. */
  lemma ToLowerIdempotent(s: string)
    ensures ToLower(ToLower(s)) == ToLower(s)
  {
  }

  /** `needle` occurs in `hay` starting at position `i`. */
  predicate OccursAt(hay: string, needle: string, i: int) {
    0 <= i && i + |needle| <= |hay| && hay[i..i + |needle|] == needle
  }

  /** `needle` occurs in `hay` as a contiguous run (`hay.includes(needle)`). */
  predicate Contains(hay: string, needle: string) {
    exists i :: 0 <= i <= |hay| && OccursAt(hay, needle, i)
  }

  /** The code-point (byte-wise "C" collation) order on strings:
      a proper prefix comes first, otherwise the first differing character
      decides. */
  predicate Lt(a: string, b: string)
    decreases |a|
  {
    if |a| == 0 then |b| > 0
    else if |b| == 0 then false
    else if a[0] != b[0] then a[0] < b[0]
    else Lt(a[1..], b[1..])
  }

  lemma {:induction false} LtIrreflexive(a: string)
    ensures !Lt(a, a)
    decreases |a|
  {
    if |a| > 0 {
      LtIrreflexive(a[1..]);
    }
  }

  lemma {:induction false} LtTransitive(a: string, b: string, c: string)
    requires Lt(a, b) && Lt(b, c)
    ensures Lt(a, c)
    decreases |a|
  {
    if |a| > 0 && |b| > 0 && |c| > 0 && a[0] == b[0] && b[0] == c[0] {
      LtTransitive(a[1..], b[1..], c[1..]);
    }
  }

  lemma {:induction false} LtTrichotomous(a: string, b: string)
    ensures a == b || Lt(a, b) || Lt(b, a)
    decreases |a|
  {
    if |a| > 0 && |b| > 0 && a[0] == b[0] {
      LtTrichotomous(a[1..], b[1..]);
      if a[1..] == b[1..] {
        assert a == [a[0]] + a[1..] && b == [b[0]] + b[1..];
      }
    }
  }

  /** The code-point order is a strict total order, so it can drive
      `SortedDistinct`. */
  lemma LtIsStrictTotalOrder()
    ensures StrictTotalOrder(Lt)
  {
    forall a
      ensures !Lt(a, a)
    {
      LtIrreflexive(a);
    }
    forall a, b, c | Lt(a, b) && Lt(b, c)
      ensures Lt(a, c)
    {
      LtTransitive(a, b, c);
    }
    forall a, b
      ensures a == b || Lt(a, b) || Lt(b, a)
    {
      LtTrichotomous(a, b);
    }
  }

  /** `c` is one of the ten decimal digits. */
  predicate IsDigit(c: char) {
    '0' <= c <= '9'
  }

  function DigitChar(d: int): (c: char)
    requires 0 <= d < 10
    ensures IsDigit(c)
  {
    ('0' as int + d) as char
  }

  function DigitValue(c: char): (d: int)
    requires IsDigit(c)
    ensures 0 <= d < 10
  {
    c as int - '0' as int
  }

  /** The decimal numeral of `n`, as template literals print a non-negative
      integer: no sign and no leading zero. */
  function NatString(n: nat): (s: string)
    ensures |s| > 0
    ensures forall i :: 0 <= i < |s| ==> IsDigit(s[i])
    ensures s[0] == '0' ==> n == 0
    decreases n
  {
    if n < 10 then [DigitChar(n)]
    else NatString(n / 10) + [DigitChar(n % 10)]
  }

  /** The value of a string of decimal digits. */
  function ParseNat(s: string): (n: nat)
    requires forall i :: 0 <= i < |s| ==> IsDigit(s[i])
    decreases |s|
  {
    if |s| == 0 then 0
    else ParseNat(s[..|s| - 1]) * 10 + DigitValue(s[|s| - 1])
  }

  /** Reading a printed numeral gives the number back. */
  lemma {:induction false} ParseNatString(n: nat)
    ensures ParseNat(NatString(n)) == n
    decreases n
  {
    var s := NatString(n);
    if n >= 10 {
      ParseNatString(n / 10);
      assert s[..|s| - 1] == NatString(n / 10);
    }
  }

  /** Different numbers print differently. */
  lemma NatStringInjective(m: nat, n: nat)
    requires NatString(m) == NatString(n)
    ensures m == n
  {
    ParseNatString(m);
    ParseNatString(n);
  }

  /** The numeral of an integer, with a leading '-' when it is negative. */
  function IntString(n: int): (s: string)
    ensures n >= 0 ==> s == NatString(n)
    ensures n < 0 ==> s == "-" + NatString(-n)
  {
    if n < 0 then "-" + NatString(-n) else NatString(n)
  }
}
