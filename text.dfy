/**
 * The string handling the text handler relies on: `String.prototype.trim`,
 * the regular expression `/^\d+$/`, `parseInt` on a digit string, and the
 * conversion of an integer Number to its decimal string when it is
 * concatenated into a reply.
 */
module Text {

  /** The WhiteSpace and LineTerminator code points outside the range U+2000 to U+200A. */
  const SPACES: set<char> := {
    ' ', '\t', '\n', '\r', '\U{000B}', '\U{000C}', '\U{00A0}', '\U{1680}',
    '\U{2028}', '\U{2029}', '\U{202F}', '\U{205F}', '\U{3000}', '\U{FEFF}' }

  /** The characters `trim` removes: WhiteSpace and LineTerminator. */
  predicate IsSpace(c: char) {
    c in SPACES || '\U{2000}' <= c <= '\U{200A}'
  }

  /** The index of the first character at or after `i` that is not white space, or `|s|`. */
  function LeadingEnd(s: string, i: nat): (n: nat)
    requires i <= |s|
    ensures i <= n <= |s|
    ensures forall k :: i <= k < n ==> IsSpace(s[k])
    ensures n == |s| || !IsSpace(s[n])
    decreases |s| - i
  {
    if i < |s| && IsSpace(s[i]) then LeadingEnd(s, i + 1) else i
  }

  /** The index just past the last character before `j` and not before `lo` that is not white space, or `lo`. */
  function TrailingStart(s: string, lo: nat, j: nat): (n: nat)
    requires lo <= j <= |s|
    ensures lo <= n <= j
    ensures forall k :: n <= k < j ==> IsSpace(s[k])
    ensures n == lo || !IsSpace(s[n - 1])
  {
    if lo < j && IsSpace(s[j - 1]) then TrailingStart(s, lo, j - 1) else j
  }

  /**
   * `s.trim()`: the slice of `s` between its leading and its trailing white
   * space, which neither starts nor ends with white space.
   */
  function Trim(s: string): (r: string)
    ensures var b := LeadingEnd(s, 0);
      && b + |r| <= |s| && r == s[b..b + |r|]
      && (forall k :: 0 <= k < b ==> IsSpace(s[k]))
      && (forall k :: b + |r| <= k < |s| ==> IsSpace(s[k]))
    ensures r == [] || (!IsSpace(r[0]) && !IsSpace(r[|r| - 1]))
  {
    var b := LeadingEnd(s, 0);
    s[b..TrailingStart(s, b, |s|)]
  }

  /** Trimming twice is trimming once. */
  lemma TrimIdempotent(s: string)
    ensures Trim(Trim(s)) == Trim(s)
  {
    var r := Trim(s);
    if r != [] {
      assert LeadingEnd(r, 0) == 0;
      assert TrailingStart(r, 0, |r|) == |r|;
    }
  }

  /** `\d` without the `u` flag: the ASCII digits only. */
  predicate IsDigit(c: char) {
    '0' <= c <= '9'
  }

  /** `/^\d+$/.test(s)`: one or more digits and nothing else. */
  predicate IsDigits(s: string) {
    |s| > 0 && forall i :: 0 <= i < |s| ==> IsDigit(s[i])
  }

  function DigitValue(c: char): (d: nat)
    requires IsDigit(c)
    ensures d < 10
  {
    c as int - '0' as int
  }

  function DigitChar(d: nat): (c: char)
    requires d < 10
    ensures IsDigit(c) && DigitValue(c) == d
  {
    ('0' as int + d) as char
  }

  /** `parseInt(s)` on a digit string, with unbounded precision. */
  function ParseDecimal(s: string): nat
    requires forall i :: 0 <= i < |s| ==> IsDigit(s[i])
  {
    if |s| == 0 then 0 else 10 * ParseDecimal(s[..|s| - 1]) + DigitValue(s[|s| - 1])
  }

  /** The decimal string of a non-negative integer: digits only, no leading zero, and it parses back. */
  function NatToString(n: nat): (r: string)
    ensures IsDigits(r)
    ensures r[0] == '0' ==> r == "0"
    ensures ParseDecimal(r) == n
  {
    if n < 10 then [DigitChar(n)]
    else
      var r := NatToString(n / 10) + [DigitChar(n % 10)];
      assert r[..|r| - 1] == NatToString(n / 10);
      r
  }

  /** A digit string without a leading zero is the decimal string of its value. */
  lemma {:induction false} NatToStringOfParse(s: string)
    requires IsDigits(s) && (s[0] == '0' ==> s == "0")
    ensures NatToString(ParseDecimal(s)) == s
  {
    var n := ParseDecimal(s);
    var p := s[..|s| - 1];
    if |s| == 1 {
      assert p == [];
    } else {
      assert IsDigits(p) && p[0] == s[0];
      NatToStringOfParse(p);
      ParseDecimalBound(p);
      assert n / 10 == ParseDecimal(p) && n % 10 == DigitValue(s[|s| - 1]);
      assert s == p + [s[|s| - 1]];
    }
  }

  /** A digit string of two or more characters that does not start with 0 is worth at least 10. */
  lemma {:induction false} ParseDecimalBound(s: string)
    requires IsDigits(s) && s[0] != '0' && |s| >= 1
    ensures ParseDecimal(s) >= 1
    ensures |s| >= 2 ==> ParseDecimal(s) >= 10
  {
    if |s| >= 2 {
      ParseDecimalBound(s[..|s| - 1]);
    }
  }

  /** `String(i)` for an integer Number: a minus sign before the digits of a negative value. */
  function IntToString(i: int): (r: string)
    ensures |r| > 0
    ensures r[0] == '-' <==> i < 0
    ensures i < 0 ==> IsDigits(r[1..]) && ParseDecimal(r[1..]) == -i
    ensures i >= 0 ==> IsDigits(r) && ParseDecimal(r) == i
    ensures var d := if i < 0 then r[1..] else r; d[0] == '0' ==> d == "0"
  {
    if i < 0 then "-" + NatToString(-i) else NatToString(i)
  }
}
