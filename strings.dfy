/**
 * String operations that the bookmarks view and the document-store mocks rely on:
 * `String.prototype.toLowerCase`, `String.prototype.replace` with a string pattern
 * (only the first occurrence is replaced) and the decimal rendering of an integer
 * inside a template literal.
 */
module Strings {

  /** Lower-cases one character; only the ASCII letters A-Z change. */
  function LowerChar(c: char): (r: char)
    ensures 'A' <= c <= 'Z' ==> r as int == c as int + 32
    ensures !('A' <= c <= 'Z') ==> r == c
  {
    if 'A' <= c <= 'Z' then (c as int + 32) as char else c
  }

  /** `s.toLowerCase()`, restricted to the ASCII case mapping. */
  function Lower(s: string): (r: string)
    ensures |r| == |s|
    ensures forall i :: 0 <= i < |s| ==> r[i] == LowerChar(s[i])
  {
    seq(|s|, i requires 0 <= i < |s| => LowerChar(s[i]))
  }

  /** A string is lower case when it holds no ASCII capital letter. */
  predicate IsLower(s: string) {
    forall i :: 0 <= i < |s| ==> !('A' <= s[i] <= 'Z')
  }

  lemma LowerIsLower(s: string)
    ensures IsLower(Lower(s))
    ensures Lower(Lower(s)) == Lower(s)
  {
  }

  /** Lower-casing a lower-case string leaves it unchanged. */
  lemma LowerOfLower(s: string)
    requires IsLower(s)
    ensures Lower(s) == s
  {
  }

  /** `pat` occurs in `s` starting at index `i`. */
  predicate OccursAt(s: string, pat: string, i: nat) {
    i + |pat| <= |s| && s[i..i + |pat|] == pat
  }

  /** `t` occurs somewhere in `s`. */
  predicate Contains(s: string, t: string) {
    exists i: nat :: i <= |s| && OccursAt(s, t, i)
  }

  /**
   * `s.replace(pat, "")`: removes the first occurrence of `pat` and leaves `s`
   * unchanged when `pat` does not occur (an empty `pat` occurs at index 0).
   */
  function RemoveFirst(s: string, pat: string): (r: string)
    ensures |r| == |s| || |r| == |s| - |pat|
    decreases |s|
  {
    if |pat| <= |s| && s[..|pat|] == pat then s[|pat|..]
    else if s == [] then []
    else [s[0]] + RemoveFirst(s[1..], pat)
  }

  /** An occurrence in the tail is an occurrence one place further on in the string. */
  lemma OccursShift(s: string, pat: string, i: nat)
    requires s != []
    ensures OccursAt(s[1..], pat, i) <==> OccursAt(s, pat, i + 1)
  {
    if i + |pat| <= |s[1..]| {
      assert s[1..][i..i + |pat|] == s[i + 1..i + 1 + |pat|];
    }
  }

  /** When `pat` does not occur anywhere, nothing is removed. */
  lemma {:induction false} RemoveFirstAbsent(s: string, pat: string)
    requires forall i: nat :: i <= |s| ==> !OccursAt(s, pat, i)
    ensures RemoveFirst(s, pat) == s
    decreases |s|
  {
    assert !OccursAt(s, pat, 0);
    if s != [] {
      forall i: nat | i <= |s[1..]| ensures !OccursAt(s[1..], pat, i) {
        OccursShift(s, pat, i);
      }
      RemoveFirstAbsent(s[1..], pat);
    }
  }

  /** When the first occurrence of `pat` is at `k`, exactly that occurrence is cut out. */
  lemma {:induction false} RemoveFirstAt(s: string, pat: string, k: nat)
    requires OccursAt(s, pat, k)
    requires forall i: nat :: i < k ==> !OccursAt(s, pat, i)
    ensures RemoveFirst(s, pat) == s[..k] + s[k + |pat|..]
    decreases k
  {
    if k == 0 {
      assert s[..|pat|] == pat;
    } else {
      var tail := s[1..];
      assert !OccursAt(s, pat, 0);
      assert RemoveFirst(s, pat) == [s[0]] + RemoveFirst(tail, pat);
      OccursShift(s, pat, k - 1);
      forall i: nat | i < k - 1 ensures !OccursAt(tail, pat, i) {
        OccursShift(s, pat, i);
      }
      RemoveFirstAt(tail, pat, k - 1);
      assert [s[0]] + tail[..k - 1] == s[..k];
      assert tail[k - 1 + |pat|..] == s[k + |pat|..];
    }
  }

  /** Removing a substring never introduces a character that was not there. */
  lemma {:induction false} RemoveFirstChars(s: string, pat: string, c: char)
    ensures c !in s ==> c !in RemoveFirst(s, pat)
    decreases |s|
  {
    if c in s {
    } else if |pat| <= |s| && s[..|pat|] == pat {
      assert forall j :: 0 <= j < |s[|pat|..]| ==> s[|pat|..][j] == s[j + |pat|];
    } else if s != [] {
      assert c !in s[1..] by {
        assert forall j :: 0 <= j < |s[1..]| ==> s[1..][j] == s[j + 1];
      }
      RemoveFirstChars(s[1..], pat, c);
    }
  }

  /** A pattern longer than the string cannot occur, so nothing is removed. */
  lemma RemoveFirstLonger(s: string, pat: string)
    requires |pat| > |s|
    ensures RemoveFirst(s, pat) == s
  {
  }

  /** The decimal digit character for `d`. */
  function DigitChar(d: nat): (c: char)
    requires d < 10
    ensures '0' <= c <= '9'
    ensures c as int - '0' as int == d
  {
    ('0' as int + d) as char
  }

  predicate IsDigit(c: char) {
    '0' <= c <= '9'
  }

  predicate AllDigits(s: string) {
    forall i :: 0 <= i < |s| ==> IsDigit(s[i])
  }

  /** `${n}` for a non-negative integer: its digits, most significant first, no leading zero. */
  function NatToDecimal(n: nat): (r: string)
    ensures |r| >= 1
    ensures AllDigits(r)
    ensures |r| > 1 ==> r[0] != '0'
  {
    if n < 10 then [DigitChar(n)] else NatToDecimal(n / 10) + [DigitChar(n % 10)]
  }

  /** Reads a string of decimal digits back as a number. */
  function ParseDecimal(s: string): (n: nat)
    requires AllDigits(s)
  {
    if s == [] then 0 else ParseDecimal(s[..|s| - 1]) * 10 + (s[|s| - 1] as int - '0' as int)
  }

  /** Rendering followed by parsing gives back the number. */
  lemma {:induction false} DecimalRoundTrip(n: nat)
    ensures ParseDecimal(NatToDecimal(n)) == n
  {
    if n >= 10 {
      var s := NatToDecimal(n);
      assert s[..|s| - 1] == NatToDecimal(n / 10);
      DecimalRoundTrip(n / 10);
    }
  }

  /**
   * A slice that holds the decimal text of `n` is a non-empty run of digits, reads back
   * as `n`, and has no leading zero.
   */
  lemma DecimalSliceReadsBack(s: string, lo: int, hi: int, n: nat)
    requires 0 <= lo <= hi <= |s| && s[lo..hi] == NatToDecimal(n)
    ensures lo < hi && AllDigits(s[lo..hi]) && ParseDecimal(s[lo..hi]) == n
    ensures hi > lo + 1 ==> s[lo] != '0'
  {
    DecimalRoundTrip(n);
    assert s[lo] == s[lo..hi][0];
  }

  /** Different numbers have different decimal renderings. */
  lemma DecimalInjective(m: nat, n: nat)
    requires NatToDecimal(m) == NatToDecimal(n)
    ensures m == n
  {
    DecimalRoundTrip(m);
    DecimalRoundTrip(n);
  }

  /** `${i}` for any integer: a minus sign before the digits of a negative number. */
  function IntToDecimal(i: int): (r: string)
    ensures i >= 0 ==> r == NatToDecimal(i)
    ensures i < 0 ==> r == "-" + NatToDecimal(-i)
  {
    if i < 0 then "-" + NatToDecimal(-i) else NatToDecimal(i)
  }

  lemma IntDecimalInjective(i: int, j: int)
    requires IntToDecimal(i) == IntToDecimal(j)
    ensures i == j
  {
    var a, b := IntToDecimal(i), IntToDecimal(j);
    if i < 0 && j < 0 {
      assert NatToDecimal(-i) == a[1..] == b[1..] == NatToDecimal(-j);
      DecimalInjective(-i, -j);
    } else if i >= 0 && j >= 0 {
      DecimalInjective(i, j);
    }
  }
}
