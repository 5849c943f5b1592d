/** The few string operations the core relies on: lower-casing, decimal
    rendering of integers (f-string interpolation) and Python's
    `str.replace(old, new)`. */
module Text {

  /** Lower-cases the ASCII letters `A`..`Z` and leaves every other character
      alone. */
  function LowerChar(c: char): (d: char)
    ensures 'A' <= c <= 'Z' ==> 'a' <= d <= 'z' && d as int - c as int == 32
    ensures !('A' <= c <= 'Z') ==> d == c
  {
    if 'A' <= c <= 'Z' then (c as int + 32) as char else c
  }

  /** Python's `str.lower()` restricted to ASCII case mapping. */
  function Lower(s: string): (t: string)
    ensures |t| == |s|
    ensures forall i :: 0 <= i < |s| ==> t[i] == LowerChar(s[i])
  {
    if s == [] then [] else [LowerChar(s[0])] + Lower(s[1..])
  }

  /** Lower-casing leaves a string without upper-case letters alone. */
  lemma LowerOfLowerCase(s: string)
    requires forall i :: 0 <= i < |s| ==> !('A' <= s[i] <= 'Z')
    ensures Lower(s) == s
  {
  }

  /** Lower-casing commutes with taking a suffix. */
  lemma LowerSuffix(s: string, i: nat)
    requires i <= |s|
    ensures Lower(s)[i..] == Lower(s[i..])
  {
    var a, b := Lower(s)[i..], Lower(s[i..]);
    assert |a| == |b|;
    forall k | 0 <= k < |a| ensures a[k] == b[k] {
      assert a[k] == Lower(s)[i + k] == LowerChar(s[i + k]);
    }
  }

  /** Lower-casing twice is lower-casing once. */
  lemma LowerIdempotent(s: string)
    ensures Lower(Lower(s)) == Lower(s)
  {
    LowerOfLowerCase(Lower(s));
  }

  /** Lower-casing never creates or removes a dot. */
  lemma LowerKeepsDots(s: string)
    ensures '.' in Lower(s) <==> '.' in s
    ensures forall i :: 0 <= i < |s| ==> (Lower(s)[i] == '.' <==> s[i] == '.')
  {
    if '.' in Lower(s) {
      var i :| 0 <= i < |s| && Lower(s)[i] == '.';
      assert s[i] == '.';
    }
  }

  /** The decimal digit character of `d`. */
  function DigitChar(d: nat): (c: char)
    requires d < 10
    ensures '0' <= c <= '9'
    ensures c as int - '0' as int == d
  {
    ('0' as int + d) as char
  }

  /** The decimal rendering of `n` (what `f"{n}"` prints for a non-negative
      integer): no sign, no leading zeros. */
  function NatToString(n: nat): (s: string)
    ensures |s| > 0
    ensures forall i :: 0 <= i < |s| ==> '0' <= s[i] <= '9'
    ensures n >= 10 ==> s[0] != '0'
    decreases n
  {
    if n < 10 then [DigitChar(n)] else NatToString(n / 10) + [DigitChar(n % 10)]
  }

  /** Reads a string of decimal digits back as a number. */
  function ParseNat(s: string): nat
    requires forall i :: 0 <= i < |s| ==> '0' <= s[i] <= '9'
    decreases |s|
  {
    if s == [] then 0 else 10 * ParseNat(s[..|s| - 1]) + (s[|s| - 1] as int - '0' as int)
  }

  /** Rendering then reading a number gives the number back, so distinct
      numbers render differently. */
  lemma {:induction false} ParseNatToString(n: nat)
    ensures ParseNat(NatToString(n)) == n
    decreases n
  {
    if n >= 10 {
      ParseNatToString(n / 10);
      var s := NatToString(n);
      assert s[..|s| - 1] == NatToString(n / 10);
    }
  }

  /** Two-digit numbers render as exactly two characters. */
  lemma TwoDigitLength(n: nat)
    requires 10 <= n < 100
    ensures |NatToString(n)| == 2
  {
    assert NatToString(n) == NatToString(n / 10) + [DigitChar(n % 10)];
  }

  /** `pat` occurs in `s` starting at position `k`. */
  predicate OccursAt(s: string, pat: string, k: nat) {
    k + |pat| <= |s| && s[k..k + |pat|] == pat
  }

  /** `pat` occurs somewhere in `s`. */
  predicate Occurs(s: string, pat: string) {
    exists k :: 0 <= k <= |s| - |pat| && OccursAt(s, pat, k)
  }

  /** Python's `s.replace(pat, rep)` for a non-empty `pat`: scans left to right
      and replaces every non-overlapping occurrence. */
  function ReplaceAll(s: string, pat: string, rep: string): string
    requires |pat| > 0
    decreases |s|
  {
    if |s| < |pat| then s
    else if s[..|pat|] == pat then rep + ReplaceAll(s[|pat|..], pat, rep)
    else [s[0]] + ReplaceAll(s[1..], pat, rep)
  }

  /** When `s` does not start with `pat`, the occurrences of `pat` in `s`
      are those in its tail. */
  lemma OccursInTail(s: string, pat: string)
    requires |pat| > 0 && |s| >= |pat| && s[..|pat|] != pat
    ensures Occurs(s, pat) <==> Occurs(s[1..], pat)
  {
    if Occurs(s, pat) {
      var k :| 0 <= k <= |s| - |pat| && OccursAt(s, pat, k);
      assert k != 0;
      assert s[1..][k - 1..k - 1 + |pat|] == s[k..k + |pat|];
      assert OccursAt(s[1..], pat, k - 1);
    }
    if Occurs(s[1..], pat) {
      var k :| 0 <= k <= |s[1..]| - |pat| && OccursAt(s[1..], pat, k);
      assert s[k + 1..k + 1 + |pat|] == s[1..][k..k + |pat|];
      assert OccursAt(s, pat, k + 1);
    }
  }

  /** Removing a pattern never lengthens a string; it shortens it exactly when
      the pattern occurs. */
  lemma {:induction false} RemoveAllShortens(s: string, pat: string)
    requires |pat| > 0
    ensures |ReplaceAll(s, pat, "")| <= |s|
    ensures Occurs(s, pat) ==> |ReplaceAll(s, pat, "")| < |s|
    ensures !Occurs(s, pat) ==> ReplaceAll(s, pat, "") == s
    decreases |s|
  {
    if |s| < |pat| {
    } else if s[..|pat|] == pat {
      RemoveAllShortens(s[|pat|..], pat);
      assert OccursAt(s, pat, 0);
    } else {
      RemoveAllShortens(s[1..], pat);
      OccursInTail(s, pat);
      assert ReplaceAll(s, pat, "") == [s[0]] + ReplaceAll(s[1..], pat, "");
    }
  }

  /** A pattern cannot occur in a string lacking one of its characters. */
  lemma AbsentCharNoOccurrence(s: string, pat: string, c: char)
    requires c in pat && c !in s
    ensures !Occurs(s, pat)
  {
  }

  /** A leading occurrence of the pattern is removed and the scan resumes
      right after it. */
  lemma RemoveLeading(pat: string, s: string)
    requires |pat| > 0
    ensures ReplaceAll(pat + s, pat, "") == ReplaceAll(s, pat, "")
  {
    assert (pat + s)[..|pat|] == pat;
    assert (pat + s)[|pat|..] == s;
  }

  /** Removing a pattern leaves the string unchanged exactly when the pattern
      does not occur in it. */
  lemma RemoveAllIdentityIff(s: string, pat: string)
    requires |pat| > 0
    ensures ReplaceAll(s, pat, "") == s <==> !Occurs(s, pat)
  {
    RemoveAllShortens(s, pat);
  }
}
