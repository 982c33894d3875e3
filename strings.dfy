/**
  The few Python string operations the scraper relies on, written over
  `seq<char>`: prefix and suffix tests, ASCII lower-casing, single-character
  replacement, removal of every occurrence of a substring (`str.replace` with
  an empty replacement) and decimal rendering of a natural number (`str(n)`).
 */
module Strings {

  /** `s.startswith(prefix)` */
  predicate StartsWith(s: string, prefix: string) {
    |prefix| <= |s| && s[..|prefix|] == prefix
  }

  /** `s.endswith(suffix)` */
  predicate EndsWith(s: string, suffix: string) {
    |suffix| <= |s| && s[|s| - |suffix|..] == suffix
  }

  /** True iff `pat` occurs in `s` starting at index `i`. */
  predicate OccursAt(s: string, pat: string, i: int) {
    0 <= i && i + |pat| <= |s| && s[i..i + |pat|] == pat
  }

  /** True iff `pat` occurs in `s` at some position. */
  ghost predicate Contains(s: string, pat: string) {
    exists i :: OccursAt(s, pat, i)
  }

  function LowerChar(c: char): char {
    if 'A' <= c <= 'Z' then (c as int + 32) as char else c
  }

  /** `s.lower()` on the ASCII letters. */
  function Lower(s: string): (r: string)
    ensures |r| == |s|
    ensures forall i :: 0 <= i < |s| ==> r[i] == LowerChar(s[i])
  {
    if s == [] then [] else [LowerChar(s[0])] + Lower(s[1..])
  }

  lemma LowerIdempotent(s: string)
    ensures Lower(Lower(s)) == Lower(s)
  {
    assert forall i :: 0 <= i < |s| ==> Lower(Lower(s))[i] == Lower(s)[i];
  }

  lemma LowerAppend(s: string, t: string)
    ensures Lower(s + t) == Lower(s) + Lower(t)
  {
    var a, b := Lower(s + t), Lower(s) + Lower(t);
    forall i | 0 <= i < |a| ensures a[i] == b[i] {
      if i < |s| {
        assert (s + t)[i] == s[i];
      } else {
        assert (s + t)[i] == t[i - |s|];
      }
    }
  }

  /**
    `s.replace(from, to)` for one-character `from` and `to`: every `from` is
    replaced, the length is kept, every other character stays in place.
   */
  function ReplaceChar(s: string, from: char, to: char): (r: string)
    ensures |r| == |s|
    ensures forall i :: 0 <= i < |s| ==> r[i] == if s[i] == from then to else s[i]
  {
    if s == [] then []
    else [if s[0] == from then to else s[0]] + ReplaceChar(s[1..], from, to)
  }

  /**
    `s.replace(pat, "")`: scan from the left, drop each occurrence of `pat`
    and resume the scan right after it, so occurrences never overlap.
   */
  function RemoveAll(s: string, pat: string): (r: string)
    requires pat != []
    ensures |r| <= |s|
    decreases |s|
  {
    if |s| < |pat| then s
    else if s[..|pat|] == pat then RemoveAll(s[|pat|..], pat)
    else [s[0]] + RemoveAll(s[1..], pat)
  }

  /** An occurrence in the tail of `s` is an occurrence in `s`, one place later. */
  lemma OccursInTail(s: string, pat: string, i: int)
    requires s != [] && OccursAt(s[1..], pat, i)
    ensures OccursAt(s, pat, i + 1)
  {
    assert s[i + 1..i + 1 + |pat|] == s[1..][i..i + |pat|];
  }

  lemma AbsentFromTail(s: string, pat: string)
    requires s != [] && !Contains(s, pat)
    ensures !Contains(s[1..], pat)
  {
    forall i | OccursAt(s[1..], pat, i) ensures OccursAt(s, pat, i + 1) {
      OccursInTail(s, pat, i);
    }
  }

  /** Removal changes nothing in a string that has no occurrence. */
  lemma {:induction false} RemoveAllAbsent(s: string, pat: string)
    requires pat != [] && !Contains(s, pat)
    ensures RemoveAll(s, pat) == s
    decreases |s|
  {
    if |s| >= |pat| {
      assert s[0..0 + |pat|] == s[..|pat|];
      assert !OccursAt(s, pat, 0);
      AbsentFromTail(s, pat);
      RemoveAllAbsent(s[1..], pat);
      assert [s[0]] + s[1..] == s;
    }
  }

  /** An occurrence at the front is dropped and the scan resumes after it. */
  lemma RemoveAllFront(u: string, pat: string)
    requires pat != [] && |pat| <= |u| && u[..|pat|] == pat
    ensures RemoveAll(u, pat) == RemoveAll(u[|pat|..], pat)
  {
  }

  /** Without an occurrence at the front, the first character is kept. */
  lemma RemoveAllKeep(u: string, pat: string)
    requires pat != [] && |pat| <= |u| && u[..|pat|] != pat
    ensures RemoveAll(u, pat) == [u[0]] + RemoveAll(u[1..], pat)
  {
  }

  /** True iff the first character of `pat` occurs nowhere else in it. */
  predicate FirstUnique(pat: string) {
    pat != [] && forall k :: 0 < k < |pat| ==> pat[k] != pat[0]
  }

  /**
    After a non-empty prefix without an occurrence, a pattern whose first
    character does not recur cannot begin at the front.
   */
  lemma NoOccurrenceAtFront(s: string, pat: string, t: string)
    requires FirstUnique(pat) && s != [] && !Contains(s, pat)
    ensures |pat| <= |s + pat + t| && (s + pat + t)[..|pat|] != pat
  {
    var u := s + pat + t;
    if |s| >= |pat| {
      assert u[..|pat|] == s[..|pat|] && s[0..0 + |pat|] == s[..|pat|];
      assert !OccursAt(s, pat, 0);
    } else {
      assert u[..|pat|][|s|] == pat[0];
      assert pat[|s|] != pat[0];
    }
  }

  /**
    For a pattern whose first character does not recur in it, the first
    occurrence after a prefix that has none is the one removed first, and
    the prefix is kept as it is.
   */
  lemma {:induction false} RemoveAllAfter(s: string, pat: string, t: string)
    requires FirstUnique(pat) && !Contains(s, pat)
    ensures RemoveAll(s + pat + t, pat) == s + RemoveAll(t, pat)
    decreases |s|
  {
    var u := s + pat + t;
    if s == [] {
      assert RemoveAll(u, pat) == RemoveAll(t, pat) by {
        assert u == pat + t;
        assert u[..|pat|] == pat && u[|pat|..] == t;
        RemoveAllFront(u, pat);
      }
    } else {
      assert RemoveAll(u, pat) == [s[0]] + RemoveAll(s[1..] + pat + t, pat) by {
        NoOccurrenceAtFront(s, pat, t);
        RemoveAllKeep(u, pat);
        assert u[0] == s[0] && u[1..] == s[1..] + pat + t;
      }
      assert !Contains(s[1..], pat) by {
        AbsentFromTail(s, pat);
      }
      RemoveAllAfter(s[1..], pat, t);
      assert [s[0]] + (s[1..] + RemoveAll(t, pat)) == s + RemoveAll(t, pat);
    }
  }

  /** `RemoveAllAbsent` as an implication, for use where absence is not known. */
  lemma RemoveAllUnlessPresent(s: string, pat: string)
    requires pat != []
    ensures !Contains(s, pat) ==> RemoveAll(s, pat) == s
  {
    if !Contains(s, pat) {
      RemoveAllAbsent(s, pat);
    }
  }

  function DigitChar(d: nat): (c: char)
    requires d < 10
    ensures '0' <= c <= '9'
  {
    ('0' as int + d) as char
  }

  function DigitValue(c: char): (d: nat)
    requires '0' <= c <= '9'
    ensures d < 10
  {
    c as int - '0' as int
  }

  predicate IsDecimal(s: string) {
    forall i :: 0 <= i < |s| ==> '0' <= s[i] <= '9'
  }

  /** `str(n)` for a natural number: its decimal digits, no leading zero. */
  function NatToString(n: nat): (r: string)
    ensures |r| >= 1 && IsDecimal(r)
    ensures |r| > 1 ==> r[0] != '0'
    decreases n
  {
    if n < 10 then [DigitChar(n)]
    else NatToString(n / 10) + [DigitChar(n % 10)]
  }

  /** The value of a string of decimal digits; the inverse of `NatToString`. */
  function ParseNat(s: string): nat
    requires IsDecimal(s)
    decreases |s|
  {
    if s == [] then 0
    else 10 * ParseNat(s[..|s| - 1]) + DigitValue(s[|s| - 1])
  }

  lemma {:induction false} ParseNatToString(n: nat)
    ensures ParseNat(NatToString(n)) == n
    decreases n
  {
    var s := NatToString(n);
    if n < 10 {
      assert s[..0] == [];
    } else {
      ParseNatToString(n / 10);
      assert s[..|s| - 1] == NatToString(n / 10);
    }
  }

  /** Distinct numbers have distinct decimal renderings. */
  lemma NatToStringInjective(m: nat, n: nat)
    requires NatToString(m) == NatToString(n)
    ensures m == n
  {
    ParseNatToString(m);
    ParseNatToString(n);
  }
}
