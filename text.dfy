/**
  The handful of java.lang.String operations the plugin relies on, over
  `seq<char>`. Case mapping is ASCII only (see README, "Left out").
 */
module Text {

  /** Character.toLowerCase restricted to ASCII letters. */
  function LowerChar(c: char): (r: char)
    ensures 'A' <= c <= 'Z' ==> 'a' <= r <= 'z'
    ensures !('A' <= c <= 'Z') ==> r == c
  {
    if 'A' <= c <= 'Z' then (c as int + 32) as char else c
  }

  /** String.toLowerCase: maps every character, keeps the length. */
  function Lower(s: string): (r: string)
    ensures |r| == |s|
    ensures forall i :: 0 <= i < |s| ==> r[i] == LowerChar(s[i])
  {
    if s == [] then [] else [LowerChar(s[0])] + Lower(s[1..])
  }

  /** Lower-casing is idempotent. */
  lemma LowerIdempotent(s: string)
    ensures Lower(Lower(s)) == Lower(s)
  {
  }

  /** String.startsWith(p) on `s`. */
  predicate IsPrefix(p: string, s: string) {
    |p| <= |s| && s[..|p|] == p
  }

  /** `pat` occurs somewhere in `s` (String.contains). */
  predicate Occurs(s: string, pat: string)
    requires |pat| > 0
  {
    |s| >= |pat| && (s[..|pat|] == pat || Occurs(s[1..], pat))
  }

  /** `pat` sits in `s` starting at index `i`. */
  predicate At(s: string, pat: string, i: int) {
    0 <= i && i + |pat| <= |s| && s[i..i + |pat|] == pat
  }

  /** Occurs finds exactly the positions where `pat` sits in `s`. */
  lemma {:induction false} OccursAt(s: string, pat: string)
    requires |pat| > 0
    ensures Occurs(s, pat) <==> exists i :: At(s, pat, i)
  {
    if |s| >= |pat| {
      OccursAt(s[1..], pat);
      if s[..|pat|] == pat {
        assert At(s, pat, 0);
      } else if Occurs(s[1..], pat) {
        var i :| At(s[1..], pat, i);
        assert s[1..][i..i + |pat|] == s[i + 1..i + 1 + |pat|];
        assert At(s, pat, i + 1);
      }
      if exists i :: At(s, pat, i) {
        var i :| At(s, pat, i);
        if i > 0 {
          assert s[1..][i - 1..i - 1 + |pat|] == s[i..i + |pat|];
          assert At(s[1..], pat, i - 1);
        }
      }
    }
  }

  /** A text built around the pattern contains it. */
  lemma OccursJoin(a: string, pat: string, b: string)
    requires |pat| > 0
    ensures Occurs(a + pat + b, pat)
  {
    OccursAt(a + pat + b, pat);
    assert (a + pat + b)[|a|..|a| + |pat|] == pat;
    assert At(a + pat + b, pat, |a|);
  }

  /** A prefix that does not contain the pattern's first character cannot hold the start of an occurrence. */
  lemma {:induction false} OccursAfterPrefix(a: string, b: string, pat: string)
    requires |pat| > 0 && pat[0] !in a
    ensures Occurs(a + b, pat) ==> Occurs(b, pat)
  {
    if a != [] {
      assert (a + b)[1..] == a[1..] + b;
      OccursAfterPrefix(a[1..], b, pat);
    } else {
      assert a + b == b;
    }
  }

  /**
    String.replace(CharSequence, CharSequence): every occurrence of `pat`,
    scanning left to right without overlap, becomes `rep`.
   */
  function Replace(s: string, pat: string, rep: string): string
    requires |pat| > 0
  {
    if |s| < |pat| then s
    else if s[..|pat|] == pat then rep + Replace(s[|pat|..], pat, rep)
    else [s[0]] + Replace(s[1..], pat, rep)
  }

  /** Replacing a pattern that does not occur leaves the string as it was. */
  lemma {:induction false} ReplaceAbsent(s: string, pat: string, rep: string)
    requires |pat| > 0 && !Occurs(s, pat)
    ensures Replace(s, pat, rep) == s
  {
    if |s| >= |pat| {
      ReplaceAbsent(s[1..], pat, rep);
      assert [s[0]] + s[1..] == s;
    }
  }

  /** No occurrence of `pat` in `a + b` starts inside `a`. */
  predicate NoMatchStartsIn(a: string, b: string, pat: string)
    decreases |a|
  {
    a == [] || (!IsPrefix(pat, a + b) && NoMatchStartsIn(a[1..], b, pat))
  }

  /** Replacement copies a prefix in which no occurrence starts, then carries on with the rest. */
  lemma {:induction false} ReplaceCopiesPrefix(a: string, b: string, pat: string, rep: string)
    requires |pat| > 0 && NoMatchStartsIn(a, b, pat)
    ensures Replace(a + b, pat, rep) == a + Replace(b, pat, rep)
    decreases |a|
  {
    if a != [] {
      var s := a + b;
      if |s| < |pat| {
        assert Replace(s, pat, rep) == s;
        assert Replace(b, pat, rep) == b;
      } else {
        assert s[..|pat|] != pat;
        assert Replace(s, pat, rep) == [s[0]] + Replace(s[1..], pat, rep);
        assert s[0] == a[0] && s[1..] == a[1..] + b;
        ReplaceCopiesPrefix(a[1..], b, pat, rep);
        assert [a[0]] + (a[1..] + Replace(b, pat, rep)) == a + Replace(b, pat, rep);
      }
    } else {
      assert a + b == b;
    }
  }

  /**
    The first occurrence is replaced, the text before it is kept, and
    replacement carries on with what follows: every occurrence, left to
    right, none overlapping.
   */
  lemma ReplaceFirst(before: string, rest: string, pat: string, rep: string)
    requires |pat| > 0 && NoMatchStartsIn(before, pat + rest, pat)
    ensures Replace(before + pat + rest, pat, rep) == before + rep + Replace(rest, pat, rep)
  {
    assert before + pat + rest == before + (pat + rest);
    ReplaceCopiesPrefix(before, pat + rest, pat, rep);
    assert (pat + rest)[..|pat|] == pat && (pat + rest)[|pat|..] == rest;
  }

  /** A single occurrence is replaced and everything around it kept. */
  lemma ReplaceOnce(before: string, after: string, pat: string, rep: string)
    requires |pat| > 0 && NoMatchStartsIn(before, pat + after, pat) && !Occurs(after, pat)
    ensures Replace(before + pat + after, pat, rep) == before + rep + after
  {
    ReplaceFirst(before, after, pat, rep);
    ReplaceAbsent(after, pat, rep);
  }

  /** A one-character replacement maps the string character by character. */
  lemma {:induction false} ReplaceChar(s: string, a: char, b: char)
    ensures |Replace(s, [a], [b])| == |s|
    ensures forall i :: 0 <= i < |s| ==> Replace(s, [a], [b])[i] == if s[i] == a then b else s[i]
  {
    if s != [] {
      ReplaceChar(s[1..], a, b);
    }
  }

  /** String.trim().isEmpty(): every character is at most U+0020. */
  predicate IsBlank(s: string) {
    forall i :: 0 <= i < |s| ==> s[i] <= ' '
  }

  function DigitChar(d: nat): (c: char)
    requires d < 10
    ensures '0' <= c <= '9'
  {
    ('0' as int + d) as char
  }

  /** String.valueOf for a non-negative int: decimal digits, most significant first. */
  function NatToString(n: nat): (r: string)
    ensures |r| > 0
    ensures forall i :: 0 <= i < |r| ==> '0' <= r[i] <= '9'
  {
    if n < 10 then [DigitChar(n)] else NatToString(n / 10) + [DigitChar(n % 10)]
  }

  /** String.valueOf(int). */
  function IntToString(n: int): string {
    if n < 0 then "-" + NatToString(-n) else NatToString(n)
  }

  /** Integer.parseInt for a string of decimal digits: the partner of NatToString. */
  function ParseDigits(s: string): nat
    requires forall i :: 0 <= i < |s| ==> '0' <= s[i] <= '9'
  {
    if s == [] then 0 else ParseDigits(s[..|s| - 1]) * 10 + (s[|s| - 1] as int - '0' as int)
  }

  /** Printing then parsing gives back the number. */
  lemma {:induction false} NatToStringRoundTrip(n: nat)
    ensures ParseDigits(NatToString(n)) == n
  {
    if n >= 10 {
      NatToStringRoundTrip(n / 10);
      var s := NatToString(n);
      assert s[..|s| - 1] == NatToString(n / 10);
    }
  }
}
