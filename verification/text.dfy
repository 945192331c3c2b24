/**
  The string operations the register page applies to its form fields:
  JavaScript's `String.prototype.replace` with a string pattern, which rewrites
  only the FIRST occurrence, and `replace(/[^0-9]/g, "")`, which drops every
  character that is not a decimal digit.
 */
module Text {
  import opened Wrappers

  /** `pat` appears in `s` starting at index `i`. */
  predicate OccursAt(s: string, pat: string, i: nat)
  {
    i + |pat| <= |s| && s[i..i + |pat|] == pat
  }

  ghost predicate Contains(s: string, pat: string)
  {
    exists i: nat :: OccursAt(s, pat, i)
  }

  /** `i` is where `indexOf` finds `pat`: an occurrence with none before it. */
  predicate IsFirstOccurrence(s: string, pat: string, i: nat)
  {
    OccursAt(s, pat, i) && forall j: nat :: j < i ==> !OccursAt(s, pat, j)
  }

  /** `s.replace(pat, rep)` for a string `pat` and a replacement without `$`
      patterns (`$&`, `$$`, `` $` ``, `$'`), which JavaScript would expand: the
      first occurrence is rewritten and the rest of the string kept. */
  function ReplaceFirst(s: string, pat: string, rep: string): string
    decreases |s|
  {
    if |s| < |pat| then s
    else if s[..|pat|] == pat then rep + s[|pat|..]
    else [s[0]] + ReplaceFirst(s[1..], pat, rep)
  }

  /** Occurrences in the tail of a string are the occurrences one place later
      in the string. */
  lemma OccursInTail(s: string, pat: string, j: nat)
    requires |s| > 0
    ensures OccursAt(s[1..], pat, j) <==> OccursAt(s, pat, j + 1)
  {
    if j + 1 + |pat| <= |s| {
      assert s[1..][j..j + |pat|] == s[j + 1..j + 1 + |pat|];
    }
  }

  /** Dropping the first character moves a later first occurrence one place left. */
  lemma FirstOccurrenceInTail(s: string, pat: string, i: nat)
    requires i > 0 && IsFirstOccurrence(s, pat, i)
    ensures IsFirstOccurrence(s[1..], pat, i - 1) && s[..|pat|] != pat
  {
    assert !OccursAt(s, pat, 0);
    OccursInTail(s, pat, i - 1);
    forall j: nat | j < i - 1
      ensures !OccursAt(s[1..], pat, j)
    {
      OccursInTail(s, pat, j);
    }
  }

  /** Cutting a string around positions `i <= k` commutes with dropping its
      first character. */
  lemma CutAfterHead(s: string, rep: string, i: nat, k: nat)
    requires 0 < i <= k <= |s|
    ensures s[..i] + rep + s[k..] == [s[0]] + (s[1..][..i - 1] + rep + s[1..][k - 1..])
  {
    assert s[..i] == [s[0]] + s[1..][..i - 1];
    assert s[k..] == s[1..][k - 1..];
  }

  /** `ReplaceFirst` rewrites exactly the occurrence `indexOf` would report. */
  lemma {:induction false} ReplaceFirstRewritesFirstOccurrence(s: string, pat: string, rep: string, i: nat)
    requires IsFirstOccurrence(s, pat, i)
    ensures ReplaceFirst(s, pat, rep) == s[..i] + rep + s[i + |pat|..]
    decreases i
  {
    if i > 0 {
      FirstOccurrenceInTail(s, pat, i);
      ReplaceFirstRewritesFirstOccurrence(s[1..], pat, rep, i - 1);
      CutAfterHead(s, rep, i, i + |pat|);
    }
  }

  /** A string without the pattern comes back unchanged. */
  lemma {:induction false} ReplaceFirstWithoutOccurrence(s: string, pat: string, rep: string)
    requires !Contains(s, pat)
    ensures ReplaceFirst(s, pat, rep) == s
    decreases |s|
  {
    if |s| >= |pat| {
      assert !OccursAt(s, pat, 0);
      var t := s[1..];
      forall j: nat
        ensures !OccursAt(t, pat, j)
      {
        OccursInTail(s, pat, j);
      }
      ReplaceFirstWithoutOccurrence(t, pat, rep);
      assert s == [s[0]] + t;
    }
  }

  /** A one-character pattern occurs exactly where the character does. */
  lemma ContainsChar(s: string, c: char)
    ensures Contains(s, [c]) <==> c in s
  {
    if c in s {
      var i :| 0 <= i < |s| && s[i] == c;
      assert s[i..i + 1] == [c];
      assert OccursAt(s, [c], i);
    }
    if Contains(s, [c]) {
      var i: nat :| OccursAt(s, [c], i);
      assert s[i] == s[i..i + 1][0];
    }
  }

  /** A pattern cannot occur in a string that lacks one of its characters. */
  lemma AbsentCharRulesOut(s: string, pat: string, k: nat)
    requires k < |pat| && pat[k] !in s
    ensures !Contains(s, pat)
  {
  }

  /** Replacing a one-character pattern rewrites its first occurrence and keeps
      everything after it, even further copies of the same character. */
  lemma ReplaceFirstChar(a: string, c: char, b: string, rep: string)
    requires c !in a
    ensures ReplaceFirst(a + [c] + b, [c], rep) == a + rep + b
  {
    var s := a + [c] + b;
    assert s[|a|..|a| + 1] == [c];
    forall j: nat | j < |a|
      ensures !OccursAt(s, [c], j)
    {
      assert s[j..j + 1] == [a[j]];
    }
    ReplaceFirstRewritesFirstOccurrence(s, [c], rep, |a|);
    assert s[..|a|] == a;
    assert s[|a| + 1..] == b;
  }

  /** A string that starts with the pattern loses exactly that prefix. */
  lemma ReplaceFirstLeading(pat: string, t: string, rep: string)
    ensures ReplaceFirst(pat + t, pat, rep) == rep + t
  {
    var s := pat + t;
    assert s[..|pat|] == pat;
    assert s[|pat|..] == t;
  }

  predicate IsDigit(c: char)
  {
    '0' <= c <= '9'
  }

  predicate AllDigits(s: string)
  {
    forall i :: 0 <= i < |s| ==> IsDigit(s[i])
  }

  /** `a` can be obtained from `b` by deleting characters: the characters of `a`
      appear in `b` in the same order. */
  predicate IsSubsequence(a: string, b: string)
    decreases |b|
  {
    |a| == 0 ||
    (|b| > 0 && ((a[0] == b[0] && IsSubsequence(a[1..], b[1..])) || IsSubsequence(a, b[1..])))
  }

  /** `s.replace(/[^0-9]/g, "")`: every non-digit removed, the digits kept in
      their original order and number. */
  function KeepDigits(s: string): (r: string)
    ensures AllDigits(r)
    ensures IsSubsequence(r, s)
    ensures forall c :: IsDigit(c) ==> multiset(r)[c] == multiset(s)[c]
  {
    if |s| == 0 then ""
    else
      var rest := KeepDigits(s[1..]);
      assert s == [s[0]] + s[1..];
      if IsDigit(s[0]) then
        assert ([s[0]] + rest)[1..] == rest;
        [s[0]] + rest
      else rest
  }

  /** The filter removes nothing from a string that is digits only, and a string
      it leaves unchanged is digits only. */
  lemma {:induction false} KeepDigitsFixesExactlyDigitStrings(s: string)
    ensures KeepDigits(s) == s <==> AllDigits(s)
  {
    if |s| > 0 {
      KeepDigitsFixesExactlyDigitStrings(s[1..]);
      if !IsDigit(s[0]) {
        assert multiset(KeepDigits(s))[s[0]] == 0 < multiset(s)[s[0]];
      }
    }
  }

  /** The filter works character by character: filtering a concatenation is
      concatenating the filtered parts. */
  lemma {:induction false} KeepDigitsAppend(a: string, b: string)
    ensures KeepDigits(a + b) == KeepDigits(a) + KeepDigits(b)
  {
    if |a| > 0 {
      assert (a + b)[1..] == a[1..] + b;
      KeepDigitsAppend(a[1..], b);
    } else {
      assert a + b == b;
    }
  }
}
