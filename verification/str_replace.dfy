/** `str::replace` as the renderer uses it: every non-overlapping occurrence
    of a non-empty pattern, found scanning left to right, is replaced. */
module StrReplace {
  import opened Bytes

  /** `pat` occurs in `s` at index `k`. */
  predicate OccursAt(s: Bytes, pat: Bytes, k: nat) {
    k + |pat| <= |s| && s[k..k + |pat|] == pat
  }

  function ReplaceAll(s: Bytes, pat: Bytes, rep: Bytes): Bytes
    requires |pat| > 0
    decreases |s|
  {
    if |s| < |pat| then s
    else if s[..|pat|] == pat then rep + ReplaceAll(s[|pat|..], pat, rep)
    else [s[0]] + ReplaceAll(s[1..], pat, rep)
  }

  /** Occurrences in the tail are the occurrences one further on. */
  lemma OccursShift(s: Bytes, pat: Bytes, k: nat)
    requires |s| > 0
    ensures OccursAt(s[1..], pat, k) <==> OccursAt(s, pat, k + 1)
  {
    if k + |pat| <= |s[1..]| {
      assert s[1..][k..k + |pat|] == s[k + 1..k + 1 + |pat|];
    }
  }

  /** Text in which the pattern does not occur comes back unchanged. */
  lemma {:induction false} ReplaceAbsent(s: Bytes, pat: Bytes, rep: Bytes)
    requires |pat| > 0
    requires forall k :: 0 <= k <= |s| ==> !OccursAt(s, pat, k)
    ensures ReplaceAll(s, pat, rep) == s
    decreases |s|
  {
    if |s| >= |pat| {
      assert !OccursAt(s, pat, 0);
      forall k | 0 <= k <= |s[1..]| ensures !OccursAt(s[1..], pat, k) {
        OccursShift(s, pat, k);
      }
      ReplaceAbsent(s[1..], pat, rep);
    }
  }

  /** The bytes before the first occurrence are kept, that occurrence is
      replaced, and the scan goes on after it. */
  lemma {:induction false} ReplaceFirst(s: Bytes, pat: Bytes, rep: Bytes, i: nat)
    requires |pat| > 0 && OccursAt(s, pat, i)
    requires forall k :: 0 <= k < i ==> !OccursAt(s, pat, k)
    ensures ReplaceAll(s, pat, rep) == s[..i] + rep + ReplaceAll(s[i + |pat|..], pat, rep)
    decreases i
  {
    if i == 0 {
      ReplaceAtFront(s, pat, rep);
    } else {
      var t := s[1..];
      ReplaceSkip(s, pat, rep);
      FirstInTail(s, pat, i);
      ReplaceFirst(t, pat, rep, i - 1);
      assert t[i - 1 + |pat|..] == s[i + |pat|..];
      ReplaceFirstStep(s, rep, ReplaceAll(s, pat, rep), ReplaceAll(t, pat, rep), ReplaceAll(s[i + |pat|..], pat, rep), i);
    }
  }

  /** A first occurrence past the front is the tail's first occurrence, one
      position earlier. */
  lemma FirstInTail(s: Bytes, pat: Bytes, i: nat)
    requires 0 < i && OccursAt(s, pat, i)
    requires forall k :: 0 <= k < i ==> !OccursAt(s, pat, k)
    ensures OccursAt(s[1..], pat, i - 1)
    ensures forall k :: 0 <= k < i - 1 ==> !OccursAt(s[1..], pat, k)
  {
    OccursShift(s, pat, i - 1);
    forall k | 0 <= k < i - 1 ensures !OccursAt(s[1..], pat, k) {
      OccursShift(s, pat, k);
    }
  }

  /** Where the pattern starts the text, it is replaced. */
  lemma ReplaceAtFront(s: Bytes, pat: Bytes, rep: Bytes)
    requires |pat| > 0 && OccursAt(s, pat, 0)
    ensures ReplaceAll(s, pat, rep) == s[..0] + rep + ReplaceAll(s[|pat|..], pat, rep)
  {
    assert s[..|pat|] == pat;
    assert s[..0] + rep == rep;
  }

  /** Where the pattern does not start the text, its first byte is kept. */
  lemma ReplaceSkip(s: Bytes, pat: Bytes, rep: Bytes)
    requires |pat| > 0 && |s| >= |pat| && !OccursAt(s, pat, 0)
    ensures ReplaceAll(s, pat, rep) == [s[0]] + ReplaceAll(s[1..], pat, rep)
  {
  }

  lemma ReplaceFirstStep(s: Bytes, rep: Bytes, whole: Bytes, tail: Bytes, after: Bytes, i: nat)
    requires 0 < i <= |s|
    requires whole == [s[0]] + tail && tail == s[1..][..i - 1] + rep + after
    ensures whole == s[..i] + rep + after
  {
    assert [s[0]] + s[1..][..i - 1] == s[..i];
  }

  /** Replacing a pattern by itself changes nothing. */
  lemma {:induction false} ReplaceBySelf(s: Bytes, pat: Bytes)
    requires |pat| > 0
    ensures ReplaceAll(s, pat, pat) == s
    decreases |s|
  {
    if |s| >= |pat| {
      if s[..|pat|] == pat {
        ReplaceBySelf(s[|pat|..], pat);
        assert pat + s[|pat|..] == s;
      } else {
        ReplaceBySelf(s[1..], pat);
        assert [s[0]] + s[1..] == s;
      }
    }
  }
}
