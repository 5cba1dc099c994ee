/** Substring occurrence and the count of non-overlapping matches, as Rust's
    `str::matches(pattern).count()` computes it for a string pattern. */
module Matching {

  /** `p` occurs in `s` starting at position `k`. */
  predicate OccursAt(p: string, s: string, k: int)
  {
    0 <= k && k + |p| <= |s| && s[k..k + |p|] == p
  }

  /** `p` is a contiguous substring of `s`. */
  predicate Occurs(p: string, s: string)
  {
    exists k :: 0 <= k <= |s| && OccursAt(p, s, k)
  }

  /** The number of matches of `p` in `s` found by a left-to-right scan that
      resumes after the end of each match, so matches never overlap. An
      empty pattern matches at every character boundary, `|s| + 1` times. */
  function CountMatches(s: string, p: string): (r: nat)
    ensures r <= |s| + 1
    decreases |s|
  {
    if |p| == 0 then |s| + 1
    else if |s| < |p| then 0
    else if s[..|p|] == p then 1 + CountMatches(s[|p|..], p)
    else CountMatches(s[1..], p)
  }

  /** An occurrence in the text after its first character is an occurrence
      one position further on in the whole text, and conversely. */
  lemma OccursAtTail(p: string, s: string, k: int)
    requires |s| > 0 && 0 <= k
    ensures OccursAt(p, s[1..], k) <==> OccursAt(p, s, k + 1)
  {
    if k + |p| <= |s| - 1 {
      assert s[1..][k..k + |p|] == s[k + 1..k + 1 + |p|];
    }
  }

  /** One more match of length `n` fits in `n` more characters. */
  lemma MulStep(c: nat, n: nat, m: nat)
    requires c * n <= m
    ensures (1 + c) * n <= m + n
  {
  }

  /** Non-overlapping matches of a non-empty pattern fit in the text. */
  lemma {:induction false} CountBound(s: string, p: string)
    requires |p| > 0
    ensures CountMatches(s, p) * |p| <= |s|
    decreases |s|
  {
    if |s| >= |p| {
      if s[..|p|] == p {
        CountBound(s[|p|..], p);
        MulStep(CountMatches(s[|p|..], p), |p|, |s| - |p|);
      } else {
        CountBound(s[1..], p);
      }
    }
  }

  /** A pattern is matched at least once exactly when it is a substring. */
  lemma {:induction false} CountPositiveIffOccurs(s: string, p: string)
    ensures CountMatches(s, p) > 0 <==> Occurs(p, s)
    decreases |s|
  {
    if |p| == 0 {
      assert OccursAt(p, s, 0);
    } else if |s| < |p| {
      assert forall k :: 0 <= k <= |s| ==> !OccursAt(p, s, k);
    } else if s[..|p|] == p {
      assert OccursAt(p, s, 0);
    } else {
      CountPositiveIffOccurs(s[1..], p);
      if CountMatches(s, p) > 0 {
        var k :| 0 <= k <= |s[1..]| && OccursAt(p, s[1..], k);
        OccursAtTail(p, s, k);
      }
      if Occurs(p, s) {
        var k :| 0 <= k <= |s| && OccursAt(p, s, k);
        assert k != 0;
        OccursAtTail(p, s, k - 1);
      }
    }
  }

  /** Without a match at the start, the scan moves on one character. */
  lemma CountSkipsStart(s: string, p: string)
    requires |p| > 0 && |s| > 0 && !OccursAt(p, s, 0)
    ensures CountMatches(s, p) == CountMatches(s[1..], p)
  {
    if |s| >= |p| {
      assert s[..|p|] != p;
    }
  }

  /** Having no match before position `k` carries over to the text after
      its first character, one position earlier. */
  lemma NoEarlierMatchTail(p: string, s: string, k: nat)
    requires |s| > 0 && k > 0
    requires forall j :: 0 <= j < k ==> !OccursAt(p, s, j)
    ensures forall j :: 0 <= j < k - 1 ==> !OccursAt(p, s[1..], j)
  {
    forall j | 0 <= j < k - 1
      ensures !OccursAt(p, s[1..], j)
    {
      OccursAtTail(p, s, j);
    }
  }

  /** The count is fixed by the leftmost match: it is that match plus the
      matches in the text after its end, where the scan resumes. */
  lemma {:induction false} CountLeftmost(s: string, p: string, k: nat)
    requires |p| > 0 && OccursAt(p, s, k)
    requires forall j :: 0 <= j < k ==> !OccursAt(p, s, j)
    ensures CountMatches(s, p) == 1 + CountMatches(s[k + |p|..], p)
    decreases k
  {
    if k == 0 {
      assert s[..|p|] == p;
    } else {
      CountSkipsStart(s, p);
      OccursAtTail(p, s, k - 1);
      NoEarlierMatchTail(p, s, k);
      CountLeftmost(s[1..], p, k - 1);
      assert s[1..][k - 1 + |p|..] == s[k + |p|..];
    }
  }

  /** A pattern that does not occur is matched zero times. */
  lemma CountAbsent(s: string, p: string)
    requires !Occurs(p, s)
    ensures CountMatches(s, p) == 0
  {
    CountPositiveIffOccurs(s, p);
  }
}
