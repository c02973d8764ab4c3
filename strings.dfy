/** The parts of Python's `str` that the loader relies on, over Unicode code
    points: `s.replace(pat, "")`, `s.count(pat)`, `startswith`, `endswith`,
    and the notion of one string being obtained from another by deletions. */
module Strings {

  predicate StartsWith(s: string, prefix: string)
  {
    |prefix| <= |s| && s[..|prefix|] == prefix
  }

  predicate EndsWith(s: string, suffix: string)
  {
    |suffix| <= |s| && s[|s| - |suffix|..] == suffix
  }

  /** `pat` occurs in `s` starting at index `i`. */
  ghost predicate OccursAt(s: string, pat: string, i: int)
  {
    0 <= i && i + |pat| <= |s| && s[i..i + |pat|] == pat
  }

  ghost predicate Occurs(s: string, pat: string)
  {
    exists i :: OccursAt(s, pat, i)
  }

  /** `s.replace(pat, "")`: a single left-to-right pass that deletes
      non-overlapping occurrences of `pat`. An empty `pat` leaves `s` as it is
      (Python inserts the empty replacement between characters). */
  function RemoveAll(s: string, pat: string): (r: string)
    ensures |r| <= |s|
    decreases |s|
  {
    if pat == [] || |s| < |pat| then s
    else if s[..|pat|] == pat then RemoveAll(s[|pat|..], pat)
    else [s[0]] + RemoveAll(s[1..], pat)
  }

  /** `s.count(pat)` for a non-empty `pat`: the occurrences the same
      left-to-right pass finds. */
  function Count(s: string, pat: string): nat
    requires pat != []
    decreases |s|
  {
    if |s| < |pat| then 0
    else if s[..|pat|] == pat then Count(s[|pat|..], pat) + 1
    else Count(s[1..], pat)
  }

  /** An occurrence after the first character is an occurrence in the tail. */
  lemma OccursAtTail(s: string, pat: string, i: int)
    requires s != [] && 1 <= i
    ensures OccursAt(s, pat, i) <==> OccursAt(s[1..], pat, i - 1)
  {
  }

  /** `a` is obtained from `b` by deleting characters (greedy matching). */
  predicate IsSubseq(a: string, b: string)
    decreases |b|
  {
    if a == [] then true
    else if b == [] then false
    else if a[0] == b[0] then IsSubseq(a[1..], b[1..])
    else IsSubseq(a, b[1..])
  }

  lemma {:induction false} SubseqLength(a: string, b: string)
    requires IsSubseq(a, b)
    ensures |a| <= |b|
    decreases |b|
  {
    if a != [] {
      if a[0] == b[0] {
        SubseqLength(a[1..], b[1..]);
      } else {
        SubseqLength(a, b[1..]);
      }
    }
  }

  lemma {:induction false} SubseqRefl(a: string)
    ensures IsSubseq(a, a)
    decreases |a|
  {
    if a != [] {
      SubseqRefl(a[1..]);
    }
  }

  /** A subsequence of the tail of `b` is a subsequence of `b`. */
  lemma {:induction false} SubseqCons(a: string, b: string)
    requires b != [] && IsSubseq(a, b[1..])
    ensures IsSubseq(a, b)
    decreases |b|, 0
  {
    if a != [] && a[0] == b[0] {
      SubseqTail(a, b[1..]);
    }
  }

  /** Dropping the first character of a subsequence keeps it a subsequence. */
  lemma {:induction false} SubseqTail(a: string, b: string)
    requires a != [] && IsSubseq(a, b)
    ensures IsSubseq(a[1..], b)
    decreases |b|, 1
  {
    if a[0] == b[0] {
      SubseqCons(a[1..], b);
    } else {
      SubseqTail(a, b[1..]);
      SubseqCons(a[1..], b);
    }
  }

  lemma {:induction false} SubseqDrop(a: string, b: string, k: nat)
    requires k <= |b| && IsSubseq(a, b[k..])
    ensures IsSubseq(a, b)
    decreases k
  {
    if k > 0 {
      assert b[1..][k - 1..] == b[k..];
      SubseqDrop(a, b[1..], k - 1);
      SubseqCons(a, b);
    }
  }

  lemma {:induction false} SubseqTrans(a: string, b: string, c: string)
    requires IsSubseq(a, b) && IsSubseq(b, c)
    ensures IsSubseq(a, c)
    decreases |c|
  {
    if a == [] {
    } else if b[0] == c[0] {
      if a[0] == b[0] {
        SubseqTrans(a[1..], b[1..], c[1..]);
      } else {
        SubseqTrans(a, b[1..], c[1..]);
      }
    } else {
      SubseqTrans(a, b, c[1..]);
      SubseqCons(a, c);
    }
  }

  /** Removal only deletes characters: the result is a subsequence of the input. */
  lemma {:induction false} RemoveAllDeletes(s: string, pat: string)
    ensures IsSubseq(RemoveAll(s, pat), s)
    decreases |s|
  {
    if pat == [] || |s| < |pat| {
      SubseqRefl(s);
    } else if s[..|pat|] == pat {
      RemoveAllDeletes(s[|pat|..], pat);
      SubseqDrop(RemoveAll(s, pat), s, |pat|);
    } else {
      RemoveAllDeletes(s[1..], pat);
      assert RemoveAll(s, pat)[1..] == RemoveAll(s[1..], pat);
    }
  }

  lemma MulSucc(m: nat, k: nat)
    ensures (m + 1) * k == m * k + k
  {
  }

  /** Each removal pass shortens the text by (occurrences found) * |pat|. */
  lemma {:induction false} RemoveAllLength(s: string, pat: string)
    requires pat != []
    ensures |RemoveAll(s, pat)| == |s| - Count(s, pat) * |pat|
    decreases |s|
  {
    if |s| < |pat| {
    } else if s[..|pat|] == pat {
      var rest := s[|pat|..];
      RemoveAllLength(rest, pat);
      MulSucc(Count(rest, pat), |pat|);
    } else {
      RemoveAllLength(s[1..], pat);
    }
  }

  /** The pass finds something when `pat` occurs. */
  lemma {:induction false} OccursCounted(s: string, pat: string, i: int)
    requires pat != [] && OccursAt(s, pat, i)
    ensures Count(s, pat) > 0
    decreases |s|
  {
    if s[..|pat|] != pat {
      assert i != 0;
      OccursAtTail(s, pat, i);
      OccursCounted(s[1..], pat, i - 1);
    }
  }

  /** If the pass counts anything, `pat` occurs in `s` at the returned index. */
  lemma {:induction false} CountedOccurs(s: string, pat: string) returns (i: nat)
    requires pat != [] && Count(s, pat) > 0
    ensures OccursAt(s, pat, i)
    decreases |s|
  {
    if s[..|pat|] == pat {
      i := 0;
    } else {
      var j := CountedOccurs(s[1..], pat);
      OccursAtTail(s, pat, j + 1);
      i := j + 1;
    }
  }

  /** The pass finds nothing exactly when `pat` does not occur at all. */
  lemma CountZeroIff(s: string, pat: string)
    requires pat != []
    ensures Count(s, pat) == 0 <==> !Occurs(s, pat)
  {
    if Count(s, pat) > 0 {
      var i := CountedOccurs(s, pat);
    }
    if Occurs(s, pat) {
      var i :| OccursAt(s, pat, i);
      OccursCounted(s, pat, i);
    }
  }

  /** `s.replace(pat, "")` returns `s` itself exactly when `pat` is empty or
      does not occur in `s`. */
  lemma RemoveAllUnchangedIff(s: string, pat: string)
    ensures RemoveAll(s, pat) == s <==> (pat == [] || !Occurs(s, pat))
  {
    if pat != [] {
      RemoveAllLength(s, pat);
      CountZeroIff(s, pat);
      if !Occurs(s, pat) {
        RemoveAllIdentity(s, pat);
      }
    }
  }

  lemma {:induction false} RemoveAllIdentity(s: string, pat: string)
    requires pat != [] && Count(s, pat) == 0
    ensures RemoveAll(s, pat) == s
    decreases |s|
  {
    if |s| >= |pat| {
      RemoveAllIdentity(s[1..], pat);
    }
  }

  /** One pass can assemble a new occurrence out of the pieces around a
      deleted one, so occurrences may remain after removal. */
  lemma RemoveAllMayLeaveOccurrence()
    ensures RemoveAll("ababcc", "abc") == "abc"
    ensures Occurs(RemoveAll("ababcc", "abc"), "abc")
  {
    var s := "ababcc";
    assert s[..3][2] != 'c';
    assert s[1..][..3][0] != 'a';
    assert s[2..][..3] == "abc";
    assert s[2..][3..] == "c";
    assert RemoveAll("c", "abc") == "c";
    assert RemoveAll(s[2..], "abc") == "c";
    assert RemoveAll(s[1..], "abc") == "bc";
    assert OccursAt("abc", "abc", 0);
  }
}
