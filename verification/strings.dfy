/** String matching as the browse screen uses it: JavaScript's case-sensitive `includes`. */
module Strings {

  /** `q` occurs in `s` as a contiguous run starting at index `i`. */
  predicate OccursAt(s: string, q: string, i: int)
  {
    0 <= i && i + |q| <= |s| && s[i..i + |q|] == q
  }

  /** `String.prototype.includes`: scans `s` left to right for a position where `q` is a prefix.
      No case folding or normalisation happens, so the match is case-sensitive. */
  predicate Includes(s: string, q: string)
    decreases |s|
  {
    if |q| > |s| then false
    else if q <= s then true
    else Includes(s[1..], q)
  }

  /** The scan finds `q` exactly when `q` occurs somewhere in `s`. */
  lemma {:induction false} IncludesIffOccurs(s: string, q: string)
    ensures Includes(s, q) <==> exists i :: OccursAt(s, q, i)
    decreases |s|
  {
    if |q| > |s| {
      assert forall i :: !OccursAt(s, q, i);
    } else if q <= s {
      assert s[0..|q|] == q;
      assert OccursAt(s, q, 0);
    } else {
      IncludesIffOccurs(s[1..], q);
      if Includes(s[1..], q) {
        var j :| OccursAt(s[1..], q, j);
        UnshiftOccurrence(s, q, j);
      } else {
        forall i | OccursAt(s, q, i)
          ensures i > 0 && OccursAt(s[1..], q, i - 1)
        {
          PrefixIff(s, q);
          ShiftOccurrence(s, q, i);
        }
      }
    }
  }

  /** Being a prefix is occurring at position 0. */
  lemma PrefixIff(s: string, q: string)
    ensures q <= s <==> OccursAt(s, q, 0)
  {
    if OccursAt(s, q, 0) {
      assert s[0..|q|] == s[..|q|];
    }
  }

  /** An occurrence past the first character is an occurrence in the tail, one earlier. */
  lemma ShiftOccurrence(s: string, q: string, i: int)
    requires i > 0 && OccursAt(s, q, i)
    ensures OccursAt(s[1..], q, i - 1)
  {
    SameRun(s, i, |q|);
  }

  /** An occurrence in the tail is an occurrence in the whole string, one later. */
  lemma UnshiftOccurrence(s: string, q: string, j: int)
    requires |s| > 0 && OccursAt(s[1..], q, j)
    ensures OccursAt(s, q, j + 1)
  {
    SameRun(s, j + 1, |q|);
  }

  /** The run of length `n` at `i` in `s` is the run at `i - 1` in its tail. */
  lemma SameRun(s: string, i: int, n: nat)
    requires 0 < i && i + n <= |s|
    ensures s[1..][i - 1..i - 1 + n] == s[i..i + n]
  {
    var tail := s[1..];
    assert forall k :: 0 <= k < |tail| ==> tail[k] == s[k + 1];
    assert tail[i - 1..i - 1 + n] == s[i..i + n];
  }
}
