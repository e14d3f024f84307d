/**
 * Substring search as Python's `bytes.find(sub, start)` and `sub in s` do it,
 * generic in the element type so that one definition serves both the byte
 * search over the heap snapshot and the `'[heap]' in line` test on map lines.
 */
module Matching {

  /** `pat` occurs in `s` starting at offset `i`. */
  predicate IsMatchAt<T(==)>(s: seq<T>, pat: seq<T>, i: nat) {
    i + |pat| <= |s| && s[i..i + |pat|] == pat
  }

  /**
   * `s.find(pat, pos)`: the lowest offset at or after `pos` where `pat`
   * occurs, or -1. As in Python, an empty `pat` is found at `pos` as long as
   * `pos <= |s|`.
   */
  function Find<T(==)>(s: seq<T>, pat: seq<T>, pos: nat): (r: int)
    ensures r == -1 || (pos <= r && IsMatchAt(s, pat, r))
    ensures r == -1 ==> forall i :: pos <= i ==> !IsMatchAt(s, pat, i)
    ensures r != -1 ==> forall i :: pos <= i < r ==> !IsMatchAt(s, pat, i)
    decreases |s| + 1 - pos
  {
    if pos + |pat| > |s| then -1
    else if IsMatchAt(s, pat, pos) then pos
    else Find(s, pat, pos + 1)
  }

  /** `pat in s`, the substring test of a Python `str`. */
  predicate Contains<T(==)>(s: seq<T>, pat: seq<T>) {
    Find(s, pat, 0) != -1
  }

  lemma ContainsIff<T>(s: seq<T>, pat: seq<T>)
    ensures Contains(s, pat) <==> exists i: nat :: IsMatchAt(s, pat, i)
  {
    if Contains(s, pat) {
      var i: nat := Find(s, pat, 0);
      assert IsMatchAt(s, pat, i);
    }
  }

  /**
   * Reference definition: every offset at or after `pos` where `pat` occurs,
   * overlapping occurrences included, in increasing order.
   */
  function Occurrences<T(==)>(s: seq<T>, pat: seq<T>, pos: nat): seq<nat>
    decreases |s| + 1 - pos
  {
    if pos + |pat| > |s| then []
    else (if IsMatchAt(s, pat, pos) then [pos] else []) + Occurrences(s, pat, pos + 1)
  }

  /** Every occurrence at or after `pos` is listed, and nothing else is. */
  lemma {:induction false} OccurrencesComplete<T>(s: seq<T>, pat: seq<T>, pos: nat)
    ensures forall i :: i in Occurrences(s, pat, pos) <==> pos <= i && IsMatchAt(s, pat, i)
    decreases |s| + 1 - pos
  {
    if pos + |pat| <= |s| {
      OccurrencesComplete(s, pat, pos + 1);
    }
  }

  predicate StrictlyIncreasing(r: seq<nat>) {
    forall j, k :: 0 <= j < k < |r| ==> r[j] < r[k]
  }

  /** The occurrences are listed in strictly increasing order, so each is visited once. */
  lemma {:induction false} OccurrencesIncreasing<T>(s: seq<T>, pat: seq<T>, pos: nat)
    ensures StrictlyIncreasing(Occurrences(s, pat, pos))
    decreases |s| + 1 - pos
  {
    if pos + |pat| <= |s| {
      var rest := Occurrences(s, pat, pos + 1);
      OccurrencesIncreasing(s, pat, pos + 1);
      OccurrencesComplete(s, pat, pos + 1);
      assert forall k :: 0 <= k < |rest| ==> pos < rest[k] by {
        forall k | 0 <= k < |rest| ensures pos < rest[k] {
          assert rest[k] in rest;
        }
      }
      var r := Occurrences(s, pat, pos);
      if IsMatchAt(s, pat, pos) {
        assert r == [pos] + rest;
        assert forall k :: 0 < k < |r| ==> r[k] == rest[k - 1];
      } else {
        assert r == rest;
      }
    }
  }

  /**
   * The find loop visits exactly the occurrences: a search from `pos` fails
   * iff nothing occurs from `pos` on, and otherwise its hit is the first
   * occurrence, after which the search resumes one offset later.
   */
  lemma {:induction false} FindIsFirstOccurrence<T>(s: seq<T>, pat: seq<T>, pos: nat)
    ensures Find(s, pat, pos) == -1 <==> Occurrences(s, pat, pos) == []
    ensures Find(s, pat, pos) != -1 ==>
      Occurrences(s, pat, pos) == [Find(s, pat, pos) as nat] + Occurrences(s, pat, Find(s, pat, pos) + 1)
    decreases |s| + 1 - pos
  {
    if pos + |pat| > |s| {
    } else if IsMatchAt(s, pat, pos) {
      assert Find(s, pat, pos) == pos;
      assert Occurrences(s, pat, pos) == [pos] + Occurrences(s, pat, pos + 1);
    } else {
      assert Find(s, pat, pos) == Find(s, pat, pos + 1);
      assert Occurrences(s, pat, pos) == Occurrences(s, pat, pos + 1);
      FindIsFirstOccurrence(s, pat, pos + 1);
    }
  }

  /** The search finds something iff `pat` occurs somewhere in `s`. */
  lemma OccurrencesNonEmptyIff<T>(s: seq<T>, pat: seq<T>)
    ensures Occurrences(s, pat, 0) != [] <==> exists i: nat :: IsMatchAt(s, pat, i)
  {
    var occ := Occurrences(s, pat, 0);
    OccurrencesComplete(s, pat, 0);
    if occ != [] {
      assert occ[0] in occ;
    }
  }

  /** Overlapping occurrences are all reported: "aa" occurs in "aaa" at 0 and at 1. */
  lemma OverlappingExample()
    ensures Occurrences("aaa", "aa", 0) == [0, 1]
  {
    assert IsMatchAt("aaa", "aa", 0);
    assert IsMatchAt("aaa", "aa", 1);
  }
}
