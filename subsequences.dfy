/**
  Order-preserving filters. Both list-building loops of the script keep some
  elements of an input list and drop the others, one decision per position;
  `Select(s, keep)` is the list such a loop builds, and `SelectedAt` is an
  independent description of it by the positions it keeps.
 */
module Subsequences {

  /** The elements `s[i]` with `keep[i]`, in the order of `s`. */
  function Select<T>(s: seq<T>, keep: seq<bool>): (r: seq<T>)
    requires |keep| == |s|
    ensures |r| <= |s|
  {
    if s == [] then []
    else
      var n := |s| - 1;
      Select(s[..n], keep[..n]) + (if keep[n] then [s[n]] else [])
  }

  ghost predicate Increasing(idx: seq<nat>) {
    forall a, b :: 0 <= a < b < |idx| ==> idx[a] < idx[b]
  }

  /**
    `r` is `s` read at the strictly increasing positions `idx`, and those
    positions are exactly the ones `keep` marks.
   */
  ghost predicate SelectedAt<T>(r: seq<T>, s: seq<T>, keep: seq<bool>, idx: seq<nat>)
    requires |keep| == |s|
  {
    && |idx| == |r|
    && Increasing(idx)
    && (forall k :: 0 <= k < |idx| ==> idx[k] < |s| && r[k] == s[idx[k]])
    && (forall i :: 0 <= i < |s| ==> (keep[i] <==> i in idx))
  }

  /** The marked positions, in increasing order. */
  function KeptPositions(keep: seq<bool>): (idx: seq<nat>)
    ensures Increasing(idx)
    ensures forall k :: 0 <= k < |idx| ==> idx[k] < |keep|
    ensures forall i :: 0 <= i < |keep| ==> (keep[i] <==> i in idx)
  {
    if keep == [] then []
    else
      var n := |keep| - 1;
      var init := KeptPositions(keep[..n]);
      assert forall i :: 0 <= i < n ==> keep[..n][i] == keep[i];
      init + (if keep[n] then [n] else [])
  }

  lemma {:induction false} SelectAtKeptPositions<T>(s: seq<T>, keep: seq<bool>)
    requires |keep| == |s|
    ensures SelectedAt(Select(s, keep), s, keep, KeptPositions(keep))
  {
    if s != [] {
      var n := |s| - 1;
      SelectAtKeptPositions(s[..n], keep[..n]);
      assert forall i :: 0 <= i < n ==> keep[..n][i] == keep[i];
    }
  }

  /** In an increasing list below `bound`, an entry equal to `bound - 1` is the last one. */
  lemma LargestIsLast(idx: seq<nat>, m: nat, bound: nat)
    requires Increasing(idx) && m < |idx| && idx[m] + 1 == bound
    requires forall k :: 0 <= k < |idx| ==> idx[k] < bound
    ensures m == |idx| - 1
  {
    IncreasingGap(idx, m);
  }

  /** Entries of an increasing list of naturals grow by at least one per step. */
  lemma {:induction false} IncreasingGap(idx: seq<nat>, a: nat)
    requires Increasing(idx) && a < |idx|
    ensures idx[|idx| - 1] >= idx[a] + (|idx| - 1 - a)
    decreases |idx| - a
  {
    if a < |idx| - 1 {
      IncreasingGap(idx, a + 1);
      assert idx[a] < idx[a + 1];
    }
  }

  /** Any description by positions pins the list down: it is `Select`. */
  lemma {:induction false} SelectedAtIsSelect<T>(r: seq<T>, s: seq<T>, keep: seq<bool>, idx: seq<nat>)
    requires |keep| == |s|
    requires SelectedAt(r, s, keep, idx)
    ensures r == Select(s, keep)
  {
    if s != [] {
      var n := |s| - 1;
      assert s[..n + 1] == s && keep[..n + 1] == keep;
      SelectSnoc(s, keep, n);
      var m := SelectedAtInit(r, s, keep, idx);
      SelectedAtIsSelect(r[..m], s[..n], keep[..n], idx[..m]);
    } else {
      FewerPositionsThanBound(idx, 0);
    }
  }

  /** An increasing list of naturals below `bound` has at most `bound` entries. */
  lemma FewerPositionsThanBound(idx: seq<nat>, bound: nat)
    requires Increasing(idx)
    requires forall k :: 0 <= k < |idx| ==> idx[k] < bound
    ensures |idx| <= bound
  {
    if idx != [] {
      IncreasingGap(idx, 0);
      assert idx[|idx| - 1] < bound;
    }
  }

  /**
    Dropping the last position of `s`: the first `m` entries of `idx`, all but
    a last kept position, describe the selection from `s` without its last element.
   */
  lemma SelectedAtInit<T>(r: seq<T>, s: seq<T>, keep: seq<bool>, idx: seq<nat>) returns (m: nat)
    requires |keep| == |s| && s != []
    requires SelectedAt(r, s, keep, idx)
    ensures m <= |r|
    ensures keep[|s| - 1] ==> r == r[..m] + [s[|s| - 1]]
    ensures !keep[|s| - 1] ==> r == r[..m]
    ensures SelectedAt(r[..m], s[..|s| - 1], keep[..|s| - 1], idx[..m])
  {
    var n := |s| - 1;
    if keep[n] {
      var p :| 0 <= p < |idx| && idx[p] == n;
      LargestIsLast(idx, p, |s|);
      m := p;
      assert r == r[..m] + [r[m]];
    } else {
      m := |idx|;
      forall k | 0 <= k < |idx|
        ensures idx[k] < n
      {
        assert idx[k] in idx;
      }
      assert r[..m] == r;
    }
    var idx' := idx[..m];
    forall i | 0 <= i < n
      ensures keep[..n][i] <==> i in idx'
    {
      if i in idx {
        var p :| 0 <= p < |idx| && idx[p] == i;
        assert p < m;
        assert idx'[p] == i;
      }
    }
  }

  /** `r` is the selection exactly when some increasing choice of the kept positions describes it. */
  lemma SelectCharacterized<T>(r: seq<T>, s: seq<T>, keep: seq<bool>)
    requires |keep| == |s|
    ensures r == Select(s, keep) <==> exists idx :: SelectedAt(r, s, keep, idx)
  {
    if r == Select(s, keep) {
      SelectAtKeptPositions(s, keep);
    }
    if idx :| SelectedAt(r, s, keep, idx) {
      SelectedAtIsSelect(r, s, keep, idx);
    }
  }

  /** An element is selected exactly when it sits at some kept position. */
  lemma SelectMembership<T>(s: seq<T>, keep: seq<bool>, x: T)
    requires |keep| == |s|
    ensures x in Select(s, keep) <==> exists i :: 0 <= i < |s| && keep[i] && s[i] == x
  {
    SelectAtKeptPositions(s, keep);
    var r, idx := Select(s, keep), KeptPositions(keep);
    if x in r {
      var k :| 0 <= k < |r| && r[k] == x;
      assert keep[idx[k]] by { assert idx[k] in idx; }
    }
    if i :| 0 <= i < |s| && keep[i] && s[i] == x {
      var k :| 0 <= k < |idx| && idx[k] == i;
      assert r[k] == x;
    }
  }

  /** Filtering a concatenation filters each half. */
  lemma {:induction false} SelectAppend<T>(s1: seq<T>, k1: seq<bool>, s2: seq<T>, k2: seq<bool>)
    requires |k1| == |s1| && |k2| == |s2|
    ensures Select(s1 + s2, k1 + k2) == Select(s1, k1) + Select(s2, k2)
  {
    if s2 == [] {
      assert s1 + s2 == s1;
      assert k1 + k2 == k1;
    } else {
      var n := |s2| - 1;
      var s, k := s1 + s2, k1 + k2;
      assert s[..|s| - 1] == s1 + s2[..n] && s[|s| - 1] == s2[n];
      assert k[..|k| - 1] == k1 + k2[..n] && k[|k| - 1] == k2[n];
      SelectAppend(s1, k1, s2[..n], k2[..n]);
    }
  }

  /** A loop that has decided the first `i` positions and now decides one more. */
  lemma SelectSnoc<T>(s: seq<T>, keep: seq<bool>, i: nat)
    requires |keep| == |s| && i < |s|
    ensures Select(s[..i + 1], keep[..i + 1]) == Select(s[..i], keep[..i]) + (if keep[i] then [s[i]] else [])
  {
    assert s[..i + 1][..i] == s[..i];
    assert keep[..i + 1][..i] == keep[..i];
  }
}
