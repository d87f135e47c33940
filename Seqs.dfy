/** Sequence operations with the meaning of the Python list idioms used by app.py. */
module Seqs {

  predicate NoDup<T(==)>(s: seq<T>) {
    forall i, j :: 0 <= i < j < |s| ==> s[i] != s[j]
  }

  /** list(dict.fromkeys(s)): each element once, at its first occurrence. */
  function Distinct<T(==)>(s: seq<T>): seq<T> {
    if s == [] then []
    else
      var d := Distinct(s[..|s| - 1]);
      if s[|s| - 1] in d then d else d + [s[|s| - 1]]
  }

  /** The position of the first occurrence of x in s. */
  function FirstIndex<T(==)>(s: seq<T>, x: T): (k: nat)
    requires x in s
    ensures k < |s| && s[k] == x
    ensures forall i :: 0 <= i < k ==> s[i] != x
  {
    var p := s[..|s| - 1];
    if x in p then FirstIndex(p, x) else |s| - 1
  }

  /** Deduplication keeps exactly the elements of s, once each. */
  lemma {:induction false} DistinctElements<T>(s: seq<T>)
    ensures NoDup(Distinct(s))
    ensures forall x :: x in Distinct(s) <==> x in s
  {
    if s != [] {
      var p := s[..|s| - 1];
      DistinctElements(p);
      assert s == p + [s[|s| - 1]];
    }
  }

  /** Deduplication keeps elements in the order of their first occurrence:
      of two deduplicated elements, the earlier one occurs first in s. */
  lemma {:induction false} DistinctFirstSeen<T>(s: seq<T>, i: nat, j: nat)
    requires i < j < |Distinct(s)|
    ensures Distinct(s)[i] in s && Distinct(s)[j] in s
    ensures FirstIndex(s, Distinct(s)[i]) < FirstIndex(s, Distinct(s)[j])
  {
    var p := s[..|s| - 1];
    var y := s[|s| - 1];
    var dp := Distinct(p);
    DistinctElements(p);
    assert s == p + [y];
    if y in dp {
      assert Distinct(s) == dp;
      DistinctFirstSeen(p, i, j);
      assert dp[i] in dp && dp[j] in dp;
    } else {
      assert Distinct(s) == dp + [y];
      assert dp[i] in dp;
      if j < |dp| {
        DistinctFirstSeen(p, i, j);
        assert dp[j] in dp;
      } else {
        assert FirstIndex(p, dp[i]) < |p|;
      }
    }
  }

  /** A window of the deduplicated list keeps the first-seen order. */
  lemma SliceFirstSeen<T>(s: seq<T>, lo: nat, hi: nat, i: nat, j: nat)
    requires i < j < |Slice(Distinct(s), lo, hi)|
    ensures Slice(Distinct(s), lo, hi)[i] in s && Slice(Distinct(s), lo, hi)[j] in s
    ensures FirstIndex(s, Slice(Distinct(s), lo, hi)[i]) < FirstIndex(s, Slice(Distinct(s), lo, hi)[j])
  {
    DistinctFirstSeen(s, lo + i, lo + j);
  }

  /** Deduplicating a longer list extends the deduplication of its prefix. */
  lemma {:induction false} DistinctPrefix<T>(a: seq<T>, b: seq<T>)
    requires a <= b
    ensures Distinct(a) <= Distinct(b)
    decreases |b|
  {
    if |a| < |b| {
      var p := b[..|b| - 1];
      assert a <= p;
      DistinctPrefix(a, p);
    } else {
      assert a == b;
    }
  }

  /** s[:n]: the first n elements, or all of s when it is shorter. */
  function Take<T>(s: seq<T>, n: nat): (r: seq<T>)
    ensures r <= s
    ensures |r| == if n <= |s| then n else |s|
  {
    if n <= |s| then s[..n] else s
  }

  /** s[lo:hi] for non-negative bounds, clamped to the sequence as Python does. */
  function Slice<T>(s: seq<T>, lo: nat, hi: nat): (r: seq<T>)
    ensures |r| == if lo < hi && lo < |s| then (if hi <= |s| then hi else |s|) - lo else 0
    ensures r != [] ==> lo + |r| <= |s| && r == s[lo..lo + |r|]
  {
    if lo >= |s| || hi <= lo then [] else s[lo..if hi <= |s| then hi else |s|]
  }

  lemma SeqAssoc<T>(x: seq<T>, y: seq<T>, z: seq<T>)
    ensures (x + y) + z == x + (y + z)
  {
  }

  lemma SplitAt<T>(s: seq<T>, k: nat)
    requires k <= |s|
    ensures s[..k] + s[k..] == s
  {
  }

  lemma SplitLast<T>(s: seq<T>)
    requires s != []
    ensures s[..|s| - 1] + [s[|s| - 1]] == s
  {
  }

  lemma SliceNoDup<T>(s: seq<T>, lo: nat, hi: nat)
    requires NoDup(s)
    ensures NoDup(Slice(s, lo, hi))
  {
  }

  /** d is empty or the run of u starting at position o. */
  ghost predicate RunAt<T>(d: seq<T>, u: seq<T>, o: nat) {
    d != [] ==> o + |d| <= |u| && d == u[o..o + |d|]
  }

  /** A run of a prefix is the same run of the longer sequence. */
  lemma RunAtPrefix<T>(d: seq<T>, t: seq<T>, u: seq<T>, o: nat)
    requires RunAt(d, t, o) && t <= u
    ensures RunAt(d, u, o)
  {
    if d != [] {
      assert u[o..o + |d|] == t[o..o + |d|];
    }
  }

  /** d2 carries on from d1 with its first e elements used up: none of
      those is in d2, and the rest of d1 and d2 agree as far as both go. */
  ghost predicate CarriesOn<T>(d1: seq<T>, e: nat, d2: seq<T>) {
    e <= |d1|
    && (forall x :: x in d1[..e] ==> x !in d2)
    && (d1[e..] <= d2 || d2 <= d1[e..])
  }

  /** Two runs of a duplicate-free sequence, the second starting e places
      after the first: the first e elements of the first run are not in the
      second, and the rest of the first run and the second run agree as far
      as both go. */
  lemma RunsFollow<T>(u: seq<T>, d1: seq<T>, o: nat, e: nat, d2: seq<T>)
    requires NoDup(u) && e <= |d1|
    requires RunAt(d1, u, o) && RunAt(d2, u, o + e)
    ensures CarriesOn(d1, e, d2)
  {
    forall x | x in d1[..e] ensures x !in d2 {
      var i :| 0 <= i < e && d1[i] == x;
      forall j | 0 <= j < |d2| ensures d2[j] != x {
        assert d1[i] == u[o + i] && d2[j] == u[o + e + j];
      }
    }
    if d1 != [] && d2 != [] {
      assert d1[e..] == u[o + e..o + |d1|];
    }
  }
}
