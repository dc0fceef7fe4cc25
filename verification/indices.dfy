/** Index sequences: NumPy's `arange`, permutations of `0..k-1`, and fancy
    indexing `a[idx]`. */
module Indices {

  /** NumPy's `arange(k)`: 0, 1, ..., k - 1. */
  function Arange(k: nat): (r: seq<nat>)
    ensures |r| == k
    ensures forall i :: 0 <= i < k ==> r[i] == i
  {
    seq(k, i requires 0 <= i => i as nat)
  }

  /** Every entry of `s` is a valid index into a sequence of length `k`. */
  predicate InRange(s: seq<nat>, k: nat) {
    forall i :: 0 <= i < |s| ==> s[i] < k
  }

  /** No entry of `s` occurs twice. */
  predicate Distinct(s: seq<nat>) {
    forall i, j :: 0 <= i < j < |s| ==> s[i] != s[j]
  }

  /** `p` holds each of 0, 1, ..., k - 1 exactly once: a rearrangement of
      `arange(k)`, as NumPy's `permutation(k)` or a `shuffle` of it yields. */
  predicate IsPermutation(p: seq<nat>, k: nat) {
    multiset(p) == multiset(Arange(k))
  }

  /** Entries of `s` strictly increase: `s` lists positions in order. */
  predicate Increasing(s: seq<nat>) {
    forall i, j :: 0 <= i < j < |s| ==> s[i] < s[j]
  }

  function Min(a: nat, b: nat): nat {
    if a <= b then a else b
  }

  /** `a[:n]` for a non-negative stop: the first `n` entries, or all of them. */
  function Take<T>(a: seq<T>, n: nat): (r: seq<T>)
    ensures |r| == Min(n, |a|)
    ensures r <= a
  {
    if n <= |a| then a[..n] else a
  }

  /** NumPy's fancy indexing `a[idx]` with in-range indices. */
  function Gather<T>(a: seq<T>, idx: seq<nat>): (r: seq<T>)
    requires InRange(idx, |a|)
    ensures |r| == |idx|
    ensures forall k :: 0 <= k < |idx| ==> r[k] == a[idx[k]]
  {
    seq(|idx|, k requires 0 <= k < |idx| => a[idx[k]])
  }

  /** A sequence is duplicate-free exactly when every value occurs at most once
      in its multiset. */
  lemma {:induction false} DistinctMultiplicity(s: seq<nat>)
    ensures Distinct(s) <==> forall x :: multiset(s)[x] <= 1
  {
    if |s| > 0 {
      var a, t := s[0], s[1..];
      assert s == [a] + t;
      DistinctMultiplicity(t);
      if Distinct(s) {
        assert Distinct(t) by {
          forall i, j | 0 <= i < j < |t| ensures t[i] != t[j] {
            assert t[i] == s[i + 1] && t[j] == s[j + 1];
          }
        }
        assert a !in t by {
          forall i | 0 <= i < |t| ensures t[i] != a {
            assert t[i] == s[i + 1];
          }
        }
        forall x ensures multiset(s)[x] <= 1 {
          assert multiset(s)[x] == multiset([a])[x] + multiset(t)[x];
        }
      } else {
        var i, j :| 0 <= i < j < |s| && s[i] == s[j];
        if i == 0 {
          assert s[j] == t[j - 1];
          assert multiset(s)[a] == 1 + multiset(t)[a];
          assert multiset(t)[a] >= 1;
        } else {
          assert s[i] == t[i - 1] && s[j] == t[j - 1];
          assert !Distinct(t);
          var x :| multiset(t)[x] > 1;
          assert multiset(s)[x] >= multiset(t)[x];
        }
      }
    }
  }

  /** What being a permutation of `0..k-1` gives: length `k`, only valid
      indices, no index twice, and every index at least once. */
  lemma PermutationFacts(p: seq<nat>, k: nat)
    requires IsPermutation(p, k)
    ensures |p| == k
    ensures InRange(p, k)
    ensures Distinct(p)
    ensures forall v :: 0 <= v < k ==> v in p
  {
    var a := Arange(k);
    assert |p| == |multiset(p)| == |multiset(a)| == k;
    forall i | 0 <= i < |p| ensures p[i] < k {
      assert p[i] in multiset(p);
      assert p[i] in a;
    }
    DistinctMultiplicity(a);
    DistinctMultiplicity(p);
    forall v | 0 <= v < k ensures v in p {
      assert a[v] == v;
      assert v in multiset(a);
    }
  }

  /** `arange(k)` is a permutation of `0..k-1`, and so is every shuffle of a
      permutation of `0..k-1`. */
  lemma ShufflePreservesPermutation(p: seq<nat>, q: seq<nat>, k: nat)
    requires IsPermutation(p, k)
    requires multiset(q) == multiset(p)
    ensures IsPermutation(Arange(k), k)
    ensures IsPermutation(q, k)
  {
  }

  lemma GatherAppend<T>(a: seq<T>, u: seq<nat>, v: seq<nat>)
    requires InRange(u, |a|) && InRange(v, |a|)
    ensures InRange(u + v, |a|)
    ensures Gather(a, u + v) == Gather(a, u) + Gather(a, v)
  {
    assert InRange(u + v, |a|) by {
      forall i | 0 <= i < |u + v| ensures (u + v)[i] < |a| {
        if i >= |u| {
          assert (u + v)[i] == v[i - |u|];
        }
      }
    }
  }

  /** Removing a matching entry from two rearrangements of the same list
      leaves rearrangements of each other. */
  lemma RemoveMatching(s: seq<nat>, t: seq<nat>, j: nat)
    requires multiset(s) == multiset(t)
    requires |s| > 0 && j < |t| && t[j] == s[0]
    ensures multiset(s[1..]) == multiset(t[..j] + t[j + 1..])
  {
    var x := s[0];
    assert s == [x] + s[1..];
    assert t == t[..j] + [x] + t[j + 1..];
    assert multiset(s) == multiset{x} + multiset(s[1..]);
    assert multiset(t) == multiset(t[..j]) + multiset{x} + multiset(t[j + 1..]);
    assert multiset(t[..j] + t[j + 1..]) == multiset(t[..j]) + multiset(t[j + 1..]);
    forall y ensures multiset(s[1..])[y] == multiset(t[..j] + t[j + 1..])[y] {
      assert multiset(s)[y] == multiset{x}[y] + multiset(s[1..])[y];
      assert multiset(t)[y] == multiset(t[..j])[y] + multiset{x}[y] + multiset(t[j + 1..])[y];
    }
  }

  /** Gathering by two rearrangements of the same index list yields
      rearrangements of the same points. */
  lemma {:induction false} GatherRespectsMultiset<T>(a: seq<T>, s: seq<nat>, t: seq<nat>)
    requires InRange(s, |a|) && InRange(t, |a|)
    requires multiset(s) == multiset(t)
    ensures multiset(Gather(a, s)) == multiset(Gather(a, t))
    decreases |s|
  {
    if |s| == 0 {
      assert |t| == |multiset(t)| == 0;
    } else {
      var x := s[0];
      assert x in multiset(t);
      var j :| 0 <= j < |t| && t[j] == x;
      RemoveMatching(s, t, j);
      GatherSplit(a, s, t, j);
      GatherRespectsMultiset(a, s[1..], t[..j] + t[j + 1..]);
    }
  }

  /** The step of `GatherRespectsMultiset`: gathering splits around the
      matched entry. */
  lemma GatherSplit<T>(a: seq<T>, s: seq<nat>, t: seq<nat>, j: nat)
    requires InRange(s, |a|) && InRange(t, |a|)
    requires |s| > 0 && j < |t| && t[j] == s[0]
    ensures InRange(s[1..], |a|) && InRange(t[..j] + t[j + 1..], |a|)
    ensures multiset(Gather(a, s)) == multiset{a[s[0]]} + multiset(Gather(a, s[1..]))
    ensures multiset(Gather(a, t)) == multiset{a[s[0]]} + multiset(Gather(a, t[..j] + t[j + 1..]))
  {
    var x := s[0];
    var t1, t2 := t[..j], t[j + 1..];
    assert InRange(t1, |a|) && InRange(t2, |a|) by {
      forall i | 0 <= i < |t1| ensures t1[i] < |a| { assert t1[i] == t[i]; }
      forall i | 0 <= i < |t2| ensures t2[i] < |a| { assert t2[i] == t[j + 1 + i]; }
    }
    assert InRange(s[1..], |a|) by {
      forall i | 0 <= i < |s[1..]| ensures s[1..][i] < |a| { assert s[1..][i] == s[i + 1]; }
    }
    assert s == [x] + s[1..];
    GatherAppend(a, [x], s[1..]);
    assert t == t1 + [x] + t2;
    GatherAppend(a, t1, [x]);
    GatherAppend(a, t1 + [x], t2);
    GatherAppend(a, t1, t2);
  }

  /** Gathering by a permutation of all indices rearranges the whole sequence. */
  lemma GatherPermutation<T>(a: seq<T>, p: seq<nat>)
    requires IsPermutation(p, |a|)
    ensures InRange(p, |a|)
    ensures multiset(Gather(a, p)) == multiset(a)
  {
    PermutationFacts(p, |a|);
    var id := Arange(|a|);
    assert Gather(a, id) == a;
    GatherRespectsMultiset(a, p, id);
  }

  /** Positions, in increasing order, of the entries of `s` that satisfy
      `keep`; built front to back, appending the last position when it passes. */
  function Positions<T>(s: seq<T>, keep: T -> bool): (idx: seq<nat>)
    ensures |idx| <= |s|
    ensures InRange(idx, |s|)
    ensures Increasing(idx)
    ensures forall i :: 0 <= i < |s| ==> (i in idx <==> keep(s[i]))
  {
    if |s| == 0 then []
    else
      var last := |s| - 1;
      var rest := Positions(s[..last], keep);
      if keep(s[last]) then rest + [last] else rest
  }

  /** Filtering by position keeps every occurrence of a passing entry and no
      occurrence of a failing one. */
  lemma {:induction false} PositionsCounts<T>(s: seq<T>, keep: T -> bool)
    ensures forall x :: multiset(Gather(s, Positions(s, keep)))[x] == if keep(x) then multiset(s)[x] else 0
    decreases |s|
  {
    if |s| > 0 {
      var last := |s| - 1;
      var init := s[..last];
      var q := s[last];
      var rest := Positions(init, keep);
      var g := Gather(s, Positions(s, keep));
      var h := Gather(init, rest);
      PositionsCounts(init, keep);
      GatherPrefix(s, last, rest);
      assert s == init + [q];
      assert multiset(s) == multiset(init) + multiset{q};
      if keep(q) {
        GatherAppend(s, rest, [last]);
        assert g == h + [q];
        assert multiset(g) == multiset(h) + multiset{q};
      } else {
        assert g == h;
      }
      forall x ensures multiset(g)[x] == if keep(x) then multiset(s)[x] else 0 {
        if x != q {
          assert multiset(s)[x] == multiset(init)[x];
        }
      }
    }
  }

  /** Gathering from a prefix that holds every index gives the same result. */
  lemma GatherPrefix<T>(a: seq<T>, n: nat, idx: seq<nat>)
    requires n <= |a| && InRange(idx, n)
    ensures Gather(a[..n], idx) == Gather(a, idx)
  {
    var l := Gather(a[..n], idx);
    var r := Gather(a, idx);
    forall k | 0 <= k < |idx| ensures l[k] == r[k] {
      assert a[..n][idx[k]] == a[idx[k]];
    }
  }

  /** When every entry passes, the positions are all of them. */
  lemma {:induction false} PositionsAll<T>(s: seq<T>, keep: T -> bool)
    requires forall i :: 0 <= i < |s| ==> keep(s[i])
    ensures Positions(s, keep) == Arange(|s|)
    decreases |s|
  {
    if |s| > 0 {
      var last := |s| - 1;
      assert forall i :: 0 <= i < last ==> s[..last][i] == s[i];
      PositionsAll(s[..last], keep);
    }
  }

  /** One failing entry makes the position list strictly shorter than `s`. */
  lemma {:induction false} PositionsDropOne<T>(s: seq<T>, keep: T -> bool, i: nat)
    requires i < |s| && !keep(s[i])
    ensures |Positions(s, keep)| < |s|
    decreases |s|
  {
    var last := |s| - 1;
    if i < last {
      assert s[..last][i] == s[i];
      PositionsDropOne(s[..last], keep, i);
    }
  }
}
