/** The three point-selection steps of a sample: `random_sample`,
    `make_holes_pcd` and `resample_pcd`. Every random draw is a parameter:
    the shuffled permutation buffer, the index of the hole center, and the
    permutation and padding indices of a resample. */
module Sampling {
  import opened Wrappers
  import opened Indices
  import opened Geometry

  /** NumPy's fancy indexing `pc[idx]`, which raises when an index is past the end. */
  function Select(pc: Cloud, idx: seq<nat>): (r: Result<Cloud>)
    ensures r.Success? <==> InRange(idx, |pc|)
    ensures r.Failure? ==> r.error == IndexOutOfBounds
    ensures r.Success? ==> |r.value| == |idx| && forall k :: 0 <= k < |idx| ==> r.value[k] == pc[idx[k]]
  {
    if InRange(idx, |pc|) then Success(Gather(pc, idx)) else Failure(IndexOutOfBounds)
  }

  /** `random_sample(pc, num)`. The buffer `permutation` is shuffled in place
      (its new contents are `shuffled`), and the points at its first `num`
      entries are returned. The pair holds the new buffer and the result. */
  function RandomSample(permutation: seq<nat>, shuffled: seq<nat>, pc: Cloud, num: nat): (r: (seq<nat>, Result<Cloud>))
    requires multiset(shuffled) == multiset(permutation)
    ensures r.0 == shuffled
    ensures r.1.Success? <==> forall k :: 0 <= k < Min(num, |shuffled|) ==> shuffled[k] < |pc|
    ensures r.1.Failure? ==> r.1.error == IndexOutOfBounds
    ensures r.1.Success? ==> |r.1.value| == Min(num, |shuffled|)
    ensures r.1.Success? ==> forall k :: 0 <= k < Min(num, |shuffled|) ==> r.1.value[k] == pc[shuffled[k]]
  {
    (shuffled, Select(pc, Take(shuffled, num)))
  }

  /** What `random_sample` guarantees when the buffer is a permutation of
      `0..npoints-1`: the buffer stays one; the points come from distinct
      positions; a cloud of at least `npoints` points never makes it raise;
      and taking every position of a cloud of exactly `npoints` points only
      reorders the cloud. */
  lemma RandomSampleFacts(permutation: seq<nat>, shuffled: seq<nat>, pc: Cloud, num: nat, npoints: nat)
    requires IsPermutation(permutation, npoints)
    requires multiset(shuffled) == multiset(permutation)
    ensures IsPermutation(RandomSample(permutation, shuffled, pc, num).0, npoints)
    ensures Distinct(Take(shuffled, num)) && |Take(shuffled, num)| == Min(num, npoints)
    ensures npoints <= |pc| ==> RandomSample(permutation, shuffled, pc, num).1.Success?
    ensures npoints == |pc| <= num ==>
      multiset(RandomSample(permutation, shuffled, pc, num).1.value) == multiset(pc)
  {
    ShufflePreservesPermutation(permutation, shuffled, npoints);
    PermutationFacts(shuffled, npoints);
    var sel := Take(shuffled, num);
    forall i, j | 0 <= i < j < |sel| ensures sel[i] != sel[j] {
      assert sel[i] == shuffled[i] && sel[j] == shuffled[j];
    }
    if npoints == |pc| <= num {
      assert sel == shuffled;
      GatherPermutation(pc, shuffled);
    }
  }

  /** Positions, in increasing order, of the points of `pcd` that survive a
      hole around `center`; built front to back like the loop of
      `make_holes_pcd`. */
  function KeptIndices(pcd: Cloud, center: Point, holeSize: real): (idx: seq<nat>)
    ensures |idx| <= |pcd|
    ensures InRange(idx, |pcd|)
    ensures Increasing(idx)
    ensures forall i :: 0 <= i < |pcd| ==> (i in idx <==> FarEnough(pcd[i], center, holeSize))
  {
    Positions(pcd, p => FarEnough(p, center, holeSize))
  }

  /** The points of `pcd` at distance at least `holeSize` from `center`, in input order. */
  function Carve(pcd: Cloud, center: Point, holeSize: real): (r: Cloud)
    ensures |r| <= |pcd|
    ensures forall p :: p in r ==> p in pcd && FarEnough(p, center, holeSize)
    ensures forall i :: 0 <= i < |pcd| ==> (pcd[i] in r <==> FarEnough(pcd[i], center, holeSize))
    ensures forall p :: multiset(r)[p] == if FarEnough(p, center, holeSize) then multiset(pcd)[p] else 0
  {
    var idx := KeptIndices(pcd, center, holeSize);
    var r := Gather(pcd, idx);
    PositionsCounts(pcd, p => FarEnough(p, center, holeSize));
    assert forall i :: 0 <= i < |pcd| && i in idx ==> pcd[i] in r by {
      forall i | 0 <= i < |pcd| && i in idx ensures pcd[i] in r {
        var k :| 0 <= k < |idx| && idx[k] == i;
        assert r[k] == pcd[i];
      }
    }
    r
  }

  /** When no point lies inside the hole, carving returns the cloud unchanged. */
  lemma CarveKeepsAll(pcd: Cloud, center: Point, holeSize: real)
    requires forall i :: 0 <= i < |pcd| ==> FarEnough(pcd[i], center, holeSize)
    ensures Carve(pcd, center, holeSize) == pcd
  {
    PositionsAll(pcd, p => FarEnough(p, center, holeSize));
    assert Gather(pcd, Arange(|pcd|)) == pcd;
  }

  /** `r` is `s` with some entries removed and the rest kept in order. */
  ghost predicate IsSubsequence<T>(r: seq<T>, s: seq<T>) {
    exists idx: seq<nat> :: Increasing(idx) && InRange(idx, |s|) && r == Gather(s, idx)
  }

  /** A point that falls inside the hole makes the carved cloud strictly smaller. */
  lemma CarveDropsNear(pcd: Cloud, center: Point, holeSize: real, i: nat)
    requires i < |pcd| && !FarEnough(pcd[i], center, holeSize)
    ensures |Carve(pcd, center, holeSize)| < |pcd|
  {
    PositionsDropOne(pcd, p => FarEnough(p, center, holeSize), i);
  }

  /** `make_holes_pcd(pcd, hole_size)` with the center drawn as `pcd[center]`.
      An empty cloud has no center to draw, which raises. */
  function MakeHoles(pcd: Cloud, center: nat, holeSize: real): (r: Result<Cloud>)
    requires |pcd| > 0 ==> center < |pcd|
    ensures r.Failure? <==> |pcd| == 0
    ensures r.Failure? ==> r.error == EmptyCloud
    ensures r.Success? ==> |r.value| <= |pcd|
    ensures r.Success? ==> forall p :: p in r.value ==> p in pcd && FarEnough(p, pcd[center], holeSize)
    ensures r.Success? ==> forall i :: 0 <= i < |pcd| ==> (pcd[i] in r.value <==> FarEnough(pcd[i], pcd[center], holeSize))
    ensures r.Success? ==> forall p :: multiset(r.value)[p] == if FarEnough(p, pcd[center], holeSize) then multiset(pcd)[p] else 0
  {
    if |pcd| == 0 then Failure(EmptyCloud) else Success(Carve(pcd, pcd[center], holeSize))
  }

  /** The carved cloud keeps the surviving points in input order; a
      positive hole size removes at least the center, so the result is
      strictly smaller than the input, and a hole size of zero or less
      returns the cloud unchanged. */
  lemma MakeHolesShape(pcd: Cloud, center: nat, holeSize: real)
    requires center < |pcd|
    ensures IsSubsequence(MakeHoles(pcd, center, holeSize).value, pcd)
    ensures holeSize > 0.0 ==> |MakeHoles(pcd, center, holeSize).value| < |pcd|
    ensures holeSize <= 0.0 ==> MakeHoles(pcd, center, holeSize).value == pcd
  {
    var idx := KeptIndices(pcd, pcd[center], holeSize);
    assert MakeHoles(pcd, center, holeSize).value == Gather(pcd, idx);
    if holeSize <= 0.0 {
      CarveKeepsAll(pcd, pcd[center], holeSize);
    }
    if holeSize > 0.0 {
      CenterIsNear(pcd[center], holeSize);
      CarveDropsNear(pcd, pcd[center], holeSize, center);
    }
  }

  /** The index list `resample_pcd` uses: the permutation, padded with the
      extra draws when it is shorter than `n`, then cut to its first `n` entries. */
  function ResampleIndices(n: nat, perm: seq<nat>, pad: seq<nat>): seq<nat> {
    Take(if |perm| < n then perm + pad else perm, n)
  }

  /** The random draws of one `resample_pcd` call on a cloud of `m` points:
      a permutation of its positions and, when the cloud is short, `n - m`
      positions drawn with replacement. */
  predicate ResampleDraws(m: nat, n: nat, perm: seq<nat>, pad: seq<nat>) {
    && IsPermutation(perm, m)
    && (0 < m < n ==> |pad| == n - m && InRange(pad, m))
  }

  /** The index list of a resample: exactly `n` valid positions; without
      repeats (a prefix of the permutation) when the cloud has at least `n`
      points; otherwise the whole permutation followed by the padding, so
      that every position occurs. */
  lemma ResampleIndexFacts(m: nat, n: nat, perm: seq<nat>, pad: seq<nat>)
    requires ResampleDraws(m, n, perm, pad)
    requires 0 < m || n == 0
    ensures |ResampleIndices(n, perm, pad)| == n
    ensures InRange(ResampleIndices(n, perm, pad), m)
    ensures n <= m ==> Distinct(ResampleIndices(n, perm, pad))
    ensures m < n ==> ResampleIndices(n, perm, pad)[..m] == perm
    ensures m < n ==> forall v :: 0 <= v < m ==> v in ResampleIndices(n, perm, pad)
  {
    PermutationFacts(perm, m);
    var idx := ResampleIndices(n, perm, pad);
    if n <= m {
      assert idx == perm[..n];
      forall i, j | 0 <= i < j < |idx| ensures idx[i] != idx[j] {
        assert idx[i] == perm[i] && idx[j] == perm[j];
      }
    } else {
      assert idx == perm + pad;
      assert idx[..m] == perm;
      forall v | 0 <= v < m ensures v in idx {
        assert v in perm;
        var i :| 0 <= i < |perm| && perm[i] == v;
        assert idx[i] == v;
      }
    }
  }

  /** `resample_pcd(pcd, n)` with its random permutation and padding draws.
      An empty cloud with `n > 0` leaves nothing to draw padding from, which
      raises; otherwise the result has exactly `n` points, all from `pcd`. */
  function Resample(pcd: Cloud, n: nat, perm: seq<nat>, pad: seq<nat>): (r: Result<Cloud>)
    requires ResampleDraws(|pcd|, n, perm, pad)
    ensures r.Failure? <==> |pcd| == 0 < n
    ensures r.Failure? ==> r.error == EmptyCloud
    ensures r.Success? ==> |r.value| == n
    ensures r.Success? ==> forall p :: p in r.value ==> p in pcd
  {
    if |pcd| == 0 && 0 < n then Failure(EmptyCloud)
    else
      ResampleIndexFacts(|pcd|, n, perm, pad);
      var r := Gather(pcd, ResampleIndices(n, perm, pad));
      assert forall k :: 0 <= k < |r| ==> r[k] in pcd;
      Success(r)
  }

  /** The points a resample returns: when the cloud has at least `n` points,
      a sub-multiset of it (a reordering when it has exactly `n`); when it has
      fewer, every input point occurs and the first `|pcd|` outputs are a
      reordering of the input. */
  lemma ResamplePoints(pcd: Cloud, n: nat, perm: seq<nat>, pad: seq<nat>)
    requires ResampleDraws(|pcd|, n, perm, pad)
    requires 0 < |pcd| || n == 0
    ensures n <= |pcd| ==> multiset(Resample(pcd, n, perm, pad).value) <= multiset(pcd)
    ensures |pcd| == n ==> multiset(Resample(pcd, n, perm, pad).value) == multiset(pcd)
    ensures |pcd| < n ==> multiset(Resample(pcd, n, perm, pad).value[..|pcd|]) == multiset(pcd)
    ensures |pcd| < n ==> forall i :: 0 <= i < |pcd| ==> pcd[i] in Resample(pcd, n, perm, pad).value
  {
    ResampleIndexFacts(|pcd|, n, perm, pad);
    var idx := ResampleIndices(n, perm, pad);
    var r := Resample(pcd, n, perm, pad).value;
    assert r == Gather(pcd, idx);
    if n <= |pcd| {
      PermutationFacts(perm, |pcd|);
      var all := Gather(pcd, perm);
      assert r == all[..n];
      assert all == all[..n] + all[n..];
      GatherPermutation(pcd, perm);
    } else if |pcd| < n {
      PermutationFacts(perm, |pcd|);
      assert r[..|pcd|] == Gather(pcd, perm);
      GatherPermutation(pcd, perm);
      forall i | 0 <= i < |pcd| ensures pcd[i] in r {
        assert pcd[i] in multiset(r[..|pcd|]);
        assert pcd[i] in r[..|pcd|];
      }
    }
  }
}
