/** The `ShapeNet55Dataset` class: construction from the split file,
    `__len__`, and the per-sample pipeline of `__getitem__`. */
module ShapeNet55 {
  import opened Wrappers
  import opened Text
  import opened Manifest
  import opened Indices
  import opened Geometry
  import opened Sampling

  /** The state of a dataset object. */
  datatype Dataset = Dataset(
    fileList: seq<Record>,    // `file_list`, one record per manifest line
    npoints: nat,             // the constructor's `npoints`: length of the permutation buffer
    samplePointsNum: nat,     // `config.npoints`: points per returned cloud
    holeSize: real,           // `config.dataset.hole_size`
    permutation: seq<nat>)    // the reusable index buffer shuffled by every sample

  /** The invariant the object keeps: the buffer is a permutation of `0..npoints-1`. */
  predicate Valid(ds: Dataset) {
    IsPermutation(ds.permutation, ds.npoints)
  }

  /** `__len__`. */
  function Length(ds: Dataset): nat {
    |ds.fileList|
  }

  /** The constructor, given the lines of the split file: parse every line
      and start the buffer as `arange(npoints)`. */
  function New(lines: seq<string>, npoints: nat, samplePointsNum: nat, holeSize: real): (r: Result<Dataset>)
    ensures r.Success? <==> forall k :: 0 <= k < |lines| ==> '-' in Strip(lines[k])
    ensures r.Failure? ==> r.error == MissingDash
    ensures r.Success? ==> Valid(r.value) && Length(r.value) == |lines|
    ensures r.Success? ==> forall k :: 0 <= k < |lines| ==> ParseLine(lines[k]) == Success(r.value.fileList[k])
    ensures r.Success? ==> r.value.npoints == npoints && r.value.samplePointsNum == samplePointsNum && r.value.holeSize == holeSize
  {
    var records :- ParseManifest(lines);
    Success(Dataset(records, npoints, samplePointsNum, holeSize, Arange(npoints)))
  }

  /** `i` selects an entry of a list of `n` entries under Python's indexing
      rules, where a negative index counts from the end. */
  predicate IndexOk(n: nat, i: int) {
    -(n as int) <= i < n
  }

  /** Python's `s[i]` on a list. */
  function ListIndex<T>(s: seq<T>, i: int): (r: Result<T>)
    ensures r.Success? <==> IndexOk(|s|, i)
    ensures r.Failure? ==> r.error == IndexOutOfBounds
    ensures r.Success? ==> r.value == s[if i < 0 then |s| + i else i]
  {
    if 0 <= i < |s| then Success(s[i])
    else if IndexOk(|s|, i) then Success(s[|s| + i])
    else Failure(IndexOutOfBounds)
  }

  /** The random draws for one holed variant: the hole center's index, then
      the permutation and padding of the resample. */
  datatype HoleDraw = HoleDraw(center: nat, perm: seq<nat>, pad: seq<nat>)

  /** All random draws of one `__getitem__`: the shuffled buffer and one
      `HoleDraw` per variant. */
  datatype Draws = Draws(shuffled: seq<nat>, hole1: HoleDraw, hole2: HoleDraw)

  /** The tuple `__getitem__` returns. */
  datatype Item = Item(taxonomyId: string, modelId: string, partial1: Cloud, partial2: Cloud, full: Cloud)

  /** The draws of one variant fit the base cloud: the center indexes it, and
      the resample draws fit the cloud the hole leaves. */
  predicate HoleDrawFits(base: Cloud, holeSize: real, n: nat, h: HoleDraw) {
    |base| > 0 ==>
      && h.center < |base|
      && ResampleDraws(|Carve(base, base[h.center], holeSize)|, n, h.perm, h.pad)
  }

  /** `resample_pcd(make_holes_pcd(data, hole_size), n)`: one holed variant.
      It fails exactly when the hole leaves no point to resample from. */
  function HoledVariant(base: Cloud, holeSize: real, n: nat, h: HoleDraw): (r: Result<Cloud>)
    requires HoleDrawFits(base, holeSize, n, h)
    ensures r.Failure? <==> |base| == 0 || (0 < n && forall i :: 0 <= i < |base| ==> !FarEnough(base[i], base[h.center], holeSize))
    ensures r.Failure? ==> r.error == EmptyCloud
    ensures r.Success? ==> |r.value| == n
    ensures r.Success? ==> forall p :: p in r.value ==> p in base && FarEnough(p, base[h.center], holeSize)
  {
    var carved :- MakeHoles(base, h.center, holeSize);
    var c := base[h.center];
    assert |carved| == 0 <==> forall i :: 0 <= i < |base| ==> !FarEnough(base[i], c, holeSize) by {
      if |carved| > 0 {
        assert carved[0] in carved;
      }
    }
    Resample(carved, n, h.perm, h.pad)
  }

  /** Lines 83-84 of `__getitem__`: subsample the raw cloud with the shuffled
      buffer, then normalise. The normalisation raises on an empty cloud. */
  function SampleBase(ds: Dataset, raw: Cloud, normalize: Cloud -> Cloud, shuffled: seq<nat>): (r: Result<Cloud>)
    requires multiset(shuffled) == multiset(ds.permutation)
    requires forall c: Cloud :: |normalize(c)| == |c|
    ensures r.Success? <==> InRange(Take(shuffled, ds.samplePointsNum), |raw|) && 0 < Min(ds.samplePointsNum, |shuffled|)
    ensures r.Success? ==> |r.value| == Min(ds.samplePointsNum, |shuffled|)
    ensures r.Success? ==> r.value == normalize(Gather(raw, Take(shuffled, ds.samplePointsNum)))
  {
    var data :- RandomSample(ds.permutation, shuffled, raw, ds.samplePointsNum).1;
    if |data| == 0 then Failure(EmptyCloud) else Success(normalize(data))
  }

  /** Lines 86-87 of `__getitem__`: two holed variants of the same base,
      the first computed before the second, each with its own draws. */
  function Variants(base: Cloud, holeSize: real, n: nat, h1: HoleDraw, h2: HoleDraw): (r: Result<(Cloud, Cloud)>)
    requires HoleDrawFits(base, holeSize, n, h1) && HoleDrawFits(base, holeSize, n, h2)
    ensures r.Success? <==> HoledVariant(base, holeSize, n, h1).Success? && HoledVariant(base, holeSize, n, h2).Success?
    ensures r.Success? ==> |r.value.0| == n && |r.value.1| == n
    ensures r.Success? ==> h1.center < |base| && h2.center < |base|
    ensures r.Success? ==> forall p :: p in r.value.0 ==> p in base && FarEnough(p, base[h1.center], holeSize)
    ensures r.Success? ==> forall p :: p in r.value.1 ==> p in base && FarEnough(p, base[h2.center], holeSize)
  {
    var v1 :- HoledVariant(base, holeSize, n, h1);
    var v2 :- HoledVariant(base, holeSize, n, h2);
    Success((v1, v2))
  }

  /** The draws of one `__getitem__` are well formed: the buffer is shuffled,
      the normaliser keeps the point count, and each variant's draws fit. */
  ghost predicate DrawsFit(ds: Dataset, raw: Cloud, normalize: Cloud -> Cloud, d: Draws) {
    && multiset(d.shuffled) == multiset(ds.permutation)
    && (forall c: Cloud :: |normalize(c)| == |c|)
    && var base := SampleBase(ds, raw, normalize, d.shuffled);
       base.Success? ==>
         HoleDrawFits(base.value, ds.holeSize, ds.samplePointsNum, d.hole1) &&
         HoleDrawFits(base.value, ds.holeSize, ds.samplePointsNum, d.hole2)
  }

  /** Lines 81-91 of `__getitem__` for the record `rec`: the base and the
      two holed variants, with the ids of the record. */
  function SampleItem(ds: Dataset, rec: Record, raw: Cloud, normalize: Cloud -> Cloud, d: Draws): (r: Result<Item>)
    requires DrawsFit(ds, raw, normalize, d)
    ensures r.Success? ==>
      var item := r.value;
      && item.taxonomyId == rec.taxonomyId && item.modelId == rec.modelId
      && |item.full| == Min(ds.samplePointsNum, |d.shuffled|)
      && |item.partial1| == ds.samplePointsNum && |item.partial2| == ds.samplePointsNum
      && d.hole1.center < |item.full| && d.hole2.center < |item.full|
      && (forall p :: p in item.partial1 ==> p in item.full && FarEnough(p, item.full[d.hole1.center], ds.holeSize))
      && (forall p :: p in item.partial2 ==> p in item.full && FarEnough(p, item.full[d.hole2.center], ds.holeSize))
  {
    var base :- SampleBase(ds, raw, normalize, d.shuffled);
    var vs :- Variants(base, ds.holeSize, ds.samplePointsNum, d.hole1, d.hole2);
    Success(Item(rec.taxonomyId, rec.modelId, vs.0, vs.1, base))
  }

  /** `__getitem__(idx)` with the raw cloud the reader returns, the
      normalisation, and the random draws as parameters. The pair holds the
      object's new state (the buffer is shuffled once the index is valid) and
      the result. Both variants are carved and resampled from the same
      normalised base, each with its own draws. */
  function GetItem(ds: Dataset, idx: int, raw: Cloud, normalize: Cloud -> Cloud, d: Draws): (r: (Dataset, Result<Item>))
    requires DrawsFit(ds, raw, normalize, d)
    ensures r.0 == if IndexOk(Length(ds), idx) then ds.(permutation := d.shuffled) else ds
    ensures Valid(ds) ==> Valid(r.0)
    ensures !(IndexOk(Length(ds), idx)) ==> r.1 == Failure(IndexOutOfBounds)
    ensures r.1.Success? ==>
      var item := r.1.value;
      var rec := ds.fileList[if idx < 0 then idx + Length(ds) else idx];
      && item.taxonomyId == rec.taxonomyId && item.modelId == rec.modelId
      && |item.full| == Min(ds.samplePointsNum, |d.shuffled|)
      && |item.partial1| == ds.samplePointsNum && |item.partial2| == ds.samplePointsNum
      && d.hole1.center < |item.full| && d.hole2.center < |item.full|
      && (forall p :: p in item.partial1 ==> p in item.full && FarEnough(p, item.full[d.hole1.center], ds.holeSize))
      && (forall p :: p in item.partial2 ==> p in item.full && FarEnough(p, item.full[d.hole2.center], ds.holeSize))
  {
    var rec := ListIndex(ds.fileList, idx);
    if rec.Failure? then (ds, Failure(rec.error))
    else (ds.(permutation := d.shuffled), SampleItem(ds, rec.value, raw, normalize, d))
  }

  /** Some point of `base` lies outside the hole around `c`. */
  predicate LeavesPoint(base: Cloud, c: Point, holeSize: real) {
    exists i :: 0 <= i < |base| && FarEnough(base[i], c, holeSize)
  }

  /** For a valid index, a valid object and a raw cloud with at least
      `npoints` points (and both counts positive), the subsample and the
      normalisation succeed with `min(sample_points_num, npoints)` points, and
      `__getitem__` succeeds exactly when neither hole swallows the whole base. */
  lemma GetItemSucceeds(ds: Dataset, idx: int, raw: Cloud, normalize: Cloud -> Cloud, d: Draws)
    requires DrawsFit(ds, raw, normalize, d)
    requires Valid(ds) && IndexOk(Length(ds), idx)
    requires 0 < ds.samplePointsNum && 0 < ds.npoints <= |raw|
    ensures SampleBase(ds, raw, normalize, d.shuffled).Success?
    ensures var base := SampleBase(ds, raw, normalize, d.shuffled).value;
      && |base| == Min(ds.samplePointsNum, ds.npoints)
      && d.hole1.center < |base| && d.hole2.center < |base|
      && (GetItem(ds, idx, raw, normalize, d).1.Success? <==>
            LeavesPoint(base, base[d.hole1.center], ds.holeSize) &&
            LeavesPoint(base, base[d.hole2.center], ds.holeSize))
  {
    RandomSampleFacts(ds.permutation, d.shuffled, raw, ds.samplePointsNum, ds.npoints);
  }

  /** The first variant depends only on the base and its own draws: changing
      the second variant's draws changes neither it nor the base. */
  lemma VariantsIndependent(ds: Dataset, idx: int, raw: Cloud, normalize: Cloud -> Cloud, d: Draws, h: HoleDraw)
    requires DrawsFit(ds, raw, normalize, d)
    requires DrawsFit(ds, raw, normalize, d.(hole2 := h))
    ensures var a := GetItem(ds, idx, raw, normalize, d).1;
      var b := GetItem(ds, idx, raw, normalize, d.(hole2 := h)).1;
      a.Success? && b.Success? ==> a.value.partial1 == b.value.partial1 && a.value.full == b.value.full
  {
  }

  /** Both variants come from the same base: equal draws give equal variants. */
  lemma SameDrawsSameVariants(ds: Dataset, idx: int, raw: Cloud, normalize: Cloud -> Cloud, d: Draws)
    requires DrawsFit(ds, raw, normalize, d)
    requires d.hole1 == d.hole2
    ensures var a := GetItem(ds, idx, raw, normalize, d).1;
      a.Success? ==> a.value.partial1 == a.value.partial2
  {
  }
}
