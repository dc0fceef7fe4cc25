# ShapeNet-55 dataset indexing, in Dafny

A functional model of the index and sequence logic of the `ShapeNet55Dataset`
class (`datasets/ShapeNet55Dataset.py`), which serves point-cloud samples for
point-cloud completion training. It covers:

- building `file_list` from the lines of a split file: strip each line; the
  taxonomy id is the text before the first `-`; the model id is the second
  `-`-field cut at its first `.`; the stripped line is the file path;
- the persistent index buffer `self.permutation`, created as `arange(npoints)`;
- `random_sample`: shuffle the buffer in place, then take the points at its
  first `num` entries;
- `make_holes_pcd`: pick a center point, then keep, in input order, every point
  at distance at least `hole_size` from it;
- `resample_pcd`: a permutation of the cloud's positions, padded with positions
  drawn with replacement when the cloud is short, cut to exactly `n` entries;
- `__getitem__`: look up the record, subsample, normalise, then carve and
  resample twice from the same base;
- `__len__`.

Modelling choices:

- Points are triples of reals and clouds are sequences of points.
- Every random draw is a parameter, with a precondition saying it is one the
  generator could produce. These draws are:
  - the shuffled buffer, which has the same multiset as the current one;
  - the index of the hole center;
  - the permutation and the padding indices of each resample.
- Each Python exception is a `Failure` of the `Result` type (module `Wrappers`):
  - `MissingDash`: `split('-')[1]` on a line without `-` (an `IndexError`);
  - `IndexOutOfBounds`: a list index or NumPy fancy index past the end (an `IndexError`);
  - `EmptyCloud`: `randint` with an empty range, or the normalisation of an
    empty cloud (a `ValueError`).
- `__getitem__` returns the object's new state next to its result, because
  it shuffles the buffer.
- The hole test compares the squared distance with `hole_size * hole_size`, so
  no square root is needed. `Geometry.FarEnoughIsDistanceTest` shows this is
  the source's `norm >= hole_size` for every non-negative distance. A hole size
  of zero or less keeps every point.

Modules:

- `Wrappers`: the result and error types.
- `Text`: Python's `str.strip` and `str.split` on one separator.
- `Manifest`: the split-file parsing.
- `Indices`: `arange`, permutations, slicing and gathering.
- `Geometry`: points and the distance test.
- `Sampling`: the three selection steps.
- `ShapeNet55`: the dataset object.

## Model

| member | source | states |
|---|---|---|
| Text.Strip | datasets/ShapeNet55Dataset.py:26 | `line.strip()` is the infix that neither begins nor ends with whitespace (Python's full `isspace` set) and leaves only whitespace on either side |
| Text.StripIdempotent | datasets/ShapeNet55Dataset.py:26 | stripping a stripped line changes nothing |
| Text.SplitFields | datasets/ShapeNet55Dataset.py:27-28 | `split(sep)[0]` is the text before the first separator; a second field exists exactly when the separator occurs, and it is the text between the first and the next separator |
| Text.SplitJoin | datasets/ShapeNet55Dataset.py:27-28 | `split` inverts `join` on separator-free fields (and `Split` itself ensures `join(split(s)) == s` with separator-free fields) |
| Manifest.ParseLine | datasets/ShapeNet55Dataset.py:26-32 | parsing one line succeeds exactly when the stripped line holds a `-`, fails with the index error otherwise, and stores the stripped line as the path |
| Manifest.ParseLineFields | datasets/ShapeNet55Dataset.py:26-32 | the taxonomy id is the text before the first `-`; the model id is the text after it, up to the next `-`, cut at the first `.` |
| Manifest.ParseLineReconstructs | datasets/ShapeNet55Dataset.py:27-28 | the stripped line begins with taxonomy id, `-`, model id, followed by `-`, `.` or nothing; neither id contains `-`, and the model id has no `.` |
| Manifest.ParseFormattedLine | datasets/ShapeNet55Dataset.py:26-32 | a line written as `<taxonomy_id>-<model_id>.<ext>` with delimiter-free ids parses back to exactly those ids and the line |
| Manifest.ParseManifest | datasets/ShapeNet55Dataset.py:24-33 | `file_list` has one record per line, in order, each the parse of its line; it fails with the index error exactly when some stripped line lacks `-` |
| ShapeNet55.New | datasets/ShapeNet55Dataset.py:13-35 | construction succeeds exactly when every stripped line holds a `-`; the length (`__len__`, lines 93-94) is the number of lines; the buffer starts as a permutation of `0..npoints-1` |
| Indices.PermutationFacts | datasets/ShapeNet55Dataset.py:35 | a permutation of `0..k-1` has length `k`, only indices below `k`, no repeats, and every such index |
| Indices.ShufflePreservesPermutation | datasets/ShapeNet55Dataset.py:35-47 | `arange(k)` is a permutation of `0..k-1`, and shuffling (any reordering) keeps it one |
| Indices.GatherPermutation | datasets/ShapeNet55Dataset.py:48 | indexing a cloud with a permutation of its positions reorders it: same multiset of points |
| Sampling.Select | datasets/ShapeNet55Dataset.py:48 | fancy indexing succeeds exactly when every index is below the cloud's size, else fails with the index error; on success entry `k` of the result is `pc[idx[k]]` |
| Sampling.RandomSample | datasets/ShapeNet55Dataset.py:46-49 | the buffer becomes the shuffled one; the result has `min(num, len(buffer))` points, point `k` being the input point at buffer entry `k`, and fails exactly when one of those entries is past the cloud |
| Sampling.RandomSampleFacts | datasets/ShapeNet55Dataset.py:35-49 | the buffer stays a permutation of `0..npoints-1`; the chosen positions are distinct and `min(num, npoints)` many; a cloud of at least `npoints` points never raises; with `npoints == len(pc) <= num` the result reorders `pc` |
| Geometry.FarEnoughIsDistanceTest | datasets/ShapeNet55Dataset.py:65-66 | the squared-distance test agrees with `dist >= hole_size` for the Euclidean distance `dist` |
| Geometry.CenterIsNear | datasets/ShapeNet55Dataset.py:60-66 | with a positive hole size the center point itself fails the test |
| Sampling.KeptIndices | datasets/ShapeNet55Dataset.py:64-68 | the loop keeps increasing, valid positions, and position `i` is kept exactly when point `i` is far enough from the center |
| Indices.PositionsCounts | datasets/ShapeNet55Dataset.py:64-68 | filtering a sequence by position keeps every occurrence of an entry that passes the test and no occurrence of one that fails |
| Sampling.Carve | datasets/ShapeNet55Dataset.py:62-69 | every kept point is an input point far enough from the center; each point far enough occurs in the result as often as in the input, and a point inside the hole not at all; the result is no longer than the input |
| Sampling.CarveDropsNear | datasets/ShapeNet55Dataset.py:64-68 | one point inside the hole makes the result strictly shorter than the input |
| Sampling.CarveKeepsAll | datasets/ShapeNet55Dataset.py:64-69 | when no point lies inside the hole, the loop returns the cloud unchanged |
| Sampling.MakeHoles | datasets/ShapeNet55Dataset.py:51-69 | raises exactly on an empty cloud (no center to draw); otherwise returns the points far enough from `pcd[center]`, every occurrence of each and nothing else |
| Sampling.MakeHolesShape | datasets/ShapeNet55Dataset.py:58-69 | the result is an order-preserving subsequence of the input; strictly shorter when the hole size is positive (the docstring's `m < n`); the input unchanged when the hole size is zero or less |
| Sampling.ResampleIndexFacts | datasets/ShapeNet55Dataset.py:73-76 | the index list has exactly `n` valid entries; with at least `n` points they are distinct; with fewer, they start with the whole permutation, so every position occurs |
| Sampling.Resample | datasets/ShapeNet55Dataset.py:71-76 | raises exactly for an empty cloud and `n > 0`; otherwise returns exactly `n` points, each an input point |
| Sampling.ResamplePoints | datasets/ShapeNet55Dataset.py:73-76 | with at least `n` points the result is a sub-multiset of the input (a reordering when equal); with fewer, the first `len(pcd)` outputs reorder the input and every input point occurs |
| ShapeNet55.ListIndex | datasets/ShapeNet55Dataset.py:79 | `file_list[idx]` succeeds exactly for `-len <= idx < len`, counting negative indices from the end |
| ShapeNet55.SampleBase | datasets/ShapeNet55Dataset.py:83-84 | the base is the normalised subsample; it fails exactly when a chosen position is past the raw cloud or the subsample is empty |
| ShapeNet55.HoledVariant | datasets/ShapeNet55Dataset.py:86 | one variant fails exactly when the base is empty or the hole swallows every point (with `n > 0`); otherwise it has exactly `n` points, all base points outside the hole |
| ShapeNet55.Variants | datasets/ShapeNet55Dataset.py:86-87 | both variants succeed exactly when each does on its own, each with `n` points from the base, outside its own hole |
| ShapeNet55.SampleItem | datasets/ShapeNet55Dataset.py:81-91 | the item carries the record's ids; the base has `min(sample_points_num, len(buffer))` points; each variant has `sample_points_num` points taken from the base, outside its own hole |
| ShapeNet55.GetItem | datasets/ShapeNet55Dataset.py:78-91 | a bad index raises and leaves the object alone; a good one shuffles the buffer, keeping it a permutation; on success the ids are those of the record, both variants have `sample_points_num` points drawn from the returned base and outside their holes |
| ShapeNet55.GetItemSucceeds | datasets/ShapeNet55Dataset.py:78-87 | for a valid object and index and a raw cloud of at least `npoints` points, the base has `min(sample_points_num, npoints)` points and the call succeeds exactly when neither hole removes every base point |
| ShapeNet55.VariantsIndependent | datasets/ShapeNet55Dataset.py:86-87 | the first variant and the base do not depend on the second variant's draws |
| ShapeNet55.SameDrawsSameVariants | datasets/ShapeNet55Dataset.py:86-87 | both variants come from the same base: equal draws give equal variants |

## Left out

- `pc_norm` (lines 37-43): the mean, square root and division are not modelled. The normalisation is a parameter that keeps the point count. Only its failure on an empty cloud (the maximum of an empty array) is modelled.
- ShapeNet55.SampleBase: says nothing about the coordinates of the base beyond "the normaliser applied to the subsample", because of the item above.
- File and path handling (lines 10-22): `os.path.join`, opening and reading the split file, and the unused `test_data_list_file`. The constructor takes the file's lines as a parameter.
- The point-cloud reader `IO.get` and the `float32` cast (line 81): the raw cloud is a parameter.
- `torch.from_numpy` and the `torch.utils.data.Dataset` base class (lines 8, 89-91): the model returns the clouds unchanged.
- NumPy's random generator: its outputs are parameters constrained by preconditions. No distribution (uniformity, bias toward earlier permutation entries) is modelled.
- Floating point: coordinates and the hole size are reals, so rounding, NaN and infinities are not modelled.
- Counts are natural numbers. A negative `npoints` or `config.npoints` (a negative slice stop in `permutation[:num]`) is not modelled.
- The default `hole_size=0.1` of `make_holes_pcd`: the only caller passes the configured hole size explicitly.
- Three behaviours of the code that a reader of the manifest format might not expect, all modelled as the code has them:
  - Parsing a manifest line raises only when the stripped line has no `-`. A line without `.` is accepted; its model id is then the whole text between the first `-` and the next `-` (or the end).
  - The subsample raises only when one of the first `config.npoints` buffer entries is past the end of the raw cloud. A raw cloud with fewer points than `config.npoints` is not in itself an error.
  - The returned base cloud has `min(config.npoints, npoints)` points. Only the two holed variants have exactly `config.npoints`.
