# fits_lizard image core in Dafny

This is a model of the image core of `fits_lizard`, a Rust extension that does two things. It averages a reference set of FITS images into a mean image. It then subtracts that mean from every image of a subject set. Four parts are modelled:

- **Loader** (`read_fits_image`). The outcome of reading a file's primary HDU arrives as a `RawFile`: unreadable, not an image, or an image HDU. An image HDU carries its extents (slowest axis first), a flat payload and the two optional header values `LBT_PARA` and `PCJD`. The payload is reshaped row-major into an N-dimensional array, which fails unless its length is the product of the extents. A matrix is used as it is. A cube `(k, h, w)` gives its last frame `k-1`. Any other rank is refused with an error that names the shape. The header values stay optional.
- **Mean reducer** (`compute_mean_image`). Each path is mapped to an `(image, count)` pair. The pairs are combined by a reduction whose identity is a 0×0 image with count 0. The combine step drops an operand with no element and returns the other one unchanged. Otherwise it adds the images element-wise and adds the counts. A final count of 0 is the error "No images to average". Otherwise the result is `sum / count`. rayon's parallel reduce is modelled as the evaluation of an arbitrary `ReduceTree` over the mapped items in input order. The sequential left fold `Reduce` is the reference. Every tree is proved to agree with it in success and value, and to equal it when every file loads.
- **Subtraction pipeline** (`subtract_mean_from_list`). The mean of list B is computed first. Each path of list A then becomes `(image - mean, rotation or 0.0, date or 0.0)`. The output keeps input order, and any failure yields no result at all.
- **Metadata defaulting.** The header values are `Option`s through loading and become `0.0` only in the pipeline's output.

Files: `outcomes.dfy` (Option, Result, the error kinds), `arrays.dfy` (images, N-dimensional arrays, reshaping, `index_axis`), `loader.dfy`, `mean_reducer.dfy` and `pipeline.dfy`. Pixels are `real`, and the file system is a function from path to `RawFile`.

Two details of the code that the model keeps:
- rayon's `collect` into a `Vec` keeps input order, and so does the model.
- `read_image` runs before the check that the HDU holds an image. Both failures are simply errors of the loader.

## Model

| member | source | states |
|---|---|---|
| `Arrays.FromShapeVec` | src/lib.rs:39-40 | reshaping succeeds exactly when the payload length equals the product of the extents, keeps shape and payload, and otherwise reports the shape and the length |
| `Arrays.Unoffset` | src/lib.rs:39-40 | every payload position below the product of the extents is the row-major position of some in-bounds multi-index |
| `Arrays.ReshapeIsBijective` | src/lib.rs:39-40 | reshaping places every payload value in exactly one cell: value p is the element at `Unoffset(shape, p)`, no other in-bounds multi-index sits at position p, and every in-bounds multi-index is recovered from its own position |
| `Arrays.OffsetInRange` | src/lib.rs:39-40 | every in-bounds multi-index has a row-major position inside the payload |
| `Arrays.OffsetInjective` | src/lib.rs:39-40 | distinct in-bounds multi-indices have distinct positions |
| `Arrays.IndexAxis0` | src/lib.rs:46-48 | plane n of a cube `(k, h, w)` is an `h`×`w` image |
| `Arrays.IndexAxis0Element` | src/lib.rs:46-48 | pixel (i, j) of plane n is the cube's element (n, i, j), at payload position n·h·w + i·w + j |
| `Arrays.Add` | src/lib.rs:80 | the sum of two equal-shape images has their shape and holds the element-wise sums |
| `Arrays.AddAssociates` | src/lib.rs:80 | element-wise image addition is associative |
| `Arrays.AddCommutes` | src/lib.rs:80 | element-wise image addition is commutative |
| `Arrays.Subtract` | src/lib.rs:108 | the difference of two equal-shape images has their shape and holds the element-wise differences |
| `Arrays.Divide` | src/lib.rs:89 | each pixel of `img / n`, multiplied by n, gives back the pixel of `img` |
| `Loader.ToMatrix` | src/lib.rs:43-52 | rank 2 is kept with the same extents and payload; rank 3 with k ≥ 1 gives an `h`×`w` image; rank 3 with k = 0 fails; any other rank fails with an error naming the shape; success exactly for rank 2 and for rank 3 with k ≥ 1 |
| `Loader.MatrixKeepsElements` | src/lib.rs:44 | a matrix's pixel (i, j) is the array's element (i, j) |
| `Loader.CubeGivesLastFrame` | src/lib.rs:45-50 | a cube's pixel (i, j) is element (k-1, i, j), at payload position (k-1)·h·w + i·w + j |
| `Loader.Load` | src/lib.rs:14-55 | an unreadable file and a non-image HDU fail; an image HDU loads exactly when the payload length equals the product of the extents and the rank is 2, or 3 with k ≥ 1; the error names the mismatch, the unsupported shape or the empty cube; a loaded record carries the header values as they were read, still optional; a loaded matrix has the file's extents and payload, and a loaded cube `(k, h, w)` is `h`×`w` |
| `Loader.LoadMatrix` | src/lib.rs:39-44 | a two-dimensional `h`×`w` file loads as exactly the `h`×`w` image holding its payload, with its header values, so pixel (i, j) is payload value i·w + j |
| `Loader.CubeLoadsAsLastFrame` | src/lib.rs:39-50 | loading a cube `(k, h, w)` gives the same record as loading a two-dimensional file holding only its last frame |
| `MeanReducer.Identity` | src/lib.rs:67 | the identity is an image with no element and count 0 |
| `MeanReducer.Combine` | src/lib.rs:72-81 | an empty left operand yields the right one unchanged; otherwise an empty right operand yields the left one; two non-empty images combine exactly when their shapes are equal, into the element-wise sum with the counts added; the only failure is a shape mismatch |
| `MeanReducer.CombineResults` | src/lib.rs:68-70 | the left operand's failure is reported first, then the right one's; the closure succeeds exactly when both operands did and the combine step does; any other failure is a shape mismatch |
| `MeanReducer.Reduce` | src/lib.rs:60-83 | the sequential fold of no items is the identity; it succeeds only if every item did, and a failure it reports is a shape mismatch or one of the items' failures |
| `MeanReducer.Eval` | src/lib.rs:60-83 | a parallel reduction of any shape succeeds only if every item did, and a failure it reports is a shape mismatch or one of the items' failures |
| `MeanReducer.CombineAssociates` | src/lib.rs:66-83 | the combine closure, failures included, is associative: exactly on loaded operands, and up to which failure is reported otherwise |
| `MeanReducer.IdentityIsUnit` | src/lib.rs:67 | the 0×0, count-0 identity is a left and right unit on failures, on the identity and on pairs with a non-empty image |
| `MeanReducer.CombineCommutes` | src/lib.rs:72-81 | on the identity and non-empty pairs, the combine step is commutative |
| `MeanReducer.ReduceAppend` | src/lib.rs:60-83 | reducing a concatenation equals combining the reductions of the two parts |
| `MeanReducer.TreeAgreesWithFold` | src/lib.rs:60-83 | every bracketing of the mapped items, with identity calls anywhere, succeeds exactly when the sequential fold does, and then gives the same sum and count; when every item loaded, the two results are equal, failure included |
| `MeanReducer.CombineResultsCommute` | src/lib.rs:66-83 | on failures, the identity and non-empty pairs, the closure is commutative up to which failure is reported |
| `MeanReducer.ReduceMoveToEnd` | src/lib.rs:60-83 | moving one item to the end of the list leaves the success and the value of the reduction unchanged |
| `MeanReducer.ReducePermutation` | src/lib.rs:60-83 | any reordering of the items leaves the success and the value of the reduction unchanged |
| `MeanReducer.MeanOf` | src/lib.rs:85-89 | a count of 0 is the error "No images to average"; otherwise the result has the sum's shape, and each pixel times the count is the summed pixel |
| `MeanReducer.Contribution` | src/lib.rs:62-65 | the corrected map step (see Findings): a path maps to the loader's failure, to the identity for an image with no element, or to the image with count 1 |
| `MeanReducer.Contributions` | src/lib.rs:60-65 | the mapped items follow the paths one for one, in order |
| `MeanReducer.MeanImage` | src/lib.rs:58-90 | no paths give "No images to average"; a successful mean means every file loaded; a failure is one file's load failure, a shape mismatch, or "No images to average" |
| `MeanReducer.MeanIsTreeIndependent` | src/lib.rs:58-90 | the mean computed through any reduction tree over the mapped paths succeeds exactly when the sequential one does, and equals it then |
| `MeanReducer.MeanOfNoPaths` | src/lib.rs:85-87 | an empty path list fails with "No images to average" |
| `MeanReducer.MeanFailsOnLoadFailure` | src/lib.rs:63 | one file that fails to load makes the mean fail |
| `MeanReducer.ReduceOfLoadedFrames` | src/lib.rs:66-83 | over loaded items the count is the number of non-empty images, the identity remains exactly when there is none, every non-empty image has the result's shape, and the only failure is a shape mismatch |
| `MeanReducer.MeanRejectsMixedShapes` | src/lib.rs:80 | two non-empty reference images of different shapes make the mean fail with a shape mismatch |
| `MeanReducer.MeanOfOnlyEmptyImages` | src/lib.rs:72-78 | with the corrected map step (see Findings), images with no element are not counted: a reference set of only such images has nothing to average |
| `MeanReducer.ReduceSumsFrames` | src/lib.rs:60-83 | reducing n ≥ 1 non-empty equal-shape images gives their element-wise sum and count n |
| `MeanReducer.LoadedImages` | src/lib.rs:63 | entry m is the image loaded from path m, one entry per path |
| `MeanReducer.MeanIsPixelAverage` | src/lib.rs:58-90 | for n ≥ 1 files loading non-empty images of one shape, the mean has that shape, and each pixel is the sum of that pixel over the images divided by n |
| `MeanReducer.MeanOfOnePath` | src/lib.rs:58-90 | the mean of one non-empty image is that image |
| `MeanReducer.ContributionAsWritten` | src/lib.rs:62-65 | the map step as written: a load failure is passed on, and every loaded image counts once, also one with no element |
| `MeanReducer.ContributionsAsWritten` | src/lib.rs:60-65 | the as-written items follow the paths one for one, in order |
| `MeanReducer.MeanImageAsWritten` | src/lib.rs:58-90 | `compute_mean_image` with the as-written map step: no paths give "No images to average", and a successful mean means every file loaded |
| `MeanReducer.FoldsAgreeUpToEmpty` | src/lib.rs:60-83 | folding the corrected items and the as-written items gives equal results, except that the identity may stand where the as-written fold holds an empty image |
| `MeanReducer.ReduceKeepsFrames` | src/lib.rs:72-81 | once a non-empty image is among the items, a successful reduction has a non-empty sum |
| `MeanReducer.MeanImageAgreesAsWritten` | src/lib.rs:58-90 | when some reference file loads a non-empty image, the mean with the as-written map step equals the corrected mean, failure included |
| `MeanReducer.EmptyFrameCountedAsWritten` | src/lib.rs:64 | with the map step as written, one 0×5 image averages to an empty image instead of failing, and a tree that combines it with an identity call on its right counts nothing where the fold counts it once |
| `Pipeline.SubtractOne` | src/lib.rs:106-110 | a subject's load failure is passed on; a loaded subject succeeds exactly when its shape equals the mean's; the output image is the subject minus the mean pixel by pixel; a missing rotation or date becomes 0.0 and a present one is kept |
| `Pipeline.SubtractEach` | src/lib.rs:104-111 | the collected result succeeds exactly when every subject does, then has one record per subject in input order; a failure is the failure of one of the subjects |
| `Pipeline.SubtractMeanFromList` | src/lib.rs:100-113 | a failing mean fails the whole call with the mean's error; otherwise the call succeeds exactly when every subject does, with as many records as list A has paths, entry i being subject i's record |
| `Pipeline.OutputEntry` | src/lib.rs:104-113 | in a successful output, entry i equals subject i minus the mean pixel by pixel, with an absent header value reported as 0.0 |
| `Pipeline.OneFailureFailsAll` | src/lib.rs:104-113 | one subject that fails to load or has a shape different from the mean's fails the whole call |
| `Pipeline.UniformMean` | src/lib.rs:58-90 | uniform 2.0 and 4.0 images of shape 2×2 average to a uniform 3.0 image |
| `Pipeline.UniformScenario` | src/lib.rs:100-113 | with that reference set, a uniform 5.0 subject without header values gives a uniform 2.0 image with rotation and date 0.0 |

## Left out

- FITS access through `fitsio` (`FitsFile::open`, `primary_hdu`, `read_key`, `read_image`) is file I/O. A path is looked up in a `FileSystem` function that gives the outcome of those calls as a `RawFile`.
- Parsing header strings as `f32`/`f64` is not modelled. Only its outcome is, as an `Option`.
- rayon's thread pool and work splitting are not modelled. The parallel reduce is any `ReduceTree` over the mapped items, and the parallel map and `collect` are a sequential recursion in input order.
- Floating point is not modelled: pixels are `real` and the image count is a `nat`. So `f32` rounding, the loss of associativity that rounding brings, and the count's limit of 2^24 are not captured.
- Extents and payload lengths are unbounded, so `usize` overflow of the extent product is not captured.
- ndarray's own behaviour for `a_img + &b_img` and `img - &mean_img` on different shapes (a panic or a broadcast, depending on the shapes) is not modelled. The model refuses them with an explicit `ShapeMismatch` error.
- The source does not return an error for a cube with zero frames: `shape()[0] - 1` underflows and panics. The model reports it as the error `EmptyCube`.
- The error texts are not modelled. Neither is the mapping of errors to Python's `IOError` (mean) and `RuntimeError` (subjects), nor the conversion of results to numpy arrays and tuples or the module registration.
- MeanReducer.TreeAgreesWithFold: which failure a reduction reports depends on the tree when some file fails to load. In that case results agree only in success and value, not in the error reported. If every file loads, the results are equal.
- Pipeline.SubtractEach: the model returns the first failing subject's error. The contract promises only that the error comes from one of the failing subjects, which is what rayon's `collect` guarantees.
- MeanReducer.ReducePermutation: for the same reason, reordering the items keeps success and value but not necessarily which failure is reported.

## Findings

| source | as written | input that shows it | evidently intended | confidence | as-written member | corrected member |
|---|---|---|---|---|---|---|
| src/lib.rs:64 | Every loaded image contributes count 1, also an image with no element. But the combine step (lines 72-78) treats any zero-sized image as the identity: it keeps the right operand's count and drops the left one's. | A reference list holding one file whose image is 0×5. The mean is an empty image instead of "No images to average". The identity is then not a right unit, so a tree that combines that item with an identity call on its right counts 0, while the fold counts 1. | An image with no element counts nothing, like the identity. The mean of only such images fails with "No images to average", and the identity is a two-sided unit, so every reduction tree agrees. | low, not executed | `MeanReducer.EmptyFrameCountedAsWritten` | `MeanReducer.MeanOfOnlyEmptyImages` |

The corrected map step is `MeanReducer.Contribution`, which sends an empty image to the identity. `MeanReducer.MeanImage` and the pipeline use it. The as-written map step is kept as `MeanReducer.ContributionAsWritten` and `MeanReducer.MeanImageAsWritten`. `MeanReducer.MeanImageAgreesAsWritten` proves that the two give the same mean whenever some reference file loads a non-empty image. So the correction changes only reference sets whose loaded images all have no element.
