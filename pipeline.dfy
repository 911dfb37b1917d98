/** The subtraction pipeline (`subtract_mean_from_list`): the mean of the
    reference list is computed first, then every subject is loaded and the mean
    subtracted from it; the two header values are defaulted to 0.0 only here.
    Results keep the subjects' order, and one failure anywhere discards them all. */
module Pipeline {
  import opened Outcomes
  import opened Arrays
  import opened Loader
  import opened MeanReducer

  /** One output tuple: the corrected image, the rotation angle and the Julian date. */
  datatype Record = Record(img: Image, rotation: real, jd: real)

  /** The per-subject step: load, subtract the mean, default the header values. */
  function SubtractOne(fs: FileSystem, mean: Image, p: Path): (r: Result<Record>)
    ensures Load(fs(p)).Err? ==> r == Err(Load(fs(p)).error)
    ensures Load(fs(p)).Ok? ==> (r.Ok? <==> SameShape(Load(fs(p)).value.img, mean))
    ensures Load(fs(p)).Ok? && r.Err? ==> r.error == ShapeMismatch
    ensures r.Ok? ==>
      var loaded := Load(fs(p)).value;
      && SameShape(r.value.img, mean)
      && (forall k :: 0 <= k < |mean.data| ==> r.value.img.data[k] == loaded.img.data[k] - mean.data[k])
      && r.value.rotation == (if loaded.rotation.Some? then loaded.rotation.value else 0.0)
      && r.value.jd == (if loaded.timestamp.Some? then loaded.timestamp.value else 0.0)
  {
    var loaded :- Load(fs(p));
    if !SameShape(loaded.img, mean) then Err(ShapeMismatch)
    else Ok(Record(Subtract(loaded.img, mean), loaded.rotation.GetOr(0.0), loaded.timestamp.GetOr(0.0)))
  }

  /** The map and collect over the subjects: one record per subject in input
      order, or a failure of one of the subjects and no records at all. */
  function SubtractEach(fs: FileSystem, mean: Image, paths: seq<Path>): (r: Result<seq<Record>>)
    ensures r.Ok? <==> forall i :: 0 <= i < |paths| ==> SubtractOne(fs, mean, paths[i]).Ok?
    ensures r.Ok? ==> |r.value| == |paths|
    ensures r.Ok? ==> forall i :: 0 <= i < |paths| ==> r.value[i] == SubtractOne(fs, mean, paths[i]).value
    ensures r.Err? ==> exists i :: 0 <= i < |paths| && SubtractOne(fs, mean, paths[i]) == Err(r.error)
    decreases |paths|
  {
    if paths == [] then Ok([])
    else
      var head :- SubtractOne(fs, mean, paths[0]);
      var tail :- SubtractEach(fs, mean, paths[1..]);
      Ok([head] + tail)
  }

  /** `subtract_mean_from_list(list_a, list_b)`. */
  function SubtractMeanFromList(fs: FileSystem, listA: seq<Path>, listB: seq<Path>): (r: Result<seq<Record>>)
    ensures MeanImage(fs, listB).Err? ==> r == Err(MeanImage(fs, listB).error)
    ensures r.Ok? <==> (MeanImage(fs, listB).Ok? &&
      forall i :: 0 <= i < |listA| ==> SubtractOne(fs, MeanImage(fs, listB).value, listA[i]).Ok?)
    ensures r.Ok? ==> |r.value| == |listA|
    ensures r.Ok? ==> forall i :: 0 <= i < |listA| ==>
      r.value[i] == SubtractOne(fs, MeanImage(fs, listB).value, listA[i]).value
  {
    var mean :- MeanImage(fs, listB);
    SubtractEach(fs, mean, listA)
  }

  /** Entry i of the output is subject i minus the mean, pixel by pixel, with
      an absent header value reported as 0.0. */
  lemma OutputEntry(fs: FileSystem, listA: seq<Path>, listB: seq<Path>, i: nat)
    requires SubtractMeanFromList(fs, listA, listB).Ok? && i < |listA|
    ensures Load(fs(listA[i])).Ok? && MeanImage(fs, listB).Ok?
    ensures var out := SubtractMeanFromList(fs, listA, listB).value[i];
      var subject := Load(fs(listA[i])).value;
      var mean := MeanImage(fs, listB).value;
      && SameShape(out.img, subject.img) && SameShape(out.img, mean)
      && (forall k :: 0 <= k < |mean.data| ==> out.img.data[k] == subject.img.data[k] - mean.data[k])
      && (subject.rotation == None ==> out.rotation == 0.0)
      && (subject.timestamp == None ==> out.jd == 0.0)
  {
  }

  /** A subject that fails to load, or whose shape differs from the mean's,
      makes the whole call fail. */
  lemma OneFailureFailsAll(fs: FileSystem, listA: seq<Path>, listB: seq<Path>, i: nat)
    requires i < |listA| && MeanImage(fs, listB).Ok?
    requires Load(fs(listA[i])).Err? || !SameShape(Load(fs(listA[i])).value.img, MeanImage(fs, listB).value)
    ensures SubtractMeanFromList(fs, listA, listB).Err?
  {
  }

  /** The worked example, reference half: uniform 2.0 and 4.0 images of shape
      2-by-2 average to a uniform 3.0 image of the same shape. */
  lemma UniformMean(fs: FileSystem, b1: Path, b2: Path)
    requires fs(b1) == ImageHdu([2, 2], [2.0, 2.0, 2.0, 2.0], None, None)
    requires fs(b2) == ImageHdu([2, 2], [4.0, 4.0, 4.0, 4.0], None, None)
    ensures MeanImage(fs, [b1, b2]) == Ok(Grid(2, 2, [3.0, 3.0, 3.0, 3.0]))
  {
    ProductOfTwo([2, 2]);
    assert Load(fs(b1)) == Ok(Loaded(Grid(2, 2, [2.0, 2.0, 2.0, 2.0]), None, None));
    assert Load(fs(b2)) == Ok(Loaded(Grid(2, 2, [4.0, 4.0, 4.0, 4.0]), None, None));
    var paths := [b1, b2];
    MeanIsPixelAverage(fs, paths, 2, 2);
    var imgs := LoadedImages(fs, paths);
    assert imgs == [Grid(2, 2, [2.0, 2.0, 2.0, 2.0]), Grid(2, 2, [4.0, 4.0, 4.0, 4.0])];
    assert imgs[..1][..0] == [] && imgs[..1] == [imgs[0]];
    var mean := MeanImage(fs, paths).value;
    forall k | 0 <= k < 4 ensures mean.data[k] == 3.0 {
      assert PixelSum(imgs[..1][..0], k) == 0.0;
      assert PixelSum(imgs[..1], k) == 2.0;
      assert PixelSum(imgs, k) == PixelSum(imgs[..1], k) + imgs[1].data[k] == 6.0;
    }
    assert mean.data == [3.0, 3.0, 3.0, 3.0];
  }

  /** The worked example, subject half: a uniform 5.0 subject without header
      values becomes uniform 2.0, with rotation and date reported as 0.0. */
  lemma UniformScenario(fs: FileSystem, a: Path, b1: Path, b2: Path)
    requires fs(a) == ImageHdu([2, 2], [5.0, 5.0, 5.0, 5.0], None, None)
    requires fs(b1) == ImageHdu([2, 2], [2.0, 2.0, 2.0, 2.0], None, None)
    requires fs(b2) == ImageHdu([2, 2], [4.0, 4.0, 4.0, 4.0], None, None)
    ensures SubtractMeanFromList(fs, [a], [b1, b2]) == Ok([Record(Grid(2, 2, [2.0, 2.0, 2.0, 2.0]), 0.0, 0.0)])
  {
    UniformMean(fs, b1, b2);
    ProductOfTwo([2, 2]);
    assert Load(fs(a)) == Ok(Loaded(Grid(2, 2, [5.0, 5.0, 5.0, 5.0]), None, None));
    var mean: Image := Grid(2, 2, [3.0, 3.0, 3.0, 3.0]);
    var out := SubtractOne(fs, mean, a);
    assert out.Ok?;
    assert out.value.img.data == [2.0, 2.0, 2.0, 2.0];
    assert out.value == Record(Grid(2, 2, [2.0, 2.0, 2.0, 2.0]), 0.0, 0.0);
    assert [a][1..] == [];
    assert SubtractEach(fs, mean, []) == Ok([]);
    assert SubtractEach(fs, mean, [a]) == Ok([out.value] + []);
    assert [out.value] + [] == [Record(Grid(2, 2, [2.0, 2.0, 2.0, 2.0]), 0.0, 0.0)];
    assert MeanImage(fs, [b1, b2]) == Ok(mean);
    assert SubtractMeanFromList(fs, [a], [b1, b2]) == SubtractEach(fs, mean, [a]);
  }
}
