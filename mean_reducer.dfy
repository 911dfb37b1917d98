/** The mean reducer (`compute_mean_image`): every path is loaded and mapped to
    a `(sum, count)` pair, the pairs are combined by a reduction with an
    explicit identity, and the final sum is divided by the count.

    rayon's parallel `reduce` is modelled by `Eval` over an arbitrary
    `ReduceTree` whose leaves are the mapped items in input order; the
    sequential left fold `Reduce` is the reference, and `TreeAgreesWithFold`
    shows that every tree gives the fold's result. */
module MeanReducer {
  import opened Outcomes
  import opened Arrays
  import opened Loader

  /** The running `(sum, count)` pair. */
  datatype Acc = Acc(sum: Image, count: nat)

  /** The reduction's identity: a 0-by-0 image with count 0. */
  function Identity(): (r: Acc)
    ensures IsEmpty(r.sum) && r.count == 0
  {
    Acc(Grid(0, 0, []), 0)
  }

  /** The combine step on two loaded pairs: an operand whose image has no
      element is dropped and the other returned unchanged; otherwise the images
      are added element-wise and the counts added. Images of different shapes
      are refused. */
  function Combine(a: Acc, b: Acc): (r: Result<Acc>)
    ensures IsEmpty(a.sum) ==> r == Ok(b)
    ensures !IsEmpty(a.sum) && IsEmpty(b.sum) ==> r == Ok(a)
    ensures !IsEmpty(a.sum) && !IsEmpty(b.sum) ==> (r.Ok? <==> SameShape(a.sum, b.sum))
    ensures r.Err? ==> r.error == ShapeMismatch
    ensures !IsEmpty(a.sum) && !IsEmpty(b.sum) && r.Ok? ==>
      && r.value.count == a.count + b.count
      && SameShape(r.value.sum, a.sum)
      && forall k :: 0 <= k < |a.sum.data| ==> r.value.sum.data[k] == a.sum.data[k] + b.sum.data[k]
  {
    if IsEmpty(a.sum) then Ok(b)
    else if IsEmpty(b.sum) then Ok(a)
    else if !SameShape(a.sum, b.sum) then Err(ShapeMismatch)
    else Ok(Acc(Add(a.sum, b.sum), a.count + b.count))
  }

  /** The combine closure on fallible operands: the left operand's failure
      first, then the right operand's, then `Combine`. */
  function CombineResults(a: Result<Acc>, b: Result<Acc>): (r: Result<Acc>)
    ensures a.Err? ==> r == a
    ensures a.Ok? && b.Err? ==> r == b
    ensures r.Ok? <==> a.Ok? && b.Ok? && Combine(a.value, b.value).Ok?
    ensures r.Ok? ==> r == Combine(a.value, b.value)
    ensures r.Err? ==> r.error == ShapeMismatch || r == a || r == b
  {
    var x :- a;
    var y :- b;
    Combine(x, y)
  }

  /** The sequential left fold from the identity: the reference meaning of the
      reduction. It succeeds only when every item did, and a failure it reports
      is a shape mismatch or the failure of one of the items. */
  function Reduce(items: seq<Result<Acc>>): (r: Result<Acc>)
    ensures items == [] ==> r == Ok(Identity())
    ensures r.Ok? ==> forall x :: x in items ==> x.Ok?
    ensures r.Err? ==> r.error == ShapeMismatch || r in items
  {
    if items == [] then Ok(Identity())
    else
      assert items == items[..|items| - 1] + [items[|items| - 1]];
      CombineResults(Reduce(items[..|items| - 1]), items[|items| - 1])
  }

  /** One way a parallel reduction can bracket the items: `Unit` is a call of
      the identity closure, `Leaf` one mapped item, `Join` one combine. */
  datatype ReduceTree = Unit | Leaf(item: Result<Acc>) | Join(left: ReduceTree, right: ReduceTree)

  /** The items a tree combines, in order. */
  function Leaves(t: ReduceTree): seq<Result<Acc>> {
    match t
    case Unit => []
    case Leaf(x) => [x]
    case Join(l, r) => Leaves(l) + Leaves(r)
  }

  /** The value a parallel reduction shaped like `t` computes. Like the fold,
      it succeeds only when every item did, and a failure it reports is a
      shape mismatch or the failure of one of the items. */
  function Eval(t: ReduceTree): (r: Result<Acc>)
    ensures r.Ok? ==> forall x :: x in Leaves(t) ==> x.Ok?
    ensures r.Err? ==> r.error == ShapeMismatch || r in Leaves(t)
  {
    match t
    case Unit => Ok(Identity())
    case Leaf(x) => x
    case Join(l, r) => CombineResults(Eval(l), Eval(r))
  }

  /** The values the reduction sees once empty images are mapped to the
      identity: a failure, the identity, or a pair whose image has elements. */
  predicate Normal(x: Result<Acc>) {
    x.Err? || x.value == Identity() || !IsEmpty(x.value.sum)
  }

  predicate AllNormal(items: seq<Result<Acc>>) {
    forall m :: 0 <= m < |items| ==> Normal(items[m])
  }

  /** Two results that a caller cannot tell apart: both failed, or both
      succeeded with the same value. Which failure a parallel reduction reports
      depends on which failure it observes first. */
  predicate SameOutcome(x: Result<Acc>, y: Result<Acc>) {
    (x.Ok? <==> y.Ok?) && (x.Ok? ==> x.value == y.value)
  }

  lemma CombineRespectsSameOutcome(x: Result<Acc>, x': Result<Acc>, y: Result<Acc>, y': Result<Acc>)
    requires SameOutcome(x, x') && SameOutcome(y, y')
    ensures SameOutcome(CombineResults(x, y), CombineResults(x', y'))
  {
  }

  /** The combine step is associative: on loaded operands exactly, and on
      operands that may have failed up to which failure is reported. */
  lemma CombineAssociates(x: Result<Acc>, y: Result<Acc>, z: Result<Acc>)
    ensures SameOutcome(CombineResults(CombineResults(x, y), z), CombineResults(x, CombineResults(y, z)))
    ensures x.Ok? && y.Ok? && z.Ok? ==>
      CombineResults(CombineResults(x, y), z) == CombineResults(x, CombineResults(y, z))
  {
    if x.Ok? && y.Ok? && z.Ok? {
      var a, b, c := x.value, y.value, z.value;
      if IsEmpty(a.sum) {
      } else if IsEmpty(b.sum) {
      } else if IsEmpty(c.sum) {
        if SameShape(a.sum, b.sum) {
          assert !IsEmpty(Add(a.sum, b.sum));
        }
      } else if SameShape(a.sum, b.sum) && SameShape(b.sum, c.sum) {
        AddAssociates(a.sum, b.sum, c.sum);
      } else if SameShape(a.sum, b.sum) {
        assert Combine(Acc(Add(a.sum, b.sum), a.count + b.count), c) == Err(ShapeMismatch);
      } else if SameShape(b.sum, c.sum) {
        assert Combine(a, Acc(Add(b.sum, c.sum), b.count + c.count)) == Err(ShapeMismatch);
      }
    } else if x.Ok? && y.Ok? {
      var a, b := x.value, y.value;
      if !IsEmpty(a.sum) && !IsEmpty(b.sum) && SameShape(a.sum, b.sum) {
        assert !IsEmpty(Add(a.sum, b.sum));
      }
    }
  }

  /** The identity is a two-sided unit on normal operands. */
  lemma IdentityIsUnit(x: Result<Acc>)
    requires Normal(x)
    ensures CombineResults(Ok(Identity()), x) == x
    ensures CombineResults(x, Ok(Identity())) == x
  {
  }

  /** The combine step is commutative on normal pairs. */
  lemma CombineCommutes(a: Acc, b: Acc)
    requires Normal(Ok(a)) && Normal(Ok(b))
    ensures Combine(a, b) == Combine(b, a)
  {
    if !IsEmpty(a.sum) && !IsEmpty(b.sum) && SameShape(a.sum, b.sum) {
      AddCommutes(a.sum, b.sum);
    }
  }

  lemma CombinePreservesNormal(x: Result<Acc>, y: Result<Acc>)
    requires Normal(x) && Normal(y)
    ensures Normal(CombineResults(x, y))
  {
  }

  lemma {:induction false} ReduceIsNormal(items: seq<Result<Acc>>)
    requires AllNormal(items)
    ensures Normal(Reduce(items))
  {
    if items != [] {
      ReduceIsNormal(items[..|items| - 1]);
      CombinePreservesNormal(Reduce(items[..|items| - 1]), items[|items| - 1]);
    }
  }

  /** Reducing a concatenation is combining the reductions of its parts. */
  lemma {:induction false} ReduceAppend(s: seq<Result<Acc>>, u: seq<Result<Acc>>)
    requires AllNormal(s) && AllNormal(u)
    ensures SameOutcome(Reduce(s + u), CombineResults(Reduce(s), Reduce(u)))
    decreases |u|
  {
    if u == [] {
      assert s + u == s;
      ReduceIsNormal(s);
      IdentityIsUnit(Reduce(s));
    } else {
      var init, last := u[..|u| - 1], u[|u| - 1];
      assert (s + u)[..|s + u| - 1] == s + init;
      assert AllNormal(init);
      ReduceAppend(s, init);
      CombineRespectsSameOutcome(Reduce(s + init), CombineResults(Reduce(s), Reduce(init)), last, last);
      CombineAssociates(Reduce(s), Reduce(init), last);
    }
  }

  /** Every bracketing of the items, with identity calls anywhere, succeeds
      exactly when the sequential fold over the same items in the same order
      does, and then with the same sum and count. When every item loaded the
      two are equal, failure included. */
  lemma {:induction false} TreeAgreesWithFold(t: ReduceTree)
    requires AllNormal(Leaves(t))
    ensures SameOutcome(Eval(t), Reduce(Leaves(t)))
    ensures (forall x :: x in Leaves(t) ==> x.Ok?) ==> Eval(t) == Reduce(Leaves(t))
  {
    match t
    case Unit =>
    case Leaf(x) =>
      assert [x][..0] == [];
      assert Leaves(t)[0] == x;
      IdentityIsUnit(x);
    case Join(l, r) =>
      assert AllNormal(Leaves(l)) by {
        forall m | 0 <= m < |Leaves(l)| ensures Normal(Leaves(l)[m]) {
          assert Leaves(t)[m] == Leaves(l)[m];
        }
      }
      assert AllNormal(Leaves(r)) by {
        forall m | 0 <= m < |Leaves(r)| ensures Normal(Leaves(r)[m]) {
          assert Leaves(t)[|Leaves(l)| + m] == Leaves(r)[m];
        }
      }
      TreeAgreesWithFold(l);
      TreeAgreesWithFold(r);
      ReduceAppend(Leaves(l), Leaves(r));
      CombineRespectsSameOutcome(Eval(l), Reduce(Leaves(l)), Eval(r), Reduce(Leaves(r)));
  }

  /** On normal operands the combine closure is commutative, up to which
      failure is reported. */
  lemma CombineResultsCommute(x: Result<Acc>, y: Result<Acc>)
    requires Normal(x) && Normal(y)
    ensures SameOutcome(CombineResults(x, y), CombineResults(y, x))
  {
    if x.Ok? && y.Ok? {
      CombineCommutes(x.value, y.value);
    }
  }

  /** Moving one item to the end does not change the outcome of the reduction. */
  lemma {:induction false} ReduceMoveToEnd(a: seq<Result<Acc>>, x: Result<Acc>, b: seq<Result<Acc>>)
    requires AllNormal(a) && Normal(x) && AllNormal(b)
    ensures SameOutcome(Reduce(a + [x] + b), Reduce(a + b + [x]))
  {
    assert AllNormal(a + [x]) && AllNormal(a + b);
    assert (a + [x])[..|a|] == a && (a + b + [x])[..|a + b|] == a + b;
    var ra, rb := Reduce(a), Reduce(b);
    ReduceIsNormal(a);
    ReduceIsNormal(b);
    ReduceAppend(a + [x], b);
    CombineAssociates(ra, x, rb);
    CombineResultsCommute(x, rb);
    CombineRespectsSameOutcome(ra, ra, CombineResults(x, rb), CombineResults(rb, x));
    CombineAssociates(ra, rb, x);
    ReduceAppend(a, b);
    CombineRespectsSameOutcome(CombineResults(ra, rb), Reduce(a + b), x, x);
  }

  /** Removing the same item from two orderings of the same items leaves two
      orderings of the same items. */
  lemma RemoveFromBoth(a: seq<Result<Acc>>, x: Result<Acc>, b: seq<Result<Acc>>, c: seq<Result<Acc>>)
    requires multiset(a + [x] + b) == multiset(c + [x])
    ensures multiset(a + b) == multiset(c)
  {
    assert multiset(a + [x] + b) == multiset(a) + multiset([x]) + multiset(b);
    assert multiset(c + [x]) == multiset(c) + multiset([x]);
    assert multiset(a + b) == multiset(a) + multiset(b);
    forall y ensures multiset(a + b)[y] == multiset(c)[y] {
      assert multiset(a + [x] + b)[y] == multiset(c + [x])[y];
    }
  }

  /** The outcome of the reduction does not depend on the order of the items:
      any two orderings of the same items succeed together, with the same sum
      and count. */
  lemma {:induction false} ReducePermutation(s: seq<Result<Acc>>, s': seq<Result<Acc>>)
    requires AllNormal(s) && multiset(s) == multiset(s')
    ensures SameOutcome(Reduce(s), Reduce(s'))
    decreases |s|
  {
    assert |s| == |multiset(s)| == |multiset(s')| == |s'|;
    if s != [] {
      var n := |s'|;
      var init', x := s'[..n - 1], s'[n - 1];
      assert s' == init' + [x];
      assert x in multiset(s);
      var i :| 0 <= i < |s| && s[i] == x;
      var a, b := s[..i], s[i + 1..];
      assert s == a + [x] + b;
      assert AllNormal(a) && AllNormal(b) && Normal(x);
      assert AllNormal(a + b);
      RemoveFromBoth(a, x, b, init');
      ReduceMoveToEnd(a, x, b);
      ReducePermutation(a + b, init');
      assert (a + b + [x])[..|a + b|] == a + b;
      CombineRespectsSameOutcome(Reduce(a + b), Reduce(init'), x, x);
    }
  }

  /** The final step: no image counted is an error, otherwise the sum divided
      by the count. */
  function MeanOf(acc: Acc): (r: Result<Image>)
    ensures r.Ok? <==> acc.count != 0
    ensures r.Err? ==> r.error == NoImagesToAverage
    ensures r.Ok? ==> SameShape(r.value, acc.sum)
    ensures r.Ok? ==> forall k :: 0 <= k < |r.value.data| ==> r.value.data[k] * (acc.count as real) == acc.sum.data[k]
  {
    if acc.count == 0 then Err(NoImagesToAverage) else Ok(Divide(acc.sum, acc.count))
  }

  /** The map step: a loaded file counts once, and an image with no element
      contributes the identity, so that it counts nothing. */
  function Contribution(f: RawFile): (r: Result<Acc>)
    ensures Normal(r)
    ensures r.Ok? <==> Load(f).Ok?
    ensures r.Err? ==> r.error == Load(f).error
    ensures r.Ok? ==> (if IsEmpty(Load(f).value.img) then r.value == Identity()
                       else r.value == Acc(Load(f).value.img, 1))
  {
    var loaded :- Load(f);
    Ok(if IsEmpty(loaded.img) then Identity() else Acc(loaded.img, 1))
  }

  function Contributions(fs: FileSystem, paths: seq<Path>): (items: seq<Result<Acc>>)
    ensures |items| == |paths| && AllNormal(items)
    ensures forall m :: 0 <= m < |paths| ==> items[m] == Contribution(fs(paths[m]))
  {
    seq(|paths|, m requires 0 <= m < |paths| => Contribution(fs(paths[m])))
  }

  /** `compute_mean_image`: the element-wise mean of the images at `paths`. It
      succeeds only when every file loads, and a failure is the failure of one
      of the files, a shape mismatch, or that no image was counted. */
  function MeanImage(fs: FileSystem, paths: seq<Path>): (r: Result<Image>)
    ensures paths == [] ==> r == Err(NoImagesToAverage)
    ensures r.Ok? ==> forall m :: 0 <= m < |paths| ==> Load(fs(paths[m])).Ok?
    ensures r.Err? ==> (r.error == NoImagesToAverage || r.error == ShapeMismatch ||
                        exists m :: 0 <= m < |paths| && Load(fs(paths[m])) == Err(r.error))
  {
    var acc :- Reduce(Contributions(fs, paths));
    MeanOf(acc)
  }

  /** Every parallel reduction of the mapped paths, however bracketed, gives the
      sequential mean. */
  lemma MeanIsTreeIndependent(fs: FileSystem, paths: seq<Path>, t: ReduceTree)
    requires Leaves(t) == Contributions(fs, paths)
    ensures var r := (var acc :- Eval(t); MeanOf(acc));
      (r.Ok? <==> MeanImage(fs, paths).Ok?) && (r.Ok? ==> r == MeanImage(fs, paths))
  {
    TreeAgreesWithFold(t);
  }

  /** An empty path list has nothing to average. */
  lemma MeanOfNoPaths(fs: FileSystem)
    ensures MeanImage(fs, []) == Err(NoImagesToAverage)
  {
  }

  /** One file that fails to load makes the whole mean fail. */
  lemma MeanFailsOnLoadFailure(fs: FileSystem, paths: seq<Path>, m: nat)
    requires m < |paths| && Load(fs(paths[m])).Err?
    ensures MeanImage(fs, paths).Err?
  {
    assert Contributions(fs, paths)[m] in Contributions(fs, paths);
  }

  /** Number of loaded items whose image has elements. */
  function FrameCount(items: seq<Result<Acc>>): nat {
    if items == [] then 0
    else FrameCount(items[..|items| - 1])
         + (var x := items[|items| - 1]; if x.Ok? && !IsEmpty(x.value.sum) then 1 else 0)
  }

  /** An item as the map step produces it from a file that loaded. */
  predicate IsLoadedFrame(x: Result<Acc>) {
    x.Ok? && (x.value == Identity() || (!IsEmpty(x.value.sum) && x.value.count == 1))
  }

  /** Reducing loaded items: the count is the number of non-empty images, the
      identity remains exactly when there is none, every non-empty image has
      the result's shape, and the only possible failure is a shape mismatch. */
  lemma {:induction false} ReduceOfLoadedFrames(items: seq<Result<Acc>>)
    requires forall m :: 0 <= m < |items| ==> IsLoadedFrame(items[m])
    ensures Reduce(items).Err? ==> Reduce(items).error == ShapeMismatch
    ensures FrameCount(items) == 0 ==> Reduce(items) == Ok(Identity())
    ensures Reduce(items).Ok? ==>
      && Reduce(items).value.count == FrameCount(items)
      && (FrameCount(items) == 0 <==> Reduce(items).value == Identity())
      && forall m :: 0 <= m < |items| && items[m].Ok? && !IsEmpty(items[m].value.sum) ==>
           SameShape(items[m].value.sum, Reduce(items).value.sum)
  {
    if items != [] {
      var init, last := items[..|items| - 1], items[|items| - 1];
      assert forall m :: 0 <= m < |init| ==> init[m] == items[m];
      ReduceOfLoadedFrames(init);
      var r := Reduce(items);
      if r.Ok? {
        forall m | 0 <= m < |items| && items[m].Ok? && !IsEmpty(items[m].value.sum)
          ensures SameShape(items[m].value.sum, r.value.sum)
        {
          if m < |init| {
            assert init[m] == items[m];
          }
        }
      }
    }
  }

  /** Two non-empty images of different shapes in one reference set make the
      mean fail with a shape mismatch. */
  lemma MeanRejectsMixedShapes(fs: FileSystem, paths: seq<Path>, i: nat, j: nat)
    requires forall m :: 0 <= m < |paths| ==> Load(fs(paths[m])).Ok?
    requires i < |paths| && j < |paths|
    requires !IsEmpty(Load(fs(paths[i])).value.img) && !IsEmpty(Load(fs(paths[j])).value.img)
    requires !SameShape(Load(fs(paths[i])).value.img, Load(fs(paths[j])).value.img)
    ensures MeanImage(fs, paths) == Err(ShapeMismatch)
  {
    var items := Contributions(fs, paths);
    ReduceOfLoadedFrames(items);
    assert items[i].value.sum == Load(fs(paths[i])).value.img;
    assert items[j].value.sum == Load(fs(paths[j])).value.img;
  }

  /** Images with no element are not counted: when every file loads an empty
      image there is nothing to average. */
  lemma MeanOfOnlyEmptyImages(fs: FileSystem, paths: seq<Path>)
    requires forall m :: 0 <= m < |paths| ==> Load(fs(paths[m])).Ok? && IsEmpty(Load(fs(paths[m])).value.img)
    ensures MeanImage(fs, paths) == Err(NoImagesToAverage)
  {
    var items := Contributions(fs, paths);
    assert forall m :: 0 <= m < |items| ==> items[m] == Ok(Identity());
    ReduceOfLoadedFrames(items);
    NoFramesAmongIdentities(items);
  }

  lemma {:induction false} NoFramesAmongIdentities(items: seq<Result<Acc>>)
    requires forall m :: 0 <= m < |items| ==> items[m] == Ok(Identity())
    ensures FrameCount(items) == 0
  {
    if items != [] {
      NoFramesAmongIdentities(items[..|items| - 1]);
    }
  }

  /** Pixel k summed over a sequence of images. */
  function PixelSum(imgs: seq<Image>, k: nat): real
    requires forall m :: 0 <= m < |imgs| ==> k < |imgs[m].data|
  {
    if imgs == [] then 0.0 else PixelSum(imgs[..|imgs| - 1], k) + imgs[|imgs| - 1].data[k]
  }

  /** Images of one shape, each counted once. */
  predicate FramesOfShape(imgs: seq<Image>, rows: nat, cols: nat) {
    forall m :: 0 <= m < |imgs| ==> imgs[m].rows == rows && imgs[m].cols == cols
  }

  /** Reducing non-empty images of one shape, each counted once, gives their
      element-wise sum and their number. */
  lemma {:induction false} ReduceSumsFrames(imgs: seq<Image>, rows: nat, cols: nat)
    requires |imgs| > 0 && rows * cols > 0 && FramesOfShape(imgs, rows, cols)
    ensures var r := Reduce(seq(|imgs|, m requires 0 <= m < |imgs| => Ok(Acc(imgs[m], 1))));
      && r.Ok? && r.value.count == |imgs|
      && r.value.sum.rows == rows && r.value.sum.cols == cols
      && forall k :: 0 <= k < rows * cols ==> r.value.sum.data[k] == PixelSum(imgs, k)
  {
    var n := |imgs|;
    var items := seq(n, m requires 0 <= m < n => Ok(Acc(imgs[m], 1)));
    var init := imgs[..n - 1];
    var last := imgs[n - 1];
    assert items[..n - 1] == seq(n - 1, m requires 0 <= m < n - 1 => Ok(Acc(init[m], 1)));
    if n == 1 {
      assert items[..0] == [];
    } else {
      assert FramesOfShape(init, rows, cols);
      ReduceSumsFrames(init, rows, cols);
    }
  }

  /** The images at `paths`, when every one of them loads. */
  function LoadedImages(fs: FileSystem, paths: seq<Path>): (imgs: seq<Image>)
    requires forall m :: 0 <= m < |paths| ==> Load(fs(paths[m])).Ok?
    ensures |imgs| == |paths|
    ensures forall m :: 0 <= m < |paths| ==> imgs[m] == Load(fs(paths[m])).value.img
  {
    seq(|paths|, m requires 0 <= m < |paths| => Load(fs(paths[m])).value.img)
  }

  /** For n >= 1 files that load non-empty images of one shape, the mean has
      that shape and each pixel is the sum of that pixel over the n images
      divided by n. */
  lemma MeanIsPixelAverage(fs: FileSystem, paths: seq<Path>, rows: nat, cols: nat)
    requires |paths| > 0 && rows * cols > 0
    requires forall m :: 0 <= m < |paths| ==>
      Load(fs(paths[m])).Ok? && Load(fs(paths[m])).value.img.rows == rows && Load(fs(paths[m])).value.img.cols == cols
    ensures MeanImage(fs, paths).Ok?
    ensures MeanImage(fs, paths).value.rows == rows && MeanImage(fs, paths).value.cols == cols
    ensures forall k :: 0 <= k < rows * cols ==>
      MeanImage(fs, paths).value.data[k] == PixelSum(LoadedImages(fs, paths), k) / (|paths| as real)
  {
    var imgs := LoadedImages(fs, paths);
    assert FramesOfShape(imgs, rows, cols);
    ReduceSumsFrames(imgs, rows, cols);
    assert Contributions(fs, paths) == seq(|imgs|, m requires 0 <= m < |imgs| => Ok(Acc(imgs[m], 1)));
  }

  /** The mean of a single non-empty image is that image. */
  lemma MeanOfOnePath(fs: FileSystem, p: Path)
    requires Load(fs(p)).Ok? && !IsEmpty(Load(fs(p)).value.img)
    ensures MeanImage(fs, [p]) == Ok(Load(fs(p)).value.img)
  {
    var img := Load(fs(p)).value.img;
    var items := Contributions(fs, [p]);
    assert items == [Ok(Acc(img, 1))];
    assert items[..0] == [];
    assert Reduce(items) == Ok(Acc(img, 1));
    assert Divide(img, 1).data == img.data;
  }

  // The map step exactly as the source writes it: every loaded image counts
  // once, also one with no element.

  function ContributionAsWritten(f: RawFile): (r: Result<Acc>)
    ensures r.Ok? <==> Load(f).Ok?
    ensures r.Err? ==> r.error == Load(f).error
    ensures r.Ok? ==> r.value == Acc(Load(f).value.img, 1)
  {
    var loaded :- Load(f);
    Ok(Acc(loaded.img, 1))
  }

  function ContributionsAsWritten(fs: FileSystem, paths: seq<Path>): (items: seq<Result<Acc>>)
    ensures |items| == |paths|
    ensures forall m :: 0 <= m < |paths| ==> items[m] == ContributionAsWritten(fs(paths[m]))
  {
    seq(|paths|, m requires 0 <= m < |paths| => ContributionAsWritten(fs(paths[m])))
  }

  /** `compute_mean_image` with the map step as written. */
  function MeanImageAsWritten(fs: FileSystem, paths: seq<Path>): (r: Result<Image>)
    ensures paths == [] ==> r == Err(NoImagesToAverage)
    ensures r.Ok? ==> forall m :: 0 <= m < |paths| ==> Load(fs(paths[m])).Ok?
  {
    var acc :- Reduce(ContributionsAsWritten(fs, paths));
    MeanOf(acc)
  }

  /** An item of the corrected map step next to the same file's item as
      written: equal, or the identity next to an empty image counted once. */
  predicate AgreeUpToEmpty(c: Result<Acc>, w: Result<Acc>) {
    c == w || (c == Ok(Identity()) && w.Ok? && IsEmpty(w.value.sum))
  }

  /** The corrected fold and the fold as written stay related item by item:
      they differ at most while no non-empty image has been combined. */
  lemma {:induction false} FoldsAgreeUpToEmpty(cs: seq<Result<Acc>>, ws: seq<Result<Acc>>)
    requires |cs| == |ws| && AllNormal(cs)
    requires forall m :: 0 <= m < |cs| ==> AgreeUpToEmpty(cs[m], ws[m])
    ensures AgreeUpToEmpty(Reduce(cs), Reduce(ws))
  {
    if cs != [] {
      var n := |cs|;
      var ci, wi := cs[..n - 1], ws[..n - 1];
      assert AllNormal(ci);
      assert forall m :: 0 <= m < n - 1 ==> AgreeUpToEmpty(ci[m], wi[m]);
      FoldsAgreeUpToEmpty(ci, wi);
      ReduceIsNormal(cs[..n - 1]);
      assert AgreeUpToEmpty(cs[n - 1], ws[n - 1]);
    }
  }

  /** Once a non-empty image is among the items, a successful fold has a
      non-empty sum. */
  lemma {:induction false} ReduceKeepsFrames(items: seq<Result<Acc>>, m: nat)
    requires m < |items| && items[m].Ok? && !IsEmpty(items[m].value.sum)
    requires Reduce(items).Ok?
    ensures !IsEmpty(Reduce(items).value.sum)
  {
    var n := |items|;
    assert items[n - 1] in items && Reduce(items[..n - 1]).Ok?;
    if m < n - 1 {
      assert items[..n - 1][m] == items[m];
      ReduceKeepsFrames(items[..n - 1], m);
    }
  }

  /** The map step as written and the corrected one give the same mean
      whenever some file loads a non-empty image: the two differ only for a
      reference set whose loaded images all have no element. */
  lemma MeanImageAgreesAsWritten(fs: FileSystem, paths: seq<Path>, m: nat)
    requires m < |paths| && Load(fs(paths[m])).Ok? && !IsEmpty(Load(fs(paths[m])).value.img)
    ensures MeanImageAsWritten(fs, paths) == MeanImage(fs, paths)
  {
    var cs, ws := Contributions(fs, paths), ContributionsAsWritten(fs, paths);
    FoldsAgreeUpToEmpty(cs, ws);
    if Reduce(cs).Ok? {
      ReduceKeepsFrames(cs, m);
    }
  }

  /** With the map step as written, a file whose image has no element (a 0-by-5
      matrix) is averaged into an empty image instead of reporting that there is
      nothing to average; and the identity is not a right unit for its pair, so a
      reduction that combines it with an identity call on its right counts
      nothing while the fold counts it once. */
  lemma EmptyFrameCountedAsWritten(fs: FileSystem, p: Path)
    requires fs(p) == ImageHdu([0, 5], [], None, None)
    ensures MeanImageAsWritten(fs, [p]) == Ok(Grid(0, 5, []))
    ensures MeanImage(fs, [p]) == Err(NoImagesToAverage)
    ensures var x := ContributionAsWritten(fs(p));
      Eval(Join(Leaf(x), Unit)) == Ok(Identity()) && Reduce([x]) == Ok(Acc(Grid(0, 5, []), 1))
  {
    ProductOfTwo([0, 5]);
    var x := ContributionAsWritten(fs(p));
    assert x == Ok(Acc(Grid(0, 5, []), 1));
    assert [x][..0] == [];
    var items := ContributionsAsWritten(fs, [p]);
    assert items == [x];
    assert Reduce(items) == CombineResults(Reduce([]), x) == x;
    assert Divide(Grid(0, 5, []), 1) == Grid(0, 5, []);
    MeanOfOnlyEmptyImages(fs, [p]);
  }
}
