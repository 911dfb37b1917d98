/** The parts of `ndarray` the core relies on: two-dimensional images with
    element-wise arithmetic, N-dimensional arrays built from a flat payload in
    row-major order, and selecting one plane of a cube along axis 0. */
module Arrays {
  import opened Outcomes

  /** A raster in row-major order: pixel (i, j) is `data[i * cols + j]`. */
  datatype Grid = Grid(rows: nat, cols: nat, data: seq<real>)

  /** An `Array2<f32>`: a raster holding exactly `rows * cols` pixels. */
  type Image = g: Grid | |g.data| == g.rows * g.cols witness Grid(0, 0, [])

  lemma RowMajorInRange(i: nat, j: nat, rows: nat, cols: nat)
    requires i < rows && j < cols
    ensures i * cols + j < rows * cols
  {
    calc {
      i * cols + j;
    <
      (i + 1) * cols;
    <= { MulMonotone(i + 1, rows, cols); }
      rows * cols;
    }
  }

  lemma MulMonotone(a: nat, b: nat, c: nat)
    requires a <= b
    ensures a * c <= b * c
  {
  }

  /** Pixel (i, j) of an image. */
  function At(img: Image, i: nat, j: nat): real
    requires i < img.rows && j < img.cols
  {
    RowMajorInRange(i, j, img.rows, img.cols);
    img.data[i * img.cols + j]
  }

  predicate SameShape(a: Image, b: Image) {
    a.rows == b.rows && a.cols == b.cols
  }

  /** `is_empty()`: the image has no element (one of its extents is zero). */
  predicate IsEmpty(img: Image) {
    |img.data| == 0
  }

  /** `a + &b` on images of equal shape. */
  function Add(a: Image, b: Image): (r: Image)
    requires SameShape(a, b)
    ensures SameShape(r, a)
    ensures forall k :: 0 <= k < |r.data| ==> r.data[k] == a.data[k] + b.data[k]
  {
    Grid(a.rows, a.cols, seq(|a.data|, k requires 0 <= k < |a.data| => a.data[k] + b.data[k]))
  }

  /** `a - &b` on images of equal shape. */
  function Subtract(a: Image, b: Image): (r: Image)
    requires SameShape(a, b)
    ensures SameShape(r, a)
    ensures forall k :: 0 <= k < |r.data| ==> r.data[k] == a.data[k] - b.data[k]
  {
    Grid(a.rows, a.cols, seq(|a.data|, k requires 0 <= k < |a.data| => a.data[k] - b.data[k]))
  }

  /** `img / n`: every pixel divided by a positive scalar. */
  function Divide(img: Image, n: nat): (r: Image)
    requires n > 0
    ensures SameShape(r, img)
    ensures forall k :: 0 <= k < |r.data| ==> r.data[k] * (n as real) == img.data[k]
  {
    Grid(img.rows, img.cols, seq(|img.data|, k requires 0 <= k < |img.data| => img.data[k] / (n as real)))
  }

  lemma {:induction false} AddCommutes(a: Image, b: Image)
    requires SameShape(a, b)
    ensures Add(a, b) == Add(b, a)
  {
    assert Add(a, b).data == Add(b, a).data;
  }

  lemma {:induction false} AddAssociates(a: Image, b: Image, c: Image)
    requires SameShape(a, b) && SameShape(b, c)
    ensures Add(Add(a, b), c) == Add(a, Add(b, c))
  {
    assert Add(Add(a, b), c).data == Add(a, Add(b, c)).data;
  }

  /** Number of elements of an array of the given extents (the product of the extents). */
  function Product(extents: seq<nat>): nat {
    if extents == [] then 1 else extents[0] * Product(extents[1..])
  }

  lemma ProductOfTwo(extents: seq<nat>)
    requires |extents| == 2
    ensures Product(extents) == extents[0] * extents[1]
  {
    var tail := extents[1..];
    assert tail[1..] == [];
    assert Product(tail) == tail[0] * Product(tail[1..]) == extents[1];
  }

  lemma ProductOfThree(extents: seq<nat>)
    requires |extents| == 3
    ensures Product(extents) == extents[0] * (extents[1] * extents[2])
  {
    ProductOfTwo(extents[1..]);
  }

  /** An N-dimensional array: extents slowest axis first and a flat payload. */
  datatype Tensor = Tensor(shape: seq<nat>, data: seq<real>)

  /** An `ArrayD<f32>`: the payload holds exactly one value per multi-index. */
  type ArrayD = t: Tensor | |t.data| == Product(t.shape) witness Tensor([], [0.0])

  /** `idx` is a multi-index within `shape`. */
  predicate InBounds(shape: seq<nat>, idx: seq<nat>) {
    |idx| == |shape| && forall d :: 0 <= d < |idx| ==> idx[d] < shape[d]
  }

  /** Row-major (C order) position of a multi-index: the last axis varies fastest. */
  function Offset(shape: seq<nat>, idx: seq<nat>): nat
    requires |idx| == |shape|
  {
    if shape == [] then 0 else idx[0] * Product(shape[1..]) + Offset(shape[1..], idx[1..])
  }

  /** Every multi-index within the extents has a position inside the payload. */
  lemma {:induction false} OffsetInRange(shape: seq<nat>, idx: seq<nat>)
    requires InBounds(shape, idx)
    ensures Offset(shape, idx) < Product(shape)
  {
    if shape != [] {
      var p := Product(shape[1..]);
      assert InBounds(shape[1..], idx[1..]);
      OffsetInRange(shape[1..], idx[1..]);
      calc {
        Offset(shape, idx);
      ==
        idx[0] * p + Offset(shape[1..], idx[1..]);
      <
        (idx[0] + 1) * p;
      <= { MulMonotone(idx[0] + 1, shape[0], p); }
        shape[0] * p;
      }
    }
  }

  /** A position below `p` and a multiple of `p` determine each other: the
      digits of a mixed-radix number are unique. */
  lemma DigitsUnique(a: nat, b: nat, x: nat, y: nat, p: nat)
    requires x < p && y < p && a * p + x == b * p + y
    ensures a == b && x == y
  {
    if a < b {
      assert (a + 1) * p == a * p + p;
      MulMonotone(a + 1, b, p);
    } else if b < a {
      assert (b + 1) * p == b * p + p;
      MulMonotone(b + 1, a, p);
    }
  }

  /** Distinct multi-indices have distinct positions: the row-major layout never
      stores two elements in the same slot. */
  lemma {:induction false} OffsetInjective(shape: seq<nat>, idx: seq<nat>, jdx: seq<nat>)
    requires InBounds(shape, idx) && InBounds(shape, jdx)
    requires Offset(shape, idx) == Offset(shape, jdx)
    ensures idx == jdx
  {
    if shape != [] {
      var p := Product(shape[1..]);
      assert InBounds(shape[1..], idx[1..]) && InBounds(shape[1..], jdx[1..]);
      OffsetInRange(shape[1..], idx[1..]);
      OffsetInRange(shape[1..], jdx[1..]);
      DigitsUnique(idx[0], jdx[0], Offset(shape[1..], idx[1..]), Offset(shape[1..], jdx[1..]), p);
      OffsetInjective(shape[1..], idx[1..], jdx[1..]);
      assert idx == [idx[0]] + idx[1..] && jdx == [jdx[0]] + jdx[1..];
    }
  }

  /** Element of an N-dimensional array at a multi-index. */
  function Element(a: ArrayD, idx: seq<nat>): real
    requires InBounds(a.shape, idx)
  {
    OffsetInRange(a.shape, idx);
    a.data[Offset(a.shape, idx)]
  }

  /** `ArrayD::from_shape_vec(IxDyn(shape), data)`: succeeds exactly when the
      payload length is the product of the extents. */
  function FromShapeVec(shape: seq<nat>, data: seq<real>): (r: Result<ArrayD>)
    ensures r.Ok? <==> |data| == Product(shape)
    ensures r.Ok? ==> r.value.shape == shape && r.value.data == data
    ensures r.Err? ==> r.error == IncompatibleShape(shape, |data|)
  {
    if |data| == Product(shape) then Ok(Tensor(shape, data)) else Err(IncompatibleShape(shape, |data|))
  }

  /** The quotient and remainder of a position by the size of a trailing
      block: the first digit is below the leading extent. */
  lemma LeadingDigit(p: nat, k: nat, q: nat)
    requires p < k * q
    ensures q > 0 && p / q < k && p % q < q && (p / q) * q + p % q == p
  {
    if q == 0 {
      assert false;
    }
    if p / q >= k {
      MulMonotone(k, p / q, q);
      assert false;
    }
  }

  /** The inverse of the row-major layout: the multi-index whose element is
      stored at payload position `p`. Every position has one. */
  function Unoffset(shape: seq<nat>, p: nat): (idx: seq<nat>)
    requires p < Product(shape)
    ensures InBounds(shape, idx)
    ensures Offset(shape, idx) == p
    decreases |shape|
  {
    if shape == [] then []
    else
      var q := Product(shape[1..]);
      LeadingDigit(p, shape[0], q);
      var rest := Unoffset(shape[1..], p % q);
      OffsetOfLeading(shape, p / q, rest);
      [p / q] + rest
  }

  /** The position of a multi-index split into its leading digit and the rest. */
  lemma OffsetOfLeading(shape: seq<nat>, d: nat, rest: seq<nat>)
    requires shape != [] && d < shape[0] && InBounds(shape[1..], rest)
    ensures InBounds(shape, [d] + rest)
    ensures Offset(shape, [d] + rest) == d * Product(shape[1..]) + Offset(shape[1..], rest)
  {
    var idx := [d] + rest;
    assert idx[0] == d && idx[1..] == rest;
  }

  /** Reshaping lays the payload out one to one: payload value `p` is the
      element at `Unoffset(shape, p)`, no other in-bounds multi-index is stored
      at position `p`, and every in-bounds multi-index is that of its own
      position. */
  lemma {:induction false} ReshapeIsBijective(shape: seq<nat>, data: seq<real>, p: nat)
    requires |data| == Product(shape) && p < |data|
    ensures FromShapeVec(shape, data).Ok?
    ensures Element(FromShapeVec(shape, data).value, Unoffset(shape, p)) == data[p]
    ensures forall idx :: InBounds(shape, idx) && Offset(shape, idx) == p ==> idx == Unoffset(shape, p)
    ensures forall idx :: InBounds(shape, idx) ==> Offset(shape, idx) < Product(shape) && Unoffset(shape, Offset(shape, idx)) == idx
  {
    forall idx | InBounds(shape, idx) && Offset(shape, idx) == p
      ensures idx == Unoffset(shape, p)
    {
      OffsetInjective(shape, idx, Unoffset(shape, p));
    }
    forall idx | InBounds(shape, idx)
      ensures Offset(shape, idx) < Product(shape) && Unoffset(shape, Offset(shape, idx)) == idx
    {
      OffsetInRange(shape, idx);
      OffsetInjective(shape, idx, Unoffset(shape, Offset(shape, idx)));
    }
  }

  lemma OffsetOfTwo(shape: seq<nat>, idx: seq<nat>)
    requires |shape| == 2 && |idx| == 2
    ensures Offset(shape, idx) == idx[0] * shape[1] + idx[1]
  {
    var st, it := shape[1..], idx[1..];
    assert st[1..] == [] && it[1..] == [];
    assert Product(st) == st[0] * Product(st[1..]) == shape[1];
    assert Offset(st, it) == it[0] * Product(st[1..]) + Offset(st[1..], it[1..]) == idx[1];
  }

  lemma OffsetOfThree(shape: seq<nat>, idx: seq<nat>)
    requires |shape| == 3 && |idx| == 3
    ensures Offset(shape, idx) == idx[0] * (shape[1] * shape[2]) + idx[1] * shape[2] + idx[2]
  {
    ProductOfTwo(shape[1..]);
    OffsetOfTwo(shape[1..], idx[1..]);
  }

  lemma PlaneInPayload(k: nat, n: nat, area: nat)
    requires n < k
    ensures n * area <= (n + 1) * area <= k * area
    ensures (n + 1) * area == n * area + area
  {
    MulMonotone(n, n + 1, area);
    MulMonotone(n + 1, k, area);
  }

  /** `index_axis(Axis(0), n)` on a cube of shape (k, h, w): its n-th h-by-w plane. */
  function IndexAxis0(a: ArrayD, n: nat): (r: Image)
    requires |a.shape| == 3 && n < a.shape[0]
    ensures r.rows == a.shape[1] && r.cols == a.shape[2]
  {
    var h, w := a.shape[1], a.shape[2];
    ProductOfThree(a.shape);
    PlaneInPayload(a.shape[0], n, h * w);
    Grid(h, w, a.data[n * (h * w) .. (n + 1) * (h * w)])
  }

  /** Pixel (i, j) of plane n is the cube's element (n, i, j), which sits at
      payload position n*h*w + i*w + j. */
  lemma {:induction false} IndexAxis0Element(a: ArrayD, n: nat, i: nat, j: nat)
    requires |a.shape| == 3 && n < a.shape[0] && i < a.shape[1] && j < a.shape[2]
    ensures InBounds(a.shape, [n, i, j])
    ensures n * (a.shape[1] * a.shape[2]) + i * a.shape[2] + j < |a.data|
    ensures At(IndexAxis0(a, n), i, j) == Element(a, [n, i, j])
    ensures At(IndexAxis0(a, n), i, j) == a.data[n * (a.shape[1] * a.shape[2]) + i * a.shape[2] + j]
  {
    var h, w := a.shape[1], a.shape[2];
    var area := h * w;
    var base := n * area;
    var inner := i * w + j;
    RowMajorInRange(i, j, h, w);
    ProductOfThree(a.shape);
    PlaneInPayload(a.shape[0], n, area);
    var plane := IndexAxis0(a, n);
    assert plane.data == a.data[base .. base + area];
    assert At(plane, i, j) == plane.data[inner] == a.data[base + inner];
    var idx := [n, i, j];
    assert InBounds(a.shape, idx);
    OffsetOfThree(a.shape, idx);
    assert Offset(a.shape, idx) == base + inner;
  }
}
