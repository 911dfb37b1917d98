/** The image loader (`read_fits_image`) after file access: the primary HDU's
    outcome is given as a `RawFile`, and the loader normalises its payload to a
    single two-dimensional image while keeping the two header values optional. */
module Loader {
  import opened Outcomes
  import opened Arrays

  type Path = string

  /** What reading one file's primary HDU produces. The header values are the
      outcome of reading the `LBT_PARA` and `PCJD` keys and parsing them as
      numbers: absent or unparsable is `None`. The shape lists the extents
      slowest axis first, so the payload is row-major in that shape. */
  datatype RawFile =
    | Unreadable
    | NonImageHdu
    | ImageHdu(shape: seq<nat>, pixels: seq<real>, lbtPara: Option<real>, pcjd: Option<real>)

  /** The files the reducer and the pipeline can open, by path. */
  type FileSystem = Path -> RawFile

  /** One loaded file: the image and the two optional header values. */
  datatype Loaded = Loaded(img: Image, rotation: Option<real>, timestamp: Option<real>)

  /** The rank policy: a matrix is used as it is, a cube gives its last plane
      along axis 0, any other rank is refused. */
  function ToMatrix(a: ArrayD): (r: Result<Image>)
    ensures r.Ok? <==> |a.shape| == 2 || (|a.shape| == 3 && a.shape[0] > 0)
    ensures |a.shape| == 2 ==> r.Ok? && r.value.rows == a.shape[0] && r.value.cols == a.shape[1] && r.value.data == a.data
    ensures |a.shape| == 3 && a.shape[0] > 0 ==> r.Ok? && r.value.rows == a.shape[1] && r.value.cols == a.shape[2]
    ensures |a.shape| == 3 && a.shape[0] == 0 ==> r == Err(EmptyCube(a.shape))
    ensures |a.shape| != 2 && |a.shape| != 3 ==> r == Err(UnsupportedDimensions(a.shape))
  {
    if |a.shape| == 2 then
      ProductOfTwo(a.shape);
      Ok(Grid(a.shape[0], a.shape[1], a.data))
    else if |a.shape| == 3 then
      if a.shape[0] == 0 then Err(EmptyCube(a.shape))
      else Ok(IndexAxis0(a, a.shape[0] - 1))
    else
      Err(UnsupportedDimensions(a.shape))
  }

  /** A matrix is used unchanged: its pixel (i, j) is the array's element (i, j). */
  lemma MatrixKeepsElements(a: ArrayD, i: nat, j: nat)
    requires |a.shape| == 2 && i < a.shape[0] && j < a.shape[1]
    ensures InBounds(a.shape, [i, j])
    ensures At(ToMatrix(a).value, i, j) == Element(a, [i, j])
  {
    assert InBounds(a.shape, [i, j]);
    OffsetOfTwo(a.shape, [i, j]);
  }

  /** A cube (k, h, w) with k >= 1 gives its last frame: pixel (i, j) is the
      cube's element (k-1, i, j), at payload position (k-1)*h*w + i*w + j. */
  lemma CubeGivesLastFrame(a: ArrayD, i: nat, j: nat)
    requires |a.shape| == 3 && a.shape[0] > 0 && i < a.shape[1] && j < a.shape[2]
    ensures InBounds(a.shape, [a.shape[0] - 1, i, j])
    ensures (a.shape[0] - 1) * (a.shape[1] * a.shape[2]) + i * a.shape[2] + j < |a.data|
    ensures At(ToMatrix(a).value, i, j) == Element(a, [a.shape[0] - 1, i, j])
    ensures At(ToMatrix(a).value, i, j) == a.data[(a.shape[0] - 1) * (a.shape[1] * a.shape[2]) + i * a.shape[2] + j]
  {
    IndexAxis0Element(a, a.shape[0] - 1, i, j);
  }

  /** `read_fits_image`: load one file, reshape its payload and apply the rank
      policy; the header values are passed through as they were read. */
  function Load(f: RawFile): (r: Result<Loaded>)
    ensures f.Unreadable? ==> r == Err(IoError)
    ensures f.NonImageHdu? ==> r == Err(NotAnImage)
    ensures f.ImageHdu? ==>
      (r.Ok? <==> |f.pixels| == Product(f.shape) && (|f.shape| == 2 || (|f.shape| == 3 && f.shape[0] > 0)))
    ensures f.ImageHdu? && |f.pixels| != Product(f.shape) ==> r == Err(IncompatibleShape(f.shape, |f.pixels|))
    ensures f.ImageHdu? && |f.pixels| == Product(f.shape) && |f.shape| != 2 && |f.shape| != 3 ==>
      r == Err(UnsupportedDimensions(f.shape))
    ensures f.ImageHdu? && |f.pixels| == Product(f.shape) && |f.shape| == 3 && f.shape[0] == 0 ==>
      r == Err(EmptyCube(f.shape))
    ensures r.Ok? ==> r.value.rotation == f.lbtPara && r.value.timestamp == f.pcjd
    ensures r.Ok? && |f.shape| == 2 ==>
      r.value.img.rows == f.shape[0] && r.value.img.cols == f.shape[1] && r.value.img.data == f.pixels
    ensures r.Ok? && |f.shape| == 3 ==> r.value.img.rows == f.shape[1] && r.value.img.cols == f.shape[2]
  {
    match f
    case Unreadable => Err(IoError)
    case NonImageHdu => Err(NotAnImage)
    case ImageHdu(shape, pixels, lbtPara, pcjd) =>
      var a :- FromShapeVec(shape, pixels);
      var img :- ToMatrix(a);
      Ok(Loaded(img, lbtPara, pcjd))
  }

  /** A two-dimensional file yields an image of its extents holding its payload
      unchanged, read in row-major order. */
  lemma LoadMatrix(shape: seq<nat>, pixels: seq<real>, lbtPara: Option<real>, pcjd: Option<real>, i: nat, j: nat)
    requires |shape| == 2 && |pixels| == shape[0] * shape[1]
    requires i < shape[0] && j < shape[1]
    ensures Load(ImageHdu(shape, pixels, lbtPara, pcjd)) == Ok(Loaded(Grid(shape[0], shape[1], pixels), lbtPara, pcjd))
    ensures i * shape[1] + j < |pixels|
    ensures At(Load(ImageHdu(shape, pixels, lbtPara, pcjd)).value.img, i, j) == pixels[i * shape[1] + j]
  {
    ProductOfTwo(shape);
    RowMajorInRange(i, j, shape[0], shape[1]);
  }

  /** Loading a cube (k, h, w) gives the same record as loading a two-dimensional
      file that holds only its last frame. */
  lemma {:induction false} CubeLoadsAsLastFrame(k: nat, h: nat, w: nat, pixels: seq<real>,
                                                lbtPara: Option<real>, pcjd: Option<real>)
    requires k > 0 && |pixels| == k * (h * w)
    ensures (k - 1) * (h * w) <= k * (h * w)
    ensures Load(ImageHdu([k, h, w], pixels, lbtPara, pcjd))
         == Load(ImageHdu([h, w], pixels[(k - 1) * (h * w) .. k * (h * w)], lbtPara, pcjd))
  {
    PlaneInPayload(k, k - 1, h * w);
    ProductOfThree([k, h, w]);
    ProductOfTwo([h, w]);
  }
}
