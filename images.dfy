/** Images as the editor sees them: a rectangular grid of 8-bit BGR pixels
    (what `cv::imread` with `IMREAD_COLOR` produces), and the two pixel
    rearrangements that the model defines concretely: cropping to a
    sub-rectangle and mirroring about an axis. Every other pixel transform
    belongs to the image library and is a parameter of the handlers. */
module Images {

  newtype Byte = x: int | 0 <= x < 256

  datatype Pixel = Pixel(blue: Byte, green: Byte, red: Byte)

  /** A matrix of pixels, row by row. */
  datatype Mat = Mat(data: seq<seq<Pixel>>) {

    /** Every row has the length of the first one. */
    predicate Rectangular() {
      forall i :: 0 <= i < |data| ==> |data[i]| == |data[0]|
    }

    function Rows(): nat {
      |data|
    }

    function Cols(): nat {
      if data == [] then 0 else |data[0]|
    }

    /** A matrix without pixels, like a default-constructed `cv::Mat`. */
    predicate IsEmpty() {
      Rows() == 0 || Cols() == 0
    }
  }

  type Image = m: Mat | m.Rectangular() witness Mat([])

  /** The image with no pixels. */
  const Blank: Image := Mat([])

  /** The `w` by `h` block of `img` whose top-left pixel is at column `x`,
      row `y`, copied out (`img(cv::Rect(x, y, w, h)).clone()`). */
  function Region(img: Image, x: nat, y: nat, w: nat, h: nat): (r: Image)
    requires x + w <= img.Cols() && y + h <= img.Rows()
    ensures r.Rows() == h && (h > 0 ==> r.Cols() == w)
    ensures forall i, j :: 0 <= i < h && 0 <= j < w ==> r.data[i][j] == img.data[y + i][x + j]
  {
    Mat(seq(h, i requires 0 <= i < h => img.data[y + i][x .. x + w]))
  }

  /** The two axes of `cv::flip`: flip code 1 mirrors left to right, flip
      code 0 mirrors top to bottom. */
  datatype Axis = Horizontal | Vertical

  function Mirror(row: seq<Pixel>): (r: seq<Pixel>)
    ensures |r| == |row|
    ensures forall j :: 0 <= j < |row| ==> r[j] == row[|row| - 1 - j]
  {
    seq(|row|, j requires 0 <= j < |row| => row[|row| - 1 - j])
  }

  /** `img` mirrored about `axis`. */
  function Flip(img: Image, axis: Axis): (r: Image)
    ensures r.Rows() == img.Rows() && r.Cols() == img.Cols()
    ensures axis == Horizontal ==>
      forall i, j :: 0 <= i < img.Rows() && 0 <= j < img.Cols() ==>
        r.data[i][j] == img.data[i][img.Cols() - 1 - j]
    ensures axis == Vertical ==>
      forall i, j :: 0 <= i < img.Rows() && 0 <= j < img.Cols() ==>
        r.data[i][j] == img.data[img.Rows() - 1 - i][j]
  {
    var n := img.Rows();
    match axis
    case Horizontal => Mat(seq(n, i requires 0 <= i < n => Mirror(img.data[i])))
    case Vertical => Mat(seq(n, i requires 0 <= i < n => img.data[n - 1 - i]))
  }

  /** Two images agree pixel by pixel and have the same shape only if they
      are the same image. */
  lemma {:induction false} SameImage(a: Image, b: Image)
    requires a.Rows() == b.Rows() && a.Cols() == b.Cols()
    requires forall i, j :: 0 <= i < a.Rows() && 0 <= j < a.Cols() ==> a.data[i][j] == b.data[i][j]
    ensures a == b
  {
    forall i | 0 <= i < a.Rows()
      ensures a.data[i] == b.data[i]
    {
      assert |a.data[i]| == a.Cols() && |b.data[i]| == b.Cols();
    }
  }

  /** Mirroring twice about the same axis gives back the image. */
  lemma FlipInvolution(img: Image, axis: Axis)
    ensures Flip(Flip(img, axis), axis) == img
  {
    SameImage(Flip(Flip(img, axis), axis), img);
  }
}
