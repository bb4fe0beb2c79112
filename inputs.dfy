/** How the editor turns slider and text-box values into the arguments of an
    image operation: the blur kernel side, the three gates a crop request
    must pass, and the centred origin of the crop. */
module Inputs {
  import opened Wrappers
  import opened Images

  /** The side of the Gaussian blur kernel for a blur slider value: an even
      value is rounded up to the next odd one, and the result is clamped to
      [1, 31]. The test `slider % 2 == 0` gives the same answer under C++'s
      truncating `%` and Dafny's Euclidean `%`, and the `+ 1` is applied only
      to even values, so it cannot overflow a 32-bit `int`. */
  function KernelSize(slider: int): (k: int)
    ensures k % 2 == 1 && 1 <= k <= 31
    ensures 1 <= slider <= 31 ==> slider <= k <= slider + 1
    ensures slider > 31 ==> k == 31
    ensures slider < 1 ==> k == 1
  {
    var odd := if slider % 2 == 0 then slider + 1 else slider;
    if odd < 1 then 1 else if odd > 31 then 31 else odd
  }

  /** The top-left corner of a `w` by `h` crop centred in a `cols` by `rows`
      image. C++ `/` truncates toward zero; for an accepted crop the
      numerators are non-negative, where truncation and Dafny's `/` agree. */
  function CropOrigin(cols: int, rows: int, w: int, h: int): (origin: (int, int))
    ensures 0 < w <= cols ==>
      var left := origin.0; var right := cols - (origin.0 + w);
      0 <= left <= right <= left + 1
    ensures 0 < h <= rows ==>
      var top := origin.1; var bottom := rows - (origin.1 + h);
      0 <= top <= bottom <= top + 1
  {
    ((cols - w) / 2, (rows - h) / 2)
  }

  /** What the crop button makes of a request, in the order the handler
      tests it. */
  datatype CropVerdict =
    | NoImage        // nothing loaded: the handler returns silently
    | InvalidNumber  // a text box does not hold an integer
    | NonPositive    // a dimension is zero or negative
    | ExceedsImage   // the crop is wider or taller than the image
    | Accepted

  /** The gates of the crop button for an original `img` and the parsed
      contents of the two text boxes (`None` when `toInt` fails). */
  function CropGate(img: Image, width: Option<int>, height: Option<int>): (v: CropVerdict)
    ensures v == Accepted <==>
      !img.IsEmpty() && width.Some? && height.Some? &&
      0 < width.value <= img.Cols() && 0 < height.value <= img.Rows()
    ensures v == NoImage <==> img.IsEmpty()
    ensures v == InvalidNumber <==> !img.IsEmpty() && (width.None? || height.None?)
    ensures v == NonPositive <==>
      !img.IsEmpty() && width.Some? && height.Some? && (width.value <= 0 || height.value <= 0)
    ensures v == ExceedsImage <==>
      !img.IsEmpty() && width.Some? && height.Some? && 0 < width.value && 0 < height.value &&
      (width.value > img.Cols() || height.value > img.Rows())
  {
    if img.IsEmpty() then NoImage
    else if width.None? || height.None? then InvalidNumber
    else if width.value <= 0 || height.value <= 0 then NonPositive
    else if width.value > img.Cols() || height.value > img.Rows() then ExceedsImage
    else Accepted
  }
}
