/** The `miniproj` window's editing state as an object whose handlers update
    its fields in place, with push and pop on the two stacks. Each handler is
    specified by the matching function of EditSession. */
module Window {
  import opened Wrappers
  import opened Images
  import opened Inputs
  import EditSession

  class MiniProj {
    var image: Image
    var preprocessedImage: Image
    var undoStack: seq<Image>  // top is the last element
    var redoStack: seq<Image>  // top is the last element
    var isGrayscaled: bool
    var isFlipped: bool
    var valueX: int
    var valueY: int

    /** The fields as one session value. */
    function State(): EditSession.State
      reads this
    {
      EditSession.State(image, preprocessedImage, undoStack, redoStack,
                        isGrayscaled, isFlipped, valueX, valueY)
    }

    ghost predicate Valid()
      reads this
    {
      EditSession.Valid(State())
    }

    constructor ()
      ensures Valid()
      ensures State() == EditSession.Initial()
    {
      image, preprocessedImage := Blank, Blank;
      undoStack, redoStack := [], [];
      isGrayscaled, isFlipped := false, false;
      valueX, valueY := 0, 0;
    }

    /** Pops the undo stack until it is empty. */
    method ClearUndo()
      modifies this`undoStack
      ensures undoStack == []
    {
      while undoStack != []
        decreases |undoStack|
      {
        undoStack := undoStack[..|undoStack| - 1];
      }
    }

    /** Pops the redo stack until it is empty. */
    method ClearRedo()
      modifies this`redoStack
      ensures redoStack == []
    {
      while redoStack != []
        decreases |redoStack|
      {
        redoStack := redoStack[..|redoStack| - 1];
      }
    }

    method SaveCurrentState()
      modifies this`undoStack, this`redoStack
      ensures State() == EditSession.SaveCurrentState(old(State()))
    {
      if !preprocessedImage.IsEmpty() {
        undoStack := undoStack + [preprocessedImage];
      } else if !image.IsEmpty() {
        undoStack := undoStack + [image];
      }
      ClearRedo();
    }

    /** `loaded` is `None` when the dialog is cancelled, otherwise the result
        of reading the chosen file. */
    method Browse(loaded: Option<Image>)
      requires Valid()
      modifies this
      ensures Valid()
      ensures State() == EditSession.Browse(old(State()), loaded)
    {
      if loaded.Some? {
        image := loaded.value;
        if image.IsEmpty() {
          return;
        }
        ClearUndo();
        ClearRedo();
        undoStack := undoStack + [image];
        preprocessedImage := image;
        isGrayscaled := false;
        isFlipped := false;
      }
    }

    /** `gaussian(img, k)` is the library's blur with a k by k kernel. */
    method Blur(gaussian: (Image, int) -> Image, slider: int)
      requires Valid()
      modifies this
      ensures Valid()
      ensures State() == EditSession.Adjust(old(State()), gaussian, KernelSize(slider))
    {
      if image.IsEmpty() {
        return;
      }
      SaveCurrentState();
      var kernelSize := KernelSize(slider);
      preprocessedImage := gaussian(image, kernelSize);
    }

    /** Reads the two text boxes (`None` where they do not hold an integer)
        and reports which gate, if any, turned the request away. */
    method Crop(width: Option<int>, height: Option<int>) returns (verdict: CropVerdict)
      requires Valid()
      modifies this
      ensures Valid()
      ensures verdict == CropGate(old(image), width, height)
      ensures State() == EditSession.Crop(old(State()), width, height)
    {
      if image.IsEmpty() {
        return NoImage;
      }
      valueX := width.GetOr(0);
      valueY := height.GetOr(0);
      if width.None? || height.None? {
        return InvalidNumber;
      }
      if valueX <= 0 || valueY <= 0 {
        return NonPositive;
      }
      if valueX > image.Cols() || valueY > image.Rows() {
        return ExceedsImage;
      }
      SaveCurrentState();
      var origin := CropOrigin(image.Cols(), image.Rows(), valueX, valueY);
      preprocessedImage := Region(image, origin.0, origin.1, valueX, valueY);
      verdict := Accepted;
    }

    /** `gray` is the library's BGR-to-gray-to-RGB conversion. */
    method Grayscale(gray: Image -> Image)
      requires Valid()
      modifies this
      ensures Valid()
      ensures State() == EditSession.Grayscale(old(State()), gray)
    {
      if image.IsEmpty() {
        return;
      }
      SaveCurrentState();
      if isGrayscaled {
        preprocessedImage := image;
        isGrayscaled := false;
      } else {
        preprocessedImage := gray(image);
        isGrayscaled := true;
      }
    }

    method HFlip()
      requires Valid()
      modifies this
      ensures Valid()
      ensures State() == EditSession.ToggleFlip(old(State()), Horizontal)
    {
      if image.IsEmpty() {
        return;
      }
      SaveCurrentState();
      if isFlipped {
        preprocessedImage := image;
        isFlipped := false;
      } else {
        preprocessedImage := Flip(image, Horizontal);
        isFlipped := true;
      }
    }

    method VFlip()
      requires Valid()
      modifies this
      ensures Valid()
      ensures State() == EditSession.ToggleFlip(old(State()), Vertical)
    {
      if image.IsEmpty() {
        return;
      }
      SaveCurrentState();
      if isFlipped {
        preprocessedImage := image;
        isFlipped := false;
      } else {
        preprocessedImage := Flip(image, Vertical);
        isFlipped := true;
      }
    }

    /** `stepped` is false when the window would report that there is
        nothing left to undo. */
    method Undo() returns (stepped: bool)
      requires Valid()
      modifies this
      ensures Valid()
      ensures stepped == (|old(undoStack)| > 1)
      ensures State() == EditSession.Undo(old(State()))
    {
      if |undoStack| <= 1 {
        return false;
      }
      if !preprocessedImage.IsEmpty() {
        redoStack := redoStack + [preprocessedImage];
      }
      undoStack := undoStack[..|undoStack| - 1];
      preprocessedImage := undoStack[|undoStack| - 1];
      stepped := true;
    }

    /** `stepped` is false when the window would report that there is
        nothing left to redo. */
    method Redo() returns (stepped: bool)
      requires Valid()
      modifies this
      ensures Valid()
      ensures stepped == (old(redoStack) != [])
      ensures State() == EditSession.Redo(old(State()))
    {
      if redoStack == [] {
        return false;
      }
      undoStack := undoStack + [preprocessedImage];
      preprocessedImage := redoStack[|redoStack| - 1];
      redoStack := redoStack[..|redoStack| - 1];
      stepped := true;
    }

    /** `scale(img, v)` is the library computation that scales saturation by
        v percent. */
    method Saturation(scale: (Image, int) -> Image, slider: int)
      requires Valid()
      modifies this
      ensures Valid()
      ensures State() == EditSession.Adjust(old(State()), scale, slider)
    {
      if image.IsEmpty() {
        return;
      }
      SaveCurrentState();
      preprocessedImage := scale(image, slider);
    }

    /** `shift(img, v)` is the library computation that shifts the hue
        channel by v. */
    method Hue(shift: (Image, int) -> Image, slider: int)
      requires Valid()
      modifies this
      ensures Valid()
      ensures State() == EditSession.Adjust(old(State()), shift, slider)
    {
      if image.IsEmpty() {
        return;
      }
      SaveCurrentState();
      preprocessedImage := shift(image, slider);
    }

    /** `convert(img, v)` is `convertTo` with gain 1 and offset v. */
    method Brightness(convert: (Image, int) -> Image, slider: int)
      requires Valid()
      modifies this
      ensures Valid()
      ensures State() == EditSession.Adjust(old(State()), convert, slider)
    {
      if image.IsEmpty() {
        return;
      }
      SaveCurrentState();
      preprocessedImage := convert(image, slider);
    }

    /** `fade(img, v)` is the row-by-row darkening with strength v percent. */
    method Gradient(fade: (Image, int) -> Image, slider: int)
      requires Valid()
      modifies this
      ensures Valid()
      ensures State() == EditSession.Adjust(old(State()), fade, slider)
    {
      if image.IsEmpty() {
        return;
      }
      SaveCurrentState();
      preprocessedImage := fade(image, slider);
    }
  }
}
