/** The editor session of the `miniproj` window as a value: the original
    image, the current result, the undo and redo stacks of snapshots, the two
    toggle flags and the last crop dimensions read from the text boxes. Each
    function below is one button handler of the window with the widget and
    library calls taken out; the class in window.dfy runs the same steps in
    place and is specified by these functions. Stacks are sequences whose last
    element is the top. */
module EditSession {
  import opened Wrappers
  import opened Images
  import opened Inputs

  datatype State = State(
    image: Image,              // the original, as loaded
    preprocessedImage: Image,  // the current result
    undoStack: seq<Image>,
    redoStack: seq<Image>,
    isGrayscaled: bool,
    isFlipped: bool,
    valueX: int,               // crop width last read from its text box
    valueY: int)               // crop height last read from its text box

  /** The window before anything is loaded. */
  function Initial(): (s: State)
    ensures Valid(s) && s.image.IsEmpty() && s.undoStack == [] && s.redoStack == []
  {
    State(Blank, Blank, [], [], false, false, 0, 0)
  }

  /** The session invariant: the undo stack is empty only while there is no
      current result and nothing to redo, and as long as an original is held
      the undo stack keeps at least its base entry. */
  predicate Valid(s: State) {
    (s.undoStack == [] ==> s.preprocessedImage.IsEmpty() && s.redoStack == []) &&
    (!s.image.IsEmpty() ==> s.undoStack != [])
  }

  function Top(stack: seq<Image>): Image
    requires stack != []
  {
    stack[|stack| - 1]
  }

  function Pop(stack: seq<Image>): seq<Image>
    requires stack != []
  {
    stack[..|stack| - 1]
  }

  /** True when `saveCurrentState` has something to push. */
  predicate HasSnapshot(s: State) {
    !s.preprocessedImage.IsEmpty() || !s.image.IsEmpty()
  }

  /** What `saveCurrentState` pushes: the current result, or the original
      when there is no current result. */
  function Snapshot(s: State): Image {
    if !s.preprocessedImage.IsEmpty() then s.preprocessedImage else s.image
  }

  /** `saveCurrentState`: push one snapshot, if there is one, and forget
      everything that could be redone. */
  function SaveCurrentState(s: State): (r: State)
    ensures Valid(s) ==> Valid(r)
    ensures r.redoStack == []
    ensures HasSnapshot(s) ==> r.undoStack == s.undoStack + [Snapshot(s)] && !Top(r.undoStack).IsEmpty()
    ensures !HasSnapshot(s) ==> r.undoStack == s.undoStack
    ensures r.(undoStack := s.undoStack, redoStack := s.redoStack) == s
  {
    var undo := if HasSnapshot(s) then s.undoStack + [Snapshot(s)] else s.undoStack;
    s.(undoStack := undo, redoStack := [])
  }

  /** The browse button. `loaded` is `None` when the file dialog is
      cancelled and otherwise what `cv::imread` returned, which is empty when
      the file could not be read. A failed read still overwrites the
      original; a successful one restarts the history from the new image. */
  function Browse(s: State, loaded: Option<Image>): (r: State)
    ensures Valid(s) ==> Valid(r)
    ensures loaded.None? ==> r == s
    ensures loaded.Some? && loaded.value.IsEmpty() ==> r == s.(image := loaded.value)
    ensures loaded.Some? && !loaded.value.IsEmpty() ==>
      r.image == loaded.value && r.preprocessedImage == loaded.value &&
      r.undoStack == [loaded.value] && r.redoStack == [] &&
      !r.isGrayscaled && !r.isFlipped &&
      r.valueX == s.valueX && r.valueY == s.valueY
  {
    match loaded
    case None => s
    case Some(img) =>
      if img.IsEmpty() then s.(image := img)
      else s.(image := img, undoStack := [img], redoStack := [], preprocessedImage := img,
              isGrayscaled := false, isFlipped := false)
  }

  /** The handlers that compute `op(image, arg)` from the ORIGINAL after an
      empty-original guard and a snapshot: blur (`arg` is the kernel side),
      saturation, hue, brightness and the gradient fade (`arg` is the slider
      value). */
  function Adjust(s: State, op: (Image, int) -> Image, arg: int): (r: State)
    ensures Valid(s) ==> Valid(r)
    ensures s.image.IsEmpty() ==> r == s
    ensures !s.image.IsEmpty() ==>
      r.preprocessedImage == op(s.image, arg) &&
      r.undoStack == s.undoStack + [Snapshot(s)] && r.redoStack == [] &&
      r.(preprocessedImage := s.preprocessedImage, undoStack := s.undoStack, redoStack := s.redoStack) == s
  {
    if s.image.IsEmpty() then s
    else SaveCurrentState(s).(preprocessedImage := op(s.image, arg))
  }

  /** The crop button, given the parsed text boxes (`None` where `toInt`
      fails). The dimensions are recorded (as 0 when unparsable) before the
      gates; a rejected request changes nothing else, and an accepted one
      snapshots and then cuts the centred block out of the ORIGINAL. */
  function Crop(s: State, width: Option<int>, height: Option<int>): (r: State)
    ensures Valid(s) ==> Valid(r)
    ensures r.image == s.image && r.isGrayscaled == s.isGrayscaled && r.isFlipped == s.isFlipped
    ensures s.image.IsEmpty() ==> r == s
    ensures !s.image.IsEmpty() ==> r.valueX == width.GetOr(0) && r.valueY == height.GetOr(0)
    ensures CropGate(s.image, width, height) != Accepted ==>
      r.undoStack == s.undoStack && r.redoStack == s.redoStack &&
      r.preprocessedImage == s.preprocessedImage
    ensures CropGate(s.image, width, height) == Accepted ==>
      r.undoStack == s.undoStack + [Snapshot(s)] && r.redoStack == [] &&
      r.preprocessedImage.Rows() == height.value &&
      r.preprocessedImage.Cols() == width.value &&
      var origin := CropOrigin(s.image.Cols(), s.image.Rows(), width.value, height.value);
      0 <= origin.0 && 0 <= origin.1 &&
      r.preprocessedImage == Region(s.image, origin.0, origin.1, width.value, height.value)
  {
    if s.image.IsEmpty() then s
    else
      var recorded := s.(valueX := width.GetOr(0), valueY := height.GetOr(0));
      if CropGate(s.image, width, height) != Accepted then recorded
      else
        var origin := CropOrigin(s.image.Cols(), s.image.Rows(), width.value, height.value);
        SaveCurrentState(recorded).(preprocessedImage :=
          Region(s.image, origin.0, origin.1, width.value, height.value))
  }

  /** The grayscale button: a press while the flag is off shows
      `gray(image)` (the BGR-to-gray-to-RGB conversion), a press while it is
      on shows the original again; either way a snapshot is pushed first. */
  function Grayscale(s: State, gray: Image -> Image): (r: State)
    ensures Valid(s) ==> Valid(r)
    ensures s.image.IsEmpty() ==> r == s
    ensures !s.image.IsEmpty() ==>
      r.undoStack == s.undoStack + [Snapshot(s)] && r.redoStack == [] &&
      r.isGrayscaled == !s.isGrayscaled &&
      r.preprocessedImage == (if s.isGrayscaled then s.image else gray(s.image)) &&
      r.(preprocessedImage := s.preprocessedImage, undoStack := s.undoStack,
         redoStack := s.redoStack, isGrayscaled := s.isGrayscaled) == s
  {
    if s.image.IsEmpty() then s
    else if s.isGrayscaled then SaveCurrentState(s).(preprocessedImage := s.image, isGrayscaled := false)
    else SaveCurrentState(s).(preprocessedImage := gray(s.image), isGrayscaled := true)
  }

  /** The horizontal and vertical flip buttons. Both share the one flag
      `isFlipped`: a press while it is on shows the original, whichever axis
      set it. */
  function ToggleFlip(s: State, axis: Axis): (r: State)
    ensures Valid(s) ==> Valid(r)
    ensures s.image.IsEmpty() ==> r == s
    ensures !s.image.IsEmpty() ==>
      r.undoStack == s.undoStack + [Snapshot(s)] && r.redoStack == [] &&
      r.isFlipped == !s.isFlipped &&
      r.preprocessedImage == (if s.isFlipped then s.image else Flip(s.image, axis)) &&
      r.(preprocessedImage := s.preprocessedImage, undoStack := s.undoStack,
         redoStack := s.redoStack, isFlipped := s.isFlipped) == s
  {
    if s.image.IsEmpty() then s
    else if s.isFlipped then SaveCurrentState(s).(preprocessedImage := s.image, isFlipped := false)
    else SaveCurrentState(s).(preprocessedImage := Flip(s.image, axis), isFlipped := true)
  }

  /** The undo button. With at most the base entry left it does nothing.
      Otherwise the current result (if any) goes onto the redo stack, the top
      of the undo stack is dropped, and the entry beneath it becomes the
      current result. The flags are left as they are. */
  function Undo(s: State): (r: State)
    ensures Valid(s) ==> Valid(r)
    ensures |s.undoStack| <= 1 ==> r == s
    ensures |s.undoStack| > 1 ==>
      r.undoStack == Pop(s.undoStack) && |r.undoStack| == |s.undoStack| - 1 &&
      r.undoStack[0] == s.undoStack[0] &&
      r.preprocessedImage == Top(r.undoStack) &&
      r.redoStack == (if s.preprocessedImage.IsEmpty() then s.redoStack
                      else s.redoStack + [s.preprocessedImage]) &&
      r.(preprocessedImage := s.preprocessedImage, undoStack := s.undoStack, redoStack := s.redoStack) == s
  {
    if |s.undoStack| <= 1 then s
    else
      var redo := if !s.preprocessedImage.IsEmpty() then s.redoStack + [s.preprocessedImage] else s.redoStack;
      var undo := Pop(s.undoStack);
      s.(redoStack := redo, undoStack := undo, preprocessedImage := Top(undo))
  }

  /** The redo button. With nothing to redo it does nothing. Otherwise the
      current result goes onto the undo stack (even when it is empty) and the
      top of the redo stack is taken off and becomes the current result. */
  function Redo(s: State): (r: State)
    ensures Valid(s) ==> Valid(r)
    ensures s.redoStack == [] ==> r == s
    ensures s.redoStack != [] ==>
      r.undoStack == s.undoStack + [s.preprocessedImage] &&
      r.preprocessedImage == Top(s.redoStack) &&
      r.redoStack == Pop(s.redoStack) && |r.redoStack| == |s.redoStack| - 1 &&
      r.(preprocessedImage := s.preprocessedImage, undoStack := s.undoStack, redoStack := s.redoStack) == s
  {
    if s.redoStack == [] then s
    else s.(undoStack := s.undoStack + [s.preprocessedImage],
            preprocessedImage := Top(s.redoStack), redoStack := Pop(s.redoStack))
  }

  /** One press of a button, with the value each handler reads from its
      widget or receives from the image library. */
  datatype Button =
    | BrowseButton(loaded: Option<Image>)
    | AdjustButton(op: (Image, int) -> Image, arg: int)
    | CropButton(width: Option<int>, height: Option<int>)
    | GrayscaleButton(gray: Image -> Image)
    | FlipButton(axis: Axis)
    | UndoButton
    | RedoButton

  /** The buttons that edit the current result from the original. */
  predicate IsEdit(b: Button) {
    b.AdjustButton? || b.CropButton? || b.GrayscaleButton? || b.FlipButton?
  }

  function Click(s: State, b: Button): (r: State)
    ensures Valid(s) ==> Valid(r)
    ensures !b.BrowseButton? ==> r.image == s.image
  {
    match b
    case BrowseButton(loaded) => Browse(s, loaded)
    case AdjustButton(op, arg) => Adjust(s, op, arg)
    case CropButton(width, height) => Crop(s, width, height)
    case GrayscaleButton(gray) => Grayscale(s, gray)
    case FlipButton(axis) => ToggleFlip(s, axis)
    case UndoButton => Undo(s)
    case RedoButton => Redo(s)
  }

  /** The session after a sequence of button presses, first to last. */
  function ClickAll(s: State, buttons: seq<Button>): (r: State)
    ensures Valid(s) ==> Valid(r)
    decreases |buttons|
  {
    if buttons == [] then s else ClickAll(Click(s, buttons[0]), buttons[1..])
  }
}
