/** Properties of the editor session that relate several button presses. */
module SessionProperties {
  import opened Wrappers
  import opened Images
  import opened Inputs
  import opened EditSession

  /** After a read that produced no pixels only the original has changed, and
      every edit button is then a no-op, since each one starts with an
      empty-original guard. */
  lemma FailedLoadDisablesEdits(s: State, failed: Image, b: Button)
    requires failed.IsEmpty() && IsEdit(b)
    ensures var t := Browse(s, Some(failed));
      t.undoStack == s.undoStack && t.redoStack == s.redoStack &&
      t.preprocessedImage == s.preprocessedImage &&
      t.isGrayscaled == s.isGrayscaled && t.isFlipped == s.isFlipped &&
      Click(t, b) == t
  {
  }

  /** Undo followed at once by redo gives back the current result, the size
      of the undo stack and the redo stack. The undo stack itself is not
      restored: its top entry is replaced by a copy of the one beneath it. */
  lemma UndoThenRedo(s: State)
    requires |s.undoStack| > 1 && !s.preprocessedImage.IsEmpty()
    ensures var r := Redo(Undo(s));
      r.preprocessedImage == s.preprocessedImage &&
      |r.undoStack| == |s.undoStack| &&
      r.redoStack == s.redoStack &&
      r.undoStack == Pop(s.undoStack) + [s.undoStack[|s.undoStack| - 2]]
  {
  }

  /** Undo skips a state: after loading `img` and making two edits, one undo
      shows `img` again, not the result of the first edit, because each
      snapshot is the state BEFORE its edit and undo restores the entry
      beneath the one it drops. */
  lemma UndoSkipsAState(s: State, img: Image, first: Button, second: Button)
    requires !img.IsEmpty() && Pushes(img, first) && Pushes(img, second)
    ensures var edited := Click(Click(Browse(s, Some(img)), first), second);
      Undo(edited).preprocessedImage == img &&
      |Undo(edited).undoStack| == 2
  {
    var loaded := Browse(s, Some(img));
    ClickPushes(loaded, first);
    var once := Click(loaded, first);
    assert once.undoStack == [img, img] && once.image == img;
    ClickPushes(once, second);
    var twice := Click(once, second);
    assert twice.undoStack == [img, img, Snapshot(once)];
  }

  /** With an original in place, a pushing press adds exactly one snapshot
      and keeps the original. */
  lemma ClickPushes(s: State, b: Button)
    requires !s.image.IsEmpty() && Pushes(s.image, b)
    ensures Click(s, b).undoStack == s.undoStack + [Snapshot(s)] && Click(s, b).image == s.image
  {
  }

  /** Edits do not compose: whatever button was pressed before, an
      adjustment or an accepted crop is computed from the original alone. */
  lemma EditsDoNotCompose(s: State, before: Button, op: (Image, int) -> Image, arg: int,
                          width: int, height: int)
    requires !s.image.IsEmpty() && !before.BrowseButton?
    ensures Adjust(Click(s, before), op, arg).preprocessedImage == op(s.image, arg)
    ensures CropGate(s.image, Some(width), Some(height)) == Accepted ==>
      var origin := CropOrigin(s.image.Cols(), s.image.Rows(), width, height);
      0 <= origin.0 && 0 <= origin.1 &&
      Crop(Click(s, before), Some(width), Some(height)).preprocessedImage ==
        Region(s.image, origin.0, origin.1, width, height)
  {
  }

  /** An accepted crop is the centred block of the original: pixel (i, j) of
      the result is pixel ((rows - h) / 2 + i, (cols - w) / 2 + j) of the
      original, and the block has as many pixels on its left as on its right,
      or one fewer on the left (likewise top and bottom). */
  lemma AcceptedCropIsCentred(s: State, w: int, h: int, i: int, j: int)
    requires CropGate(s.image, Some(w), Some(h)) == Accepted
    requires 0 <= i < h && 0 <= j < w
    ensures var r := Crop(s, Some(w), Some(h)).preprocessedImage;
      var cols := s.image.Cols(); var rows := s.image.Rows();
      r.Rows() == h && r.Cols() == w &&
      (cols - w) / 2 <= cols - w - (cols - w) / 2 <= (cols - w) / 2 + 1 &&
      (rows - h) / 2 <= rows - h - (rows - h) / 2 <= (rows - h) / 2 + 1 &&
      r.data[i][j] == s.image.data[(rows - h) / 2 + i][(cols - w) / 2 + j]
  {
  }

  /** Two grayscale presses from the plain state show the original again
      and leave two more snapshots. */
  lemma GrayscaleTwiceRestores(s: State, gray: Image -> Image)
    requires !s.image.IsEmpty() && !s.isGrayscaled
    ensures var r := Grayscale(Grayscale(s, gray), gray);
      r.preprocessedImage == s.image && !r.isGrayscaled &&
      |r.undoStack| == |s.undoStack| + 2 && r.redoStack == []
  {
  }

  /** The two flip buttons share one flag: a flip about any axis pressed
      after a flip about any axis shows the original, it does not flip the
      flipped image. */
  lemma FlipsShareOneFlag(s: State, first: Axis, second: Axis)
    requires !s.image.IsEmpty() && !s.isFlipped
    ensures var r := ToggleFlip(ToggleFlip(s, first), second);
      r.preprocessedImage == s.image && !r.isFlipped &&
      |r.undoStack| == |s.undoStack| + 2
  {
  }

  /** The shared flag is observable: for some loaded image, a horizontal and
      then a vertical flip show the original rather than the image turned
      half way round. */
  lemma SharedFlipFlagIsObservable()
    ensures exists img: Image ::
      && !img.IsEmpty()
      && ToggleFlip(ToggleFlip(Browse(Initial(), Some(img)), Horizontal), Vertical).preprocessedImage
         != Flip(Flip(img, Horizontal), Vertical)
  {
    var black := Pixel(0, 0, 0);
    var white := Pixel(255, 255, 255);
    var img: Image := Mat([[black, white]]);
    var turned := Flip(Flip(img, Horizontal), Vertical);
    assert turned.data[0][0] == white;
    FlipsShareOneFlag(Browse(Initial(), Some(img)), Horizontal, Vertical);
    assert !img.IsEmpty();
  }

  /** Undo does not restore the flags: after load, grayscale and undo the
      original is shown but the flag still says grayscale, so the next
      grayscale press shows the original instead of the gray image. */
  lemma UndoLeavesFlags(img: Image, gray: Image -> Image)
    requires !img.IsEmpty()
    ensures var undone := Undo(Grayscale(Browse(Initial(), Some(img)), gray));
      undone.preprocessedImage == img && undone.isGrayscaled &&
      Grayscale(undone, gray).preprocessedImage == img &&
      !Grayscale(undone, gray).isGrayscaled
  {
  }

  /** The worked scenario: load, brighten, undo leaves only the base entry
      and shows the original; two grayscale presses then show the original
      again. */
  lemma LoadBrightenUndoGrayTwice(img: Image, convert: (Image, int) -> Image, v: int,
                                  gray: Image -> Image)
    requires !img.IsEmpty()
    ensures var undone := Undo(Adjust(Browse(Initial(), Some(img)), convert, v));
      |undone.undoStack| == 1 && undone.preprocessedImage == img &&
      Grayscale(Grayscale(undone, gray), gray).preprocessedImage == img
  {
  }

  /** The buttons that always push a snapshot when the original is `img`. */
  predicate Pushes(img: Image, b: Button) {
    b.AdjustButton? || b.GrayscaleButton? || b.FlipButton? ||
    (b.CropButton? && CropGate(img, b.width, b.height) == Accepted)
  }

  /** With an original in place, every pushing edit adds exactly one entry
      to the undo stack and empties the redo stack. */
  lemma {:induction false} EditsGrowHistory(s: State, buttons: seq<Button>)
    requires !s.image.IsEmpty()
    requires forall k :: 0 <= k < |buttons| ==> Pushes(s.image, buttons[k])
    ensures var r := ClickAll(s, buttons);
      r.image == s.image &&
      |r.undoStack| == |s.undoStack| + |buttons| &&
      (buttons != [] ==> r.redoStack == [])
    decreases |buttons|
  {
    if buttons != [] {
      var next := Click(s, buttons[0]);
      assert next.image == s.image && |next.undoStack| == |s.undoStack| + 1 && next.redoStack == [];
      assert forall k :: 0 <= k < |buttons[1..]| ==> buttons[1..][k] == buttons[k + 1];
      EditsGrowHistory(next, buttons[1..]);
    }
  }

  /** After a fresh load and N pushing edits the undo stack holds N + 1
      entries (the base and one snapshot per edit) and the redo stack is
      empty. */
  lemma HistoryAfterFreshLoad(s: State, img: Image, buttons: seq<Button>)
    requires !img.IsEmpty()
    requires forall k :: 0 <= k < |buttons| ==> Pushes(img, buttons[k])
    ensures var r := ClickAll(Browse(s, Some(img)), buttons);
      |r.undoStack| == |buttons| + 1 && r.redoStack == []
  {
    var loaded := Browse(s, Some(img));
    EditsGrowHistory(loaded, buttons);
  }

  /** A press that does not load a readable image keeps the base entry of a
      non-empty undo stack. */
  lemma ClickKeepsBase(s: State, b: Button)
    requires s.undoStack != []
    requires b.BrowseButton? ==> b.loaded.None? || b.loaded.value.IsEmpty()
    ensures var r := Click(s, b); r.undoStack != [] && r.undoStack[0] == s.undoStack[0]
  {
  }

  /** The base entry is never popped: until the next successful load, the
      bottom of the undo stack stays what it was. */
  lemma {:induction false} BaseNeverPopped(s: State, buttons: seq<Button>)
    requires s.undoStack != []
    requires forall k :: 0 <= k < |buttons| ==>
      buttons[k].BrowseButton? ==> buttons[k].loaded.None? || buttons[k].loaded.value.IsEmpty()
    ensures var r := ClickAll(s, buttons); r.undoStack != [] && r.undoStack[0] == s.undoStack[0]
    decreases |buttons|
  {
    if buttons != [] {
      ClickKeepsBase(s, buttons[0]);
      var next := Click(s, buttons[0]);
      assert forall k :: 0 <= k < |buttons[1..]| ==> buttons[1..][k] == buttons[k + 1];
      BaseNeverPopped(next, buttons[1..]);
    }
  }

  /** Together: after loading `img`, no run of presses without another
      successful load can take `img` off the bottom of the undo stack, and
      the session invariant holds throughout. */
  lemma LoadedImageStaysBase(s: State, img: Image, buttons: seq<Button>)
    requires !img.IsEmpty()
    requires forall k :: 0 <= k < |buttons| ==>
      buttons[k].BrowseButton? ==> buttons[k].loaded.None? || buttons[k].loaded.value.IsEmpty()
    ensures var r := ClickAll(Browse(s, Some(img)), buttons);
      Valid(r) && r.undoStack != [] && r.undoStack[0] == img
  {
    BaseNeverPopped(Browse(s, Some(img)), buttons);
  }
}
