# Editing session of the `miniproj` photo editor

`miniproj` is a Qt window over OpenCV. It holds a loaded image and the result
of the last edit. Its buttons apply blur, crop, grayscale, horizontal and
vertical flip, saturation, hue, brightness and a gradient fade. Undo and redo
stacks of full image snapshots keep the history. This project models that
session state machine in Dafny, with the widget and library calls taken out.

- `wrappers.dfy` (`Wrappers`): `Option`, for a cancelled file dialog and for a
  text box that does not hold an integer.
- `images.dfy` (`Images`): an image is a rectangular grid of 8-bit BGR pixels
  (`seq<seq<Pixel>>`). It is empty when it has no rows or no columns. Cropping
  (`Region`) and mirroring (`Flip`) are defined concretely.
- `inputs.dfy` (`Inputs`): the two pure helpers inside the handlers: the blur
  kernel side and the centred crop origin. Also the crop button's gates.
- `session.dfy` (`EditSession`): the session as a value (`State`) and one
  function per handler. The contract of each says what the handler does and
  that it keeps the session invariant `Valid`.
- `window.dfy` (`Window`): class `MiniProj`, whose fields are the window's
  members. Its handler methods update the fields in place, with push and pop
  on `seq`-backed stacks and the source's `while (!stack.empty()) pop()`
  loops. Each method is specified by the matching `EditSession` function.
- `properties.dfy` (`SessionProperties`): lemmas about sequences of presses.

The model keeps three behaviours of the code as they are:

- Edits do not compose. Every edit, crop included, is computed from the
  original `image`, never from the current result.
- Undo skips a state. `saveCurrentState` pushes the state before the edit.
  Undo drops the top entry and shows the one beneath it. So after load, edit A
  and edit B, one undo shows the original, not A.
- The horizontal and vertical flips share the single flag `isFlipped`.

The image library's transforms are parameters of the handlers that use them:
the Gaussian blur, the gray conversion, saturation scaling, the hue shift,
`convertTo` brightness and the gradient fade. The load is an argument too:
`None` for a cancelled dialog, or what `cv::imread` returned, which may be
empty. C++ `/` truncates toward zero. Dafny's `/` is Euclidean. The two agree
on the crop origin, because its numerators are non-negative once a crop is
accepted.

Three details of the code that the model keeps as written:

- A failed read still overwrites the original with the empty result
  (miniproj.cpp:77). The stacks, the current result and the flags stay as they
  were, and every edit button then does nothing.
- A crop uses the original's size and pixels, not the current result's
  (miniproj.cpp:134, 143-146).
- The crop handler stores the parsed dimensions in `valuex` and `valuey`
  before any gate. A value that does not parse is stored as 0.

## Model

| member | source | states |
|---|---|---|
| `Inputs.KernelSize` | miniproj.cpp:108-110 | for every slider value the kernel side is odd and in [1, 31]; inside [1, 31] it is the slider value or the next value up, above 31 it is 31, below 1 it is 1 |
| `Inputs.CropOrigin` | miniproj.cpp:143-144 | when 0 < w <= cols the origin x satisfies 0 <= x and x + w <= cols, and the right margin equals the left one or exceeds it by one; the same holds for y, h and rows |
| `Inputs.CropGate` | miniproj.cpp:118-139 | each verdict is tied to its condition, in the handler's order: "no image" exactly when the original is empty; "invalid number" exactly when an original is loaded and a box does not parse; "non-positive" exactly when both parse and one is <= 0; "exceeds image" exactly when both are positive and w > cols or h > rows; accepted exactly when both parse and 0 < w <= cols and 0 < h <= rows |
| `Images.Region` | miniproj.cpp:145-146 | the cut-out has h rows of w pixels, and pixel (i, j) is pixel (y + i, x + j) of the image |
| `Images.Flip` | miniproj.cpp:178 | the mirror has the image's size; a horizontal flip maps (i, j) to (i, cols-1-j), a vertical one maps (i, j) to (rows-1-i, j) |
| `Images.FlipInvolution` | miniproj.cpp:178 | flipping twice about the same axis gives back the image |
| `Images.SameImage` | miniproj.cpp:146 | two images of the same size that agree on every pixel are equal |
| `EditSession.Initial` | miniproj.cpp:8-11 | the window starts with no image, empty stacks, and the invariant holds |
| `EditSession.SaveCurrentState` | miniproj.cpp:55-65 | pushes exactly one snapshot (the current result if non-empty, otherwise the original) when either is non-empty, otherwise nothing; always empties the redo stack; nothing else changes |
| `EditSession.Browse` | miniproj.cpp:67-100 | a cancelled dialog changes nothing; a failed read changes only the original, which becomes empty; a successful read leaves undo = [loaded], redo empty, current = loaded and both flags false |
| `EditSession.Adjust` | miniproj.cpp:102-114 | without an original nothing changes; otherwise exactly one snapshot is pushed, redo is emptied and the current result is the operation applied to the original |
| `EditSession.Crop` | miniproj.cpp:116-148 | a rejected crop leaves both stacks, the current result, the original and both flags unchanged; an accepted one pushes one snapshot, empties redo, and the result is the w by h block of the original at the centred origin |
| `EditSession.Grayscale` | miniproj.cpp:150-166 | each press pushes one snapshot, empties redo and inverts the flag; the result is the gray conversion of the original when the flag was off and the original when it was on |
| `EditSession.ToggleFlip` | miniproj.cpp:168-200 | each press pushes one snapshot, empties redo and inverts the shared flip flag; the result is the original mirrored about the pressed axis when the flag was off and the original when it was on |
| `EditSession.Undo` | miniproj.cpp:202-220 | with at most one entry nothing changes; otherwise undo shrinks by one and keeps its base entry, redo gains the old current result if it was non-empty, and the current result is the new top of undo |
| `EditSession.Redo` | miniproj.cpp:222-237 | with an empty redo stack nothing changes; otherwise the old current result is pushed onto undo, redo shrinks by one and the current result is its old top |
| `EditSession.Click` | miniproj.cpp:67-342 | every button press keeps the session invariant, and only the browse button changes the original |
| `EditSession.ClickAll` | miniproj.cpp:67-342 | any sequence of presses keeps the session invariant |
| `Window.MiniProj.constructor` | miniproj.cpp:8-11 | the window starts in the initial session state |
| `Window.MiniProj.ClearUndo` | miniproj.cpp:84 | the pop loop leaves the undo stack empty and changes no other field |
| `Window.MiniProj.ClearRedo` | miniproj.cpp:64 | the pop loop leaves the redo stack empty and changes no other field |
| `Window.MiniProj.SaveCurrentState` | miniproj.cpp:55-65 | the new fields are `EditSession.SaveCurrentState` of the old ones |
| `Window.MiniProj.Browse` | miniproj.cpp:67-100 | the new fields are `EditSession.Browse` of the old ones, and the invariant is kept |
| `Window.MiniProj.Blur` | miniproj.cpp:102-114 | the new fields are `EditSession.Adjust` of the old ones, with the blur at kernel side `KernelSize(slider)` |
| `Window.MiniProj.Crop` | miniproj.cpp:116-148 | the verdict is `CropGate` of the original and the inputs, and the new fields are `EditSession.Crop` of the old ones |
| `Window.MiniProj.Grayscale` | miniproj.cpp:150-166 | the new fields are `EditSession.Grayscale` of the old ones |
| `Window.MiniProj.HFlip` | miniproj.cpp:168-183 | the new fields are `EditSession.ToggleFlip` of the old ones about the horizontal axis |
| `Window.MiniProj.VFlip` | miniproj.cpp:185-200 | the new fields are `EditSession.ToggleFlip` of the old ones about the vertical axis |
| `Window.MiniProj.Undo` | miniproj.cpp:202-220 | reports a step exactly when undo held more than one entry; the new fields are `EditSession.Undo` of the old ones |
| `Window.MiniProj.Redo` | miniproj.cpp:222-237 | reports a step exactly when redo was non-empty; the new fields are `EditSession.Redo` of the old ones |
| `Window.MiniProj.Saturation` | miniproj.cpp:239-256 | the new fields are `EditSession.Adjust` of the old ones with the saturation scaling |
| `Window.MiniProj.Hue` | miniproj.cpp:258-282 | the new fields are `EditSession.Adjust` of the old ones with the hue shift |
| `Window.MiniProj.Brightness` | miniproj.cpp:284-292 | the new fields are `EditSession.Adjust` of the old ones with the brightness offset |
| `Window.MiniProj.Gradient` | miniproj.cpp:319-342 | the new fields are `EditSession.Adjust` of the old ones with the gradient fade |
| `SessionProperties.FailedLoadDisablesEdits` | miniproj.cpp:77-80 | after a failed read the stacks, current result and flags are unchanged, and every edit button is then a no-op |
| `SessionProperties.UndoThenRedo` | miniproj.cpp:202-237 | when undo holds more than one entry and the current result is non-empty, undo then redo restores the current result, the undo stack's size and the redo stack; the undo stack's top becomes a copy of the entry beneath it |
| `SessionProperties.UndoSkipsAState` | miniproj.cpp:58-218 | after load, any two snapshot-pushing edits (adjustments, grayscale, flips, accepted crops) and one undo, the original is shown and undo holds two entries |
| `SessionProperties.ClickPushes` | miniproj.cpp:55-65 | with an original in place, one snapshot-pushing press adds exactly one undo entry, the snapshot of the state before it, and keeps the original |
| `SessionProperties.EditsDoNotCompose` | miniproj.cpp:112-146 | after any non-load press, an adjustment or an accepted crop depends on the original alone |
| `SessionProperties.AcceptedCropIsCentred` | miniproj.cpp:143-146 | an accepted crop is w by h, its pixel (i, j) is pixel ((rows-h)/2 + i, (cols-w)/2 + j) of the original, and its margins differ by at most one |
| `SessionProperties.GrayscaleTwiceRestores` | miniproj.cpp:153-163 | two grayscale presses from the plain state show the original, clear the flag and push two snapshots |
| `SessionProperties.FlipsShareOneFlag` | miniproj.cpp:173-196 | any two flip presses from the unflipped state show the original and clear the flag |
| `SessionProperties.SharedFlipFlagIsObservable` | miniproj.cpp:173-196 | for some image, a horizontal then a vertical flip after loading show the original, not the doubly mirrored image |
| `SessionProperties.UndoLeavesFlags` | miniproj.cpp:202-220 | after load, grayscale and undo the original shows while the flag stays on, so the next grayscale press shows the original |
| `SessionProperties.LoadBrightenUndoGrayTwice` | miniproj.cpp:284-292 | load, brighten and undo leave one undo entry and show the original; two grayscale presses then show the original |
| `SessionProperties.EditsGrowHistory` | miniproj.cpp:55-65 | with an original in place, N edits that push add exactly N undo entries, empty redo and keep the original |
| `SessionProperties.HistoryAfterFreshLoad` | miniproj.cpp:83-95 | after a fresh load and N such edits, undo holds N + 1 entries and redo is empty |
| `SessionProperties.ClickKeepsBase` | miniproj.cpp:204-215 | a press that does not load a readable image keeps the bottom entry of a non-empty undo stack |
| `SessionProperties.BaseNeverPopped` | miniproj.cpp:204-215 | no sequence of such presses removes or replaces the bottom entry of undo |
| `SessionProperties.LoadedImageStaysBase` | miniproj.cpp:88 | after loading an image, from any prior state, it stays at the bottom of undo until the next successful load, and the invariant holds throughout |

## Left out

- Presentation: `displayImage`, `updateImageInfo`, slider ranges, label sizing
  and message boxes are UI only. A message box shows up in the model only as
  the verdict or `stepped` result of a handler or, for the browse button, as
  an empty loaded value.
- The save button: it does file I/O and reads the clock for its default name,
  and it changes no session state.
- File dialogs and `cv::imread`: the handler receives their outcome as an
  argument.
- Parsing the crop text boxes: `QString::toInt` is an argument, `None` when it
  fails. Its 32-bit range is not modelled.
- Pixel arithmetic of the library transforms: Gaussian blur, gray conversion,
  saturation, hue, brightness and its saturating arithmetic. Each is a
  function parameter, so the model proves nothing about their pixels.
- The gradient fade's double arithmetic (miniproj.cpp:327-339): floating point
  is not modelled, and the fade is a parameter like the library transforms.
- Hue wrap-around (miniproj.cpp:273-276): it rests on OpenCV's 8-bit
  saturating channels, which are not visible here, so no wrap-around property
  is claimed.
- Channel count: every image holds 3-channel BGR pixels. The gray result is
  converted back to 3 channels in the code too.
- The initial values of `isgrayscaled`, `isflipped`, `valuex` and `valuey`: they
  would come from miniproj.h, which is not part of this model. The model
  starts them at false and 0.
- `clone()` deep copies: snapshots are immutable values, so no two stack
  entries can alias.
- Each library transform is passed to each call. The model does not require
  two calls to receive the same transform.
