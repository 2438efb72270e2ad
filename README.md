# Calibration capture controller, modelled in Dafny

This project models the camera calibration screen of the VisionDetection app. The model covers
nine fixed calibration points. Tapping a point requests a photo. A point's third tap removes it
from the screen. Once no point is left, the screen signals "collection complete". Each photo is
named `photo_<label>_<uuid>.jpg` after the button tapped last.

Modules:

- `Wrappers`: an `Option` type, for Swift's optionals.
- `Calibration`: the tap counter as a pure state machine.
  - `Button` is a class with a constant tag and accessibility label. Buttons are told apart by
    identity, as `UIButton` keys are in the Swift dictionary.
  - A `Tracker` holds the count map, the ordered list of buttons on screen and the current button.
  - `TapStep` is one call of the tap handler. `Run` is a sequence of taps.
  - `Valid` is the invariant every tap preserves: a tracked button is on screen exactly while its
    count is below 3.
  - `TapsLeft` is the number of taps still needed to clear the screen.
- `PhotoFiles`: the file-name rule, with a parser that inverts it.
- `CameraView`: the `CameraViewController` class. Its fields `counts`, `buttons` and `current`
  are the source's `buttonClickCounts`, `buttons` and `currentButton`.
  - `CreateButtons` is the creation loop.
  - `ButtonTapped` is the tap handler. It is proved to follow `TapStep` exactly.
  - `PhotoOutput` is the capture callback.

Camera captures, button removal from the view, the completion alert and file writes are not
performed. The model returns them as events: `TapEvents` and `WriteRequest`. Whether a camera
device was found, the photo's data and the UUID string are parameters.

Three behaviours are kept exactly as the code has them:

- The photo callback never looks at its `error` argument. It returns early only when the photo
  has no data representation.
- The photo's label is taken from the current button when the callback runs, not when the
  capture was requested.
- The handler checks for completion after every tap that pushes a count to 3 or more. A tapped button that is
  tracked but already removed would signal completion again if the list is empty. Removed buttons
  leave the view, so this cannot happen from the UI. "Exactly once" is therefore proved for taps
  on buttons that are on screen (`ActiveTaps`).

## Model

| member | source | states |
|---|---|---|
| `Calibration.Button.constructor` | VisionDetection/CameraViewController.swift:98-106 | a new button carries the given tag and accessibility label |
| `Calibration.RemoveAll` | VisionDetection/CameraViewController.swift:133 | the result holds exactly the elements other than the button; a missing button leaves the list as it is; no repeats are introduced |
| `Calibration.RemoveAllSplice` | VisionDetection/CameraViewController.swift:133 | in a list without repeats, removing the element at index i gives the list without position i, the rest in their original order |
| `Calibration.TapStep` | VisionDetection/CameraViewController.swift:119-141 | the tapped button becomes current; a tracked button's count rises by exactly one and no other count changes; a capture is requested exactly when the button is tracked; the button is removed exactly when its new count is at least 3, and no other button leaves; completion is signalled exactly on a removing tap that leaves the list empty; an untracked tap changes nothing but the current button |
| `Calibration.TapRemovesOnlyTapped` | VisionDetection/CameraViewController.swift:131-133 | a removing tap on the on-screen button at index i splices out that button only and keeps the others in order; a non-removing tap keeps the list |
| `Calibration.TapKeepsValid` | VisionDetection/CameraViewController.swift:121-139 | every tap preserves the invariant (no repeats on screen; a tracked button is on screen exactly while its count is below 3); a tap on an on-screen button uses up exactly one of the taps still needed, and any other tap uses none |
| `Calibration.TapsLeftZero` | VisionDetection/CameraViewController.swift:136 | under the invariant, the screen is empty exactly when no taps are left, so the emptiness test after a removal means all points are done |
| `Calibration.Run` | VisionDetection/CameraViewController.swift:119-141 | a run of taps yields one event record per tap |
| `Calibration.RunKeepsValid` | VisionDetection/CameraViewController.swift:119-141 | any sequence of taps, in any order and on any buttons, preserves the invariant |
| `Calibration.RunCounts` | VisionDetection/CameraViewController.swift:123-124 | after any taps, the set of tracked buttons is unchanged, and each tracked button's count is its old count plus the number of times it was tapped |
| `Calibration.RunCaptures` | VisionDetection/CameraViewController.swift:123-128 | tap number k requests a capture exactly when its button is tracked, including the tap that removes it |
| `Calibration.RunOnScreenIff` | VisionDetection/CameraViewController.swift:131-133 | after any taps, a tracked button is on screen exactly when its count plus its taps is below 3, so it never leaves after one or two taps |
| `Calibration.ActiveRunUsesTaps` | VisionDetection/CameraViewController.swift:123-133 | on taps of on-screen buttons, each tap uses up exactly one of the taps left, so there are at most TapsLeft such taps, and the invariant holds after them |
| `Calibration.ActiveRunCompletesOnce` | VisionDetection/CameraViewController.swift:128-137 | on taps of on-screen buttons, every tap requests a capture, and completion is signalled on exactly one tap: the one that uses up the last tap left |
| `Calibration.ActiveRunKeepsCapped` | VisionDetection/CameraViewController.swift:123-133 | on taps of on-screen buttons, no count goes past 3 |
| `Calibration.SetupValid` | VisionDetection/CameraViewController.swift:95-115 | the freshly created nine points satisfy the invariant and need 27 taps |
| `Calibration.CalibrationCompletesOnTap27` | VisionDetection/CameraViewController.swift:95-137 | from the fresh screen, tapping on-screen points in any order, at most 27 taps are possible, and completion fires on the 27th tap and on no other |
| `Calibration.CalibrationTapsEachPointThrice` | VisionDetection/CameraViewController.swift:95-137 | after 27 taps of on-screen points from the fresh screen, in any order, the screen is empty and every point was tapped exactly three times |
| `Calibration.ThreeTapsRemove` | VisionDetection/CameraViewController.swift:119-139 | three taps on an untapped on-screen button give three captures with counts 1, 2 and 3; removal comes on the third tap only; the other buttons stay in order; the third tap completes exactly when that button was the last one |
| `Calibration.FirstPointTappedThrice` | VisionDetection/CameraViewController.swift:95-139 | on the fresh screen the first point is left_top; tapping it three times removes it on the third tap without completing, leaving the other eight points in order |
| `PhotoFiles.LabelOrUnknown` | VisionDetection/CameraViewController.swift:177 | the photo's label is the button's label when there is one, and "unknown" otherwise |
| `PhotoFiles.FileName` | VisionDetection/CameraViewController.swift:177-180 | the name is exactly `photo_`, then the label or "unknown", then `_` and the UUID string, then `.jpg` |
| `PhotoFiles.ParseFileName` | VisionDetection/CameraViewController.swift:177-180 | every name it accepts is exactly the file name built from the label and UUID string it returns |
| `PhotoFiles.ParseFileNameRoundTrip` | VisionDetection/CameraViewController.swift:177-180 | a file name built from a UUID string parses back to the current label, or "unknown" when there is none, and that UUID string |
| `PhotoFiles.FileNameInjective` | VisionDetection/CameraViewController.swift:180 | two photos share a file name only when label and UUID are both equal, so distinct UUIDs never collide, even for the same label |
| `CameraView.CameraViewController.constructor` | VisionDetection/CameraViewController.swift:18-23 | the controller starts with no counts, no buttons and no current button |
| `CameraView.CameraViewController.CurrentLabel` | VisionDetection/CameraViewController.swift:177 | the current button's accessibility label; none when no button is current or it has no label |
| `CameraView.CameraViewController.CreateButtons` | VisionDetection/CameraViewController.swift:80-116 | appends nine fresh, distinct buttons, the k-th with tag k and label LABELS[k]; adds a count of 0 for each; earlier buttons, counts and the current button are kept; from an empty controller the result is the calibration setup |
| `CameraView.CameraViewController.ViewDidLoad` | VisionDetection/CameraViewController.swift:35-77 | with no camera device (lines 35-42), it returns before creating any button and changes nothing; otherwise it calls createButtons (line 77), with the same outcome as `CreateButtons`; on a new controller the result is the calibration setup |
| `CameraView.CameraViewController.ButtonTapped` | VisionDetection/CameraViewController.swift:119-141 | the new counts, button list and current button, and the returned capture, removal and completion events, are exactly those of TapStep on the old state |
| `CameraView.CameraViewController.PhotoOutput` | VisionDetection/CameraViewController.swift:168-188 | with no photo data, nothing is written; otherwise one write goes out carrying the data, named `photo_<label>_<uuid>.jpg` after the current button's label or "unknown"; that name parses back to the label and UUID |

## Left out

- Camera session setup, device input, photo output, preview layer and `startRunning` (CameraViewController.swift:32-69) are platform camera plumbing. `ViewDidLoad` keeps only the early return when no device is found.
- `stopRunning` in `viewWillDisappear` (lines 161-164) is a session call with no controller state.
- `capturePhoto` (lines 144-147) is returned as the `capture` event. The model does not capture the crash when `photoOutput` is still nil because creating the device input threw (lines 44-69).
- Button frames, corner radius, colour and centre positions (lines 82-102) are floating-point layout values. The model keeps only tag, label and count.
- `removeFromSuperview`, the completion alert and `dismiss` (lines 132, 150-158) are UI calls. They appear only as the `removed` and `complete` events.
- `saveImageToCustomDirectory` (lines 191-220) is not modelled. It does directory creation under `images/cali`, JPEG encoding and the file write, all through foreign file-system calls, and its failures are only logged. The model stops at the `WriteRequest` the callback hands over.
- `UIImage(data:)` and its forced unwrap (lines 174, 186) decode the image in a foreign library. A write request carries the raw data.
- UUID generation (line 180) is a foreign random source. The UUID string is a parameter. `UuidChars` assumes its documented alphabet of upper-case hexadecimal digits and hyphens.
- The `print` diagnostics are not modelled, including the forced unwrap of `accessibilityLabel` at line 125. Every tracked button is created with a label.
- ButtonTapped: counts are unbounded integers, so Swift's overflow trap on `count + 1` is not modelled. On taps of on-screen buttons a count never exceeds 3 (`ActiveRunKeepsCapped`).
- PhotoOutput: the callback's `error` argument is not a parameter, because the source never reads it.
- Races between taps and asynchronous capture callbacks, and the background dispatch of `startRunning`, are concurrency with no synchronisation in the source. The model treats each tap and each callback as one atomic step.
- OpenCVWrapper.h is not part of this model. It only declares foreign OpenCV and Vision image functions.
