/**
 * The camera screen's controller: the fields the tap handler and the photo
 * callback update, and the methods that update them. The camera session, the
 * views and the file system stay outside; what the controller asks of them
 * is returned as events.
 */
module CameraView {
  import opened Wrappers
  import opened Calibration
  import opened PhotoFiles

  class CameraViewController {
    /** `buttonClickCounts`: the click count of every tracked button. */
    var counts: map<Button, int>
    /** `buttons`: the calibration points still on screen, in creation order. */
    var buttons: seq<Button>
    /** `currentButton`: the button tapped last, which names the next photo. */
    var current: Option<Button>

    function State(): Tracker
      reads this
    {
      Tracker(counts, buttons, current)
    }

    /** The accessibility label of the current button; none when no button is
        current or the current button has no label. */
    function CurrentLabel(): (l: Option<string>)
      reads this
      ensures current.None? ==> l.None?
      ensures current.Some? ==> l == current.value.accessibilityLabel
    {
      match current
      case None => None
      case Some(b) => b.accessibilityLabel
    }

    constructor ()
      ensures State() == Tracker(map[], [], None)
    {
      counts := map[];
      buttons := [];
      current := None;
    }

    /** Creates the nine calibration points, appending each to the on-screen
        list with tag equal to its index, its label, and a count of 0. */
    method CreateButtons()
      modifies this
      ensures current == old(current)
      ensures |buttons| == |old(buttons)| + |LABELS|
      ensures buttons[..|old(buttons)|] == old(buttons)
      ensures forall i :: |old(buttons)| <= i < |buttons| ==>
                fresh(buttons[i]) && buttons[i].tag == i - |old(buttons)|
                && buttons[i].accessibilityLabel == Some(LABELS[i - |old(buttons)|])
      ensures Distinct(buttons[|old(buttons)|..])
      ensures forall x :: x in counts ==> x in old(counts) || x in buttons[|old(buttons)|..]
      ensures forall x :: x in old(counts) || x in buttons[|old(buttons)|..] ==> x in counts
      ensures forall x :: x in counts ==> counts[x] == if x in old(counts) then old(counts)[x] else 0
      ensures old(buttons) == [] && old(counts) == map[] ==> Setup(State())
    {
      var i := 0;
      ghost var n0 := |buttons|;
      while i < |LABELS|
        invariant 0 <= i <= |LABELS|
        invariant current == old(current)
        invariant |buttons| == n0 + i
        invariant buttons[..n0] == old(buttons)
        invariant forall k :: n0 <= k < |buttons| ==>
                    fresh(buttons[k]) && buttons[k].tag == k - n0 && buttons[k].accessibilityLabel == Some(LABELS[k - n0])
        invariant Distinct(buttons[n0..])
        invariant forall x :: x in counts ==> x in old(counts) || x in buttons[n0..]
        invariant forall x :: x in old(counts) || x in buttons[n0..] ==> x in counts
        invariant forall x :: x in counts ==> counts[x] == if x in old(counts) then old(counts)[x] else 0
      {
        var button := new Button(i, Some(LABELS[i]));
        counts := counts[button := 0];
        assert buttons[n0..] + [button] == (buttons + [button])[n0..];
        buttons := buttons + [button];
        i := i + 1;
      }
      assert buttons[n0..] == buttons[|old(buttons)|..];
      if old(buttons) == [] {
        assert buttons[n0..] == buttons;
      }
    }

    /** Screen load: without a camera device the handler returns before any
        calibration point is created; otherwise it creates them, with the same
        outcome as `CreateButtons`. */
    method ViewDidLoad(cameraFound: bool)
      modifies this
      ensures !cameraFound ==> State() == old(State())
      ensures cameraFound && old(State()) == Tracker(map[], [], None) ==> Setup(State()) && current == None
      ensures current == old(current)
      ensures cameraFound ==> |buttons| == |old(buttons)| + |LABELS|
      ensures cameraFound ==> buttons[..|old(buttons)|] == old(buttons)
      ensures cameraFound ==> forall i :: |old(buttons)| <= i < |buttons| ==>
                fresh(buttons[i]) && buttons[i].tag == i - |old(buttons)|
                && buttons[i].accessibilityLabel == Some(LABELS[i - |old(buttons)|])
      ensures cameraFound ==> Distinct(buttons[|old(buttons)|..])
      ensures cameraFound ==> forall x :: x in counts ==> x in old(counts) || x in buttons[|old(buttons)|..]
      ensures cameraFound ==> forall x :: x in old(counts) || x in buttons[|old(buttons)|..] ==> x in counts
      ensures cameraFound ==> forall x :: x in counts ==> counts[x] == if x in old(counts) then old(counts)[x] else 0
    {
      if !cameraFound {
        return;
      }
      CreateButtons();
    }

    /** The tap handler: records the tapped button as current and, when the
        button is tracked, counts the tap, requests a capture, removes the button
        at the threshold and signals completion once no button is left. */
    method ButtonTapped(sender: Button) returns (events: TapEvents)
      modifies this
      ensures Step(State(), events) == TapStep(old(State()), sender)
    {
      current := Some(sender);
      events := TapEvents(false, false, false);
      if sender in counts {
        var count := counts[sender];
        counts := counts[sender := count + 1];
        events := events.(capture := true);
        if counts[sender] >= REMOVE_AFTER {
          buttons := RemoveAll(buttons, sender);
          events := events.(removed := true);
          if buttons == [] {
            events := events.(complete := true);
          }
        }
      }
    }

    /** The photo callback: with no data it returns at once; otherwise it names
        the photo after the current button's label (or "unknown") and a UUID
        string, and hands name and data to storage. */
    method PhotoOutput(imageData: Option<seq<byte>>, uuid: string) returns (write: Option<WriteRequest>)
      ensures imageData.None? <==> write.None?
      ensures write.Some? ==> write.value.image == imageData.value
      ensures write.Some? ==> write.value.fileName == FileName(CurrentLabel(), uuid)
      ensures write.Some? && UuidChars(uuid) ==>
                ParseFileName(write.value.fileName) == Some((LabelOrUnknown(CurrentLabel()), uuid))
    {
      if imageData == None {
        return None;
      }
      var fileName := FileName(CurrentLabel(), uuid);
      if UuidChars(uuid) {
        ParseFileNameRoundTrip(CurrentLabel(), uuid);
      }
      write := Some(WriteRequest(fileName, imageData.value));
    }
  }
}
