/**
 * The calibration tap counter of the camera screen, as a pure state machine.
 *
 * A `Tracker` is the controller's state: the click count of every tracked
 * button, the ordered list of buttons still on screen, and the button tapped
 * last. `TapStep` is one call of the tap handler; `Run` is a sequence of them.
 * The controller class (module CameraView) is proved to follow `TapStep`.
 */
module Calibration {
  import opened Wrappers

  /** A calibration point on screen. Its tag and accessibility label are set
      once, when it is created; buttons are told apart by identity. */
  class Button {
    const tag: int
    const accessibilityLabel: Option<string>

    constructor (tag: int, accessibilityLabel: Option<string>)
      ensures this.tag == tag && this.accessibilityLabel == accessibilityLabel
    {
      this.tag := tag;
      this.accessibilityLabel := accessibilityLabel;
    }
  }

  /** The labels of the nine calibration points, in creation order. */
  const LABELS: seq<string> := ["left_top", "left_middle", "left_bottom",
                                "right_top", "right_middle", "right_bottom",
                                "center_top", "center_bottom", "center_center"]

  /** A button leaves the screen once its count reaches this value. */
  const REMOVE_AFTER: int := 3

  datatype Tracker = Tracker(counts: map<Button, int>, buttons: seq<Button>, current: Option<Button>)

  /** What one tap asks of the outside world: a photo capture, the removal of
      the tapped button from the screen, the "collection complete" alert. */
  datatype TapEvents = TapEvents(capture: bool, removed: bool, complete: bool)

  datatype Step = Step(next: Tracker, events: TapEvents)

  datatype RunResult = RunResult(final: Tracker, events: seq<TapEvents>)

  ghost predicate Distinct(bs: seq<Button>) {
    forall i, j :: 0 <= i < j < |bs| ==> bs[i] != bs[j]
  }

  /** The state right after the nine calibration points are created. */
  ghost predicate Setup(s: Tracker) {
    && |s.buttons| == |LABELS|
    && Distinct(s.buttons)
    && (forall i :: 0 <= i < |s.buttons| ==> s.buttons[i].tag == i && s.buttons[i].accessibilityLabel == Some(LABELS[i]))
    && (forall x :: x in s.counts ==> x in s.buttons)
    && (forall x :: x in s.buttons ==> x in s.counts)
    && (forall x :: x in s.counts ==> s.counts[x] == 0)
  }

  /** The invariant every tap keeps: the on-screen list has no repeats, and a
      tracked button is on screen exactly while its count is below the threshold. */
  ghost predicate Valid(s: Tracker) {
    && Distinct(s.buttons)
    && (forall x :: x in s.buttons ==> x in s.counts)
    && (forall x :: x in s.counts ==> 0 <= s.counts[x] && (x in s.buttons <==> s.counts[x] < REMOVE_AFTER))
  }

  /** No tracked button has been counted past the threshold (kept by taps on
      buttons still on screen). */
  ghost predicate Capped(s: Tracker) {
    forall x :: x in s.counts ==> s.counts[x] <= REMOVE_AFTER
  }

  /** The tail of a list without repeats has none, and lacks the head. */
  lemma DistinctTail(bs: seq<Button>)
    requires bs != []
    ensures Distinct(bs) ==> Distinct(bs[1..]) && bs[0] !in bs[1..]
  {
    forall j, k | 0 <= j < k < |bs[1..]| && Distinct(bs) ensures bs[1..][j] != bs[1..][k] {
      assert bs[1..][j] == bs[j + 1] && bs[1..][k] == bs[k + 1];
    }
    forall j | 0 <= j < |bs[1..]| && Distinct(bs) ensures bs[1..][j] != bs[0] {
      assert bs[1..][j] == bs[j + 1];
    }
  }

  /** The on-screen list with every occurrence of `b` dropped (by identity) and
      the other buttons kept in order. */
  function RemoveAll(bs: seq<Button>, b: Button): (r: seq<Button>)
    ensures forall x :: x in r ==> x in bs && x != b
    ensures forall x :: x in bs && x != b ==> x in r
    ensures b !in bs ==> r == bs
    ensures Distinct(bs) ==> Distinct(r)
  {
    if bs == [] then []
    else
      var rest := RemoveAll(bs[1..], b);
      DistinctTail(bs);
      if bs[0] == b then rest else [bs[0]] + rest
  }

  /** In a list without repeats, removing the element at `i` splices it out:
      the others keep their relative order. */
  lemma {:induction false} RemoveAllSplice(bs: seq<Button>, i: nat)
    requires i < |bs| && Distinct(bs)
    ensures RemoveAll(bs, bs[i]) == bs[..i] + bs[i + 1..]
  {
    DistinctTail(bs);
    if i == 0 {
    } else {
      RemoveAllSplice(bs[1..], i - 1);
      assert bs[1..][i - 1] == bs[i];
      assert bs[0] != bs[i];
      assert bs[..i] == [bs[0]] + bs[1..][..i - 1];
      assert bs[i + 1..] == bs[1..][i..];
    }
  }

  /** One call of the tap handler on button `b`. */
  function TapStep(s: Tracker, b: Button): (r: Step)
    ensures r.next.current == Some(b)
    ensures r.next.counts.Keys == s.counts.Keys
    ensures b in s.counts ==> r.next.counts[b] == s.counts[b] + 1
    ensures forall x :: x in s.counts && x != b ==> r.next.counts[x] == s.counts[x]
    ensures r.events.capture <==> b in s.counts
    ensures r.events.removed <==> b in s.counts && s.counts[b] + 1 >= REMOVE_AFTER
    ensures forall x :: x in r.next.buttons ==> x in s.buttons && !(r.events.removed && x == b)
    ensures forall x :: x in s.buttons && !(r.events.removed && x == b) ==> x in r.next.buttons
    ensures !r.events.removed ==> r.next.buttons == s.buttons
    ensures r.events.complete <==> r.events.removed && r.next.buttons == []
    ensures b !in s.counts ==> r.next == s.(current := Some(b))
  {
    if b in s.counts then
      var n := s.counts[b] + 1;
      var counts := s.counts[b := n];
      if n >= REMOVE_AFTER then
        var remaining := RemoveAll(s.buttons, b);
        Step(Tracker(counts, remaining, Some(b)), TapEvents(true, true, remaining == []))
      else
        Step(Tracker(counts, s.buttons, Some(b)), TapEvents(true, false, false))
    else
      Step(s.(current := Some(b)), TapEvents(false, false, false))
  }

  /** A removing tap on the on-screen button at index `i` deletes only that
      button; the remaining buttons keep their order. */
  lemma TapRemovesOnlyTapped(s: Tracker, i: nat)
    requires Valid(s) && i < |s.buttons|
    ensures TapStep(s, s.buttons[i]).next.buttons ==
            if s.counts[s.buttons[i]] + 1 >= REMOVE_AFTER then s.buttons[..i] + s.buttons[i + 1..] else s.buttons
  {
    RemoveAllSplice(s.buttons, i);
  }

  /** Taps still needed, over the buttons `bs`, to clear them all. */
  function TapsLeftIn(bs: seq<Button>, counts: map<Button, int>): int {
    if bs == [] then 0
    else (if bs[0] in counts then REMOVE_AFTER - counts[bs[0]] else 0) + TapsLeftIn(bs[1..], counts)
  }

  function TapsLeft(s: Tracker): int {
    TapsLeftIn(s.buttons, s.counts)
  }

  lemma {:induction false} TapsLeftAtLeastLength(bs: seq<Button>, counts: map<Button, int>)
    requires forall x :: x in bs ==> x in counts && counts[x] < REMOVE_AFTER
    ensures TapsLeftIn(bs, counts) >= |bs|
  {
    if bs != [] {
      TapsLeftAtLeastLength(bs[1..], counts);
    }
  }

  lemma {:induction false} TapsLeftAllZero(bs: seq<Button>, counts: map<Button, int>)
    requires forall x :: x in bs ==> x in counts && counts[x] == 0
    ensures TapsLeftIn(bs, counts) == REMOVE_AFTER * |bs|
  {
    if bs != [] {
      TapsLeftAllZero(bs[1..], counts);
    }
  }

  lemma {:induction false} TapsLeftUpdateAbsent(bs: seq<Button>, counts: map<Button, int>, b: Button, n: int)
    requires b !in bs
    ensures TapsLeftIn(bs, counts[b := n]) == TapsLeftIn(bs, counts)
  {
    if bs != [] {
      TapsLeftUpdateAbsent(bs[1..], counts, b, n);
    }
  }

  lemma {:induction false} TapsLeftUpdatePresent(bs: seq<Button>, counts: map<Button, int>, b: Button, n: int)
    requires Distinct(bs) && b in bs && b in counts
    ensures TapsLeftIn(bs, counts[b := n]) == TapsLeftIn(bs, counts) + counts[b] - n
  {
    DistinctTail(bs);
    if bs[0] == b {
      TapsLeftUpdateAbsent(bs[1..], counts, b, n);
    } else {
      TapsLeftUpdatePresent(bs[1..], counts, b, n);
    }
  }

  lemma {:induction false} TapsLeftRemoveAll(bs: seq<Button>, counts: map<Button, int>, b: Button)
    requires Distinct(bs) && b in bs && b in counts
    ensures TapsLeftIn(RemoveAll(bs, b), counts) == TapsLeftIn(bs, counts) - (REMOVE_AFTER - counts[b])
  {
    DistinctTail(bs);
    if bs[0] == b {
    } else {
      TapsLeftRemoveAll(bs[1..], counts, b);
      assert RemoveAll(bs, b) == [bs[0]] + RemoveAll(bs[1..], b);
      assert ([bs[0]] + RemoveAll(bs[1..], b))[1..] == RemoveAll(bs[1..], b);
    }
  }

  /** Under the invariant, the taps still needed bound the number of buttons on
      screen, and are zero exactly when the screen is clear. */
  lemma TapsLeftZero(s: Tracker)
    requires Valid(s)
    ensures TapsLeft(s) >= |s.buttons|
    ensures TapsLeft(s) == 0 <==> s.buttons == []
  {
    TapsLeftAtLeastLength(s.buttons, s.counts);
  }

  /** Every tap keeps the invariant; a tap on a button that is on screen uses
      up exactly one of the taps still needed, any other tap none. */
  lemma TapKeepsValid(s: Tracker, b: Button)
    requires Valid(s)
    ensures Valid(TapStep(s, b).next)
    ensures TapsLeft(TapStep(s, b).next) == TapsLeft(s) - (if b in s.buttons then 1 else 0)
  {
    var r := TapStep(s, b);
    if b in s.counts {
      var c := s.counts[b := s.counts[b] + 1];
      if b in s.buttons {
        TapsLeftUpdatePresent(s.buttons, s.counts, b, s.counts[b] + 1);
        if r.events.removed {
          TapsLeftRemoveAll(s.buttons, c, b);
        }
      } else {
        TapsLeftUpdateAbsent(s.buttons, s.counts, b, s.counts[b] + 1);
      }
    }
  }

  /** A tap on an on-screen button keeps every count within the threshold. */
  lemma ActiveTapKeepsCapped(s: Tracker, b: Button)
    requires Valid(s) && Capped(s) && b in s.buttons
    ensures Capped(TapStep(s, b).next)
  {
  }

  /** The tap handler called once per tap, in order. */
  function Run(s: Tracker, taps: seq<Button>): (r: RunResult)
    ensures |r.events| == |taps|
    decreases |taps|
  {
    if taps == [] then RunResult(s, [])
    else
      var step := TapStep(s, taps[0]);
      var rest := Run(step.next, taps[1..]);
      RunResult(rest.final, [step.events] + rest.events)
  }

  /** Every tap is on a button still on screen when it is tapped (removed
      buttons have left the view and cannot be tapped). */
  ghost predicate ActiveTaps(s: Tracker, taps: seq<Button>)
    decreases |taps|
  {
    taps == [] || (taps[0] in s.buttons && ActiveTaps(TapStep(s, taps[0]).next, taps[1..]))
  }

  /** Any sequence of taps keeps the invariant. */
  lemma {:induction false} RunKeepsValid(s: Tracker, taps: seq<Button>)
    requires Valid(s)
    ensures Valid(Run(s, taps).final)
    decreases |taps|
  {
    if taps != [] {
      TapKeepsValid(s, taps[0]);
      RunKeepsValid(TapStep(s, taps[0]).next, taps[1..]);
    }
  }

  /** Each tracked button ends with its count plus the number of times it was
      tapped; no button becomes tracked or untracked. */
  lemma {:induction false} RunCounts(s: Tracker, taps: seq<Button>, x: Button)
    ensures Run(s, taps).final.counts.Keys == s.counts.Keys
    ensures x in s.counts ==> Run(s, taps).final.counts[x] == s.counts[x] + multiset(taps)[x]
    decreases |taps|
  {
    if taps != [] {
      RunCounts(TapStep(s, taps[0]).next, taps[1..], x);
      assert taps == [taps[0]] + taps[1..];
      assert multiset(taps) == multiset([taps[0]]) + multiset(taps[1..]);
    }
  }

  /** Tap number k requests a capture exactly when the tapped button is tracked. */
  lemma {:induction false} RunCaptures(s: Tracker, taps: seq<Button>)
    ensures forall k :: 0 <= k < |taps| ==> (Run(s, taps).events[k].capture <==> taps[k] in s.counts)
    decreases |taps|
  {
    if taps != [] {
      var next := TapStep(s, taps[0]).next;
      RunCaptures(next, taps[1..]);
      assert forall k :: 1 <= k < |taps| ==> Run(s, taps).events[k] == Run(next, taps[1..]).events[k - 1];
    }
  }

  /** A tracked button is on screen after any sequence of taps exactly when its
      count plus its taps is still below the threshold: it never leaves after
      one or two taps, and always leaves on the third. */
  lemma RunOnScreenIff(s: Tracker, taps: seq<Button>, x: Button)
    requires Valid(s) && x in s.counts
    ensures x in Run(s, taps).final.buttons <==> s.counts[x] + multiset(taps)[x] < REMOVE_AFTER
  {
    RunKeepsValid(s, taps);
    RunCounts(s, taps, x);
  }

  /** A tap on an on-screen button requests a capture and signals completion
      exactly when it uses up the last tap left. */
  lemma ActiveTapEvents(s: Tracker, b: Button)
    requires Valid(s) && b in s.buttons
    ensures TapStep(s, b).events.capture
    ensures TapStep(s, b).events.complete <==> TapsLeft(s) == 1
  {
    TapKeepsValid(s, b);
    TapsLeftZero(TapStep(s, b).next);
  }

  /** On taps of on-screen buttons, each tap uses up one of the taps left, so
      there can be no more taps than that. */
  lemma {:induction false} ActiveRunUsesTaps(s: Tracker, taps: seq<Button>)
    requires Valid(s) && ActiveTaps(s, taps)
    ensures |taps| <= TapsLeft(s)
    ensures Valid(Run(s, taps).final) && TapsLeft(Run(s, taps).final) == TapsLeft(s) - |taps|
    decreases |taps|
  {
    TapsLeftZero(s);
    if taps != [] {
      TapKeepsValid(s, taps[0]);
      ActiveRunUsesTaps(TapStep(s, taps[0]).next, taps[1..]);
    }
  }

  /** On taps of on-screen buttons, every tap requests a capture, and
      completion is signalled on exactly one tap: the one that uses up the
      last tap left. */
  lemma {:induction false} ActiveRunCompletesOnce(s: Tracker, taps: seq<Button>)
    requires Valid(s) && ActiveTaps(s, taps)
    ensures forall k :: 0 <= k < |taps| ==> Run(s, taps).events[k].capture
    ensures forall k :: 0 <= k < |taps| ==> (Run(s, taps).events[k].complete <==> k == TapsLeft(s) - 1)
    decreases |taps|
  {
    if taps != [] {
      var next := TapStep(s, taps[0]).next;
      TapKeepsValid(s, taps[0]);
      ActiveTapEvents(s, taps[0]);
      ActiveRunCompletesOnce(next, taps[1..]);
      var evs := Run(s, taps).events;
      var rest := Run(next, taps[1..]).events;
      assert evs == [TapStep(s, taps[0]).events] + rest;
      forall k | 1 <= k < |taps|
        ensures evs[k].capture && (evs[k].complete <==> k == TapsLeft(s) - 1)
      {
        assert evs[k] == rest[k - 1];
      }
    }
  }

  /** On taps of on-screen buttons no count goes past the threshold. */
  lemma {:induction false} ActiveRunKeepsCapped(s: Tracker, taps: seq<Button>)
    requires Valid(s) && Capped(s) && ActiveTaps(s, taps)
    ensures Capped(Run(s, taps).final)
    decreases |taps|
  {
    if taps != [] {
      TapKeepsValid(s, taps[0]);
      ActiveTapKeepsCapped(s, taps[0]);
      ActiveRunKeepsCapped(TapStep(s, taps[0]).next, taps[1..]);
    }
  }

  /** The freshly created calibration screen keeps the invariant and needs 27 taps. */
  lemma SetupValid(s: Tracker)
    requires Setup(s)
    ensures Valid(s) && Capped(s)
    ensures TapsLeft(s) == 27
  {
    TapsLeftAllZero(s.buttons, s.counts);
  }

  /** From the freshly created screen, tapping on-screen buttons in any order:
      at most 27 taps are possible, and "collection complete" is signalled on
      the 27th tap and on no other. */
  lemma CalibrationCompletesOnTap27(s: Tracker, taps: seq<Button>)
    requires Setup(s) && ActiveTaps(s, taps)
    ensures |taps| <= 27
    ensures forall k :: 0 <= k < |taps| ==> (Run(s, taps).events[k].complete <==> k == 26)
  {
    SetupValid(s);
    ActiveRunUsesTaps(s, taps);
    ActiveRunCompletesOnce(s, taps);
  }

  /** After 27 taps of on-screen buttons from the freshly created screen, in any
      order, the screen is clear and every calibration point was tapped exactly
      three times. */
  lemma CalibrationTapsEachPointThrice(s: Tracker, taps: seq<Button>)
    requires Setup(s) && ActiveTaps(s, taps) && |taps| == 27
    ensures Run(s, taps).final.buttons == []
    ensures forall x :: x in s.buttons ==> multiset(taps)[x] == REMOVE_AFTER
  {
    SetupValid(s);
    ActiveRunUsesTaps(s, taps);
    ActiveRunKeepsCapped(s, taps);
    TapsLeftZero(Run(s, taps).final);
    forall x | x in s.buttons ensures multiset(taps)[x] == REMOVE_AFTER {
      RunCounts(s, taps, x);
    }
  }

  /** A tap on an on-screen tracked button that does not reach the threshold:
      one capture, the count up by one, the list unchanged, the invariant kept. */
  lemma CountingTap(s: Tracker, b: Button)
    requires Valid(s) && b in s.buttons && s.counts[b] + 1 < REMOVE_AFTER
    ensures TapStep(s, b).events == TapEvents(true, false, false)
    ensures TapStep(s, b).next.buttons == s.buttons
    ensures TapStep(s, b).next.counts[b] == s.counts[b] + 1
    ensures Valid(TapStep(s, b).next)
  {
    TapKeepsValid(s, b);
  }

  /** Three taps on an untapped on-screen button: three captures with counts
      1, 2 and 3, removal on the third tap only, and the other buttons stay on
      screen in order. */
  lemma ThreeTapsRemove(s: Tracker, i: nat)
    requires Valid(s) && i < |s.buttons| && s.counts[s.buttons[i]] == 0
    ensures var b := s.buttons[i];
            var t1 := TapStep(s, b);
            var t2 := TapStep(t1.next, b);
            var t3 := TapStep(t2.next, b);
            && t1.events == TapEvents(true, false, false) && t1.next.counts[b] == 1
            && t2.events == TapEvents(true, false, false) && t2.next.counts[b] == 2
            && t3.events.capture && t3.events.removed && t3.next.counts[b] == 3
            && t3.next.buttons == s.buttons[..i] + s.buttons[i + 1..]
            && (t3.events.complete <==> |s.buttons| == 1)
  {
    var b := s.buttons[i];
    CountingTap(s, b);
    var t1 := TapStep(s, b);
    CountingTap(t1.next, b);
    var t2 := TapStep(t1.next, b);
    TapRemovesOnlyTapped(t2.next, i);
    assert |s.buttons[..i] + s.buttons[i + 1..]| == |s.buttons| - 1;
  }

  /** Scenario: tapping left_top, the first calibration point, three times on
      the fresh screen; the third tap removes it and does not complete. */
  lemma FirstPointTappedThrice(s: Tracker)
    requires Setup(s)
    ensures s.buttons[0].accessibilityLabel == Some("left_top")
    ensures var b := s.buttons[0];
            var t3 := TapStep(TapStep(TapStep(s, b).next, b).next, b);
            t3.events == TapEvents(true, true, false) && t3.next.buttons == s.buttons[1..]
  {
    SetupValid(s);
    assert s.buttons[0].accessibilityLabel == Some(LABELS[0]);
    ThreeTapsRemove(s, 0);
  }
}
