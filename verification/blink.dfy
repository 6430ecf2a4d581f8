/**
  LEDStrip.blink: the whole strip alternates between two colours, one
  colour per pass of the loop, starting with the first. The loop checks
  only the stop flag, so pausing does not hold a blink.
 */
module Blink {
  import opened Common
  import opened Color
  import opened Pixels

  /** One pass's choice: the colour to fill with, and the new value of the
      colorFlip variable. */
  function BlinkStep(flip: bool, color1: string, color2: string): (step: (string, bool))
    ensures step.1 != flip
    ensures step.0 == (if flip then color2 else color1)
  {
    if flip then (color2, false) else (color1, true)
  }

  /** The colour pass k shows when the loop starts with colorFlip = flip:
      the first colour on even passes, unless the flip started set. */
  function Shown(color1: string, color2: string, flip: bool, k: nat): string {
    if (k % 2 == 0) != flip then color1 else color2
  }

  /** The colours of the first m passes, starting from colorFlip = flip. */
  function BlinkColors(color1: string, color2: string, flip: bool, m: nat): (s: seq<string>)
    ensures |s| == m
    decreases m
  {
    if m == 0 then []
    else
      var step := BlinkStep(flip, color1, color2);
      [step.0] + BlinkColors(color1, color2, step.1, m - 1)
  }

  /** The loop alternates: pass k shows Shown(k). */
  lemma {:induction false} BlinkColorsAlternate(color1: string, color2: string, flip: bool, m: nat, k: nat)
    requires k < m
    ensures BlinkColors(color1, color2, flip, m)[k] == Shown(color1, color2, flip, k)
    decreases m
  {
    if k > 0 {
      BlinkColorsAlternate(color1, color2, !flip, m - 1, k - 1);
    }
  }

  /** blink as called: colorFlip starts False, so the colours run
      color1, color2, color1, ... */
  lemma BlinkStartsWithFirst(color1: string, color2: string, m: nat, k: nat)
    requires k < m
    ensures BlinkColors(color1, color2, false, m)[k] == (if k % 2 == 0 then color1 else color2)
  {
    BlinkColorsAlternate(color1, color2, false, m, k);
  }

  /** The frames shown when each colour in turn fills the whole strip. The
      first malformed colour raises inside set_all_pixels, which ends the
      thread. */
  function ShowAll(buf: Buffer, colors: seq<string>): (res: Result<seq<Buffer>>)
    ensures res.Ok? ==> |res.value| == |colors|
    ensures res.Ok? ==> forall k :: 0 <= k < |colors| ==> |res.value[k]| == |buf|
    decreases |colors|
  {
    if |colors| == 0 then Ok([])
    else
      var frame :- SetAllPixels(buf, colors[0]);
      var rest :- ShowAll(frame, colors[1..]);
      Ok([frame] + rest)
  }

  /** The frames of the first m passes of blink's loop. */
  function BlinkRun(buf: Buffer, color1: string, color2: string, flip: bool, m: nat): (res: Result<seq<Buffer>>)
    ensures res.Ok? ==> |res.value| == m
  {
    ShowAll(buf, BlinkColors(color1, color2, flip, m))
  }

  /** Showing colours raises exactly when the strip has pixels and one of
      the colours is malformed. */
  lemma {:induction false} ShowAllFails(buf: Buffer, colors: seq<string>)
    ensures ShowAll(buf, colors).Ok? <==>
              |buf| == 0 || forall k :: 0 <= k < |colors| ==> TranslateColor(colors[k]).Ok?
    decreases |colors|
  {
    if |colors| > 0 {
      var first := SetAllPixels(buf, colors[0]);
      if first.Ok? {
        ShowAllFails(first.value, colors[1..]);
        assert forall k :: 0 < k < |colors| ==> colors[1..][k - 1] == colors[k];
      }
    }
  }

  /** set_all_pixels does not depend on what the strip showed before. */
  lemma SetAllPixelsForgets(a: Buffer, b: Buffer, color: string)
    requires |a| == |b|
    ensures SetAllPixels(a, color) == SetAllPixels(b, color)
  {
    if SetAllPixels(a, color).Ok? {
      assert SetAllPixels(a, color).value == SetAllPixels(b, color).value;
    }
  }

  /** When showing succeeds, frame k is the strip filled with colour k. */
  lemma {:induction false} ShowAllFrames(buf: Buffer, colors: seq<string>, k: nat)
    requires ShowAll(buf, colors).Ok? && k < |colors|
    ensures SetAllPixels(buf, colors[k]) == Ok(ShowAll(buf, colors).value[k])
    decreases |colors|
  {
    var first := SetAllPixels(buf, colors[0]);
    var rest := ShowAll(first.value, colors[1..]);
    assert ShowAll(buf, colors).value == [first.value] + rest.value;
    if k > 0 {
      assert colors[1..][k - 1] == colors[k];
      ShowAllFrames(first.value, colors[1..], k - 1);
      SetAllPixelsForgets(buf, first.value, colors[k]);
    }
  }

  /** blink raises exactly when the strip has pixels and a colour one of its
      passes shows is malformed: the first colour from the first pass on,
      the second from the second pass on. */
  lemma BlinkRunFails(buf: Buffer, color1: string, color2: string, m: nat)
    ensures BlinkRun(buf, color1, color2, false, m).Ok? <==>
              || |buf| == 0
              || ((m > 0 ==> TranslateColor(color1).Ok?) && (m > 1 ==> TranslateColor(color2).Ok?))
  {
    var colors := BlinkColors(color1, color2, false, m);
    ShowAllFails(buf, colors);
    if m > 0 {
      BlinkColorsAlternate(color1, color2, false, m, 0);
    }
    if m > 1 {
      BlinkColorsAlternate(color1, color2, false, m, 1);
    }
    forall k | 0 <= k < m
      ensures colors[k] == color1 || colors[k] == color2
    {
      BlinkColorsAlternate(color1, color2, false, m, k);
    }
  }

  /** When blink succeeds, frame k fills the strip with color1 on even
      passes and color2 on odd ones. */
  lemma BlinkRunFrames(buf: Buffer, color1: string, color2: string, m: nat, k: nat)
    requires BlinkRun(buf, color1, color2, false, m).Ok? && k < m
    ensures SetAllPixels(buf, if k % 2 == 0 then color1 else color2) == Ok(BlinkRun(buf, color1, color2, false, m).value[k])
  {
    BlinkColorsAlternate(color1, color2, false, m, k);
    ShowAllFrames(buf, BlinkColors(color1, color2, false, m), k);
  }
}
