/**
  The fade effects: LEDStrip.fade and LEDStrip.fadePattern paint the strip
  once and then hand it to __fadeBrightness, which sweeps the global
  brightness up from the minimum to the maximum and back down, over and
  over until the thread is stopped.
 */
module Fade {
  import opened Common
  import opened Arith
  import opened Color
  import opened Pixels

  /** Python's range(hi, lo - 1, -1): hi, hi - 1, ..., lo. */
  function PyRangeDown(hi: int, lo: int): (r: seq<int>)
    ensures |r| == (if lo <= hi then hi - lo + 1 else 0)
    ensures |r| > 0 ==> r[0] == hi && r[|r| - 1] == lo
    ensures forall i :: 0 < i < |r| ==> r[i] == r[i - 1] - 1
    ensures forall k :: k in r <==> lo <= k <= hi
  {
    var r := seq(if lo <= hi then hi - lo + 1 else 0, i => hi - i);
    forall k | lo <= k <= hi
      ensures k in r
    {
      assert r[hi - k] == k;
    }
    r
  }

  /** The brightness levels one pass of __fadeBrightness's outer loop sets:
      the fade in, range(lo, hi + 1), then the fade out, range(hi, lo - 1, -1). */
  function FadeCycle(lo: int, hi: int): (s: seq<int>)
    ensures |s| == (if lo <= hi then 2 * (hi - lo + 1) else 0)
    ensures forall x :: x in s <==> lo <= x <= hi
  {
    PyRange(lo, hi + 1) + PyRangeDown(hi, lo)
  }

  /** The cycle climbs one step at a time from lo to hi, repeats hi, and
      descends one step at a time back to lo. */
  lemma FadeCycleShape(lo: int, hi: int)
    requires lo <= hi
    ensures var s, h := FadeCycle(lo, hi), hi - lo + 1;
            && s[0] == lo && s[h - 1] == hi && s[h] == hi && s[|s| - 1] == lo
            && (forall i :: 0 < i < h ==> s[i] == s[i - 1] + 1)
            && (forall i :: h < i < |s| ==> s[i] == s[i - 1] - 1)
  {
    var up, down := PyRange(lo, hi + 1), PyRangeDown(hi, lo);
    var s, h := FadeCycle(lo, hi), hi - lo + 1;
    assert forall i :: 0 <= i < h ==> s[i] == up[i];
    assert forall i :: h <= i < |s| ==> s[i] == down[i - h];
    assert forall i :: 0 <= i < h ==> up[i] == lo + i;
  }

  /** The fade out retraces the fade in: the cycle reads the same backwards. */
  lemma FadeCyclePalindrome(lo: int, hi: int, i: nat)
    requires i < |FadeCycle(lo, hi)|
    ensures FadeCycle(lo, hi)[i] == FadeCycle(lo, hi)[|FadeCycle(lo, hi)| - 1 - i]
  {
  }

  /** `m` copies of a cycle, one after another. */
  function Repeat(c: seq<int>, m: nat): (r: seq<int>)
    ensures |r| == m * |c|
  {
    if m == 0 then [] else Repeat(c, m - 1) + c
  }

  /** The k-th level set by the repeating loop is level k mod |c| of the cycle. */
  lemma {:induction false} RepeatIndex(c: seq<int>, m: nat, k: nat)
    requires k < m * |c|
    ensures Repeat(c, m)[k] == c[k % |c|]
  {
    var n := |c|;
    var before := (m - 1) * n;
    assert m * n == before + n;
    if k < before {
      RepeatIndex(c, m - 1, k);
    } else {
      ModUnique(k, n, m - 1, k - before);
    }
  }

  /** The levels __fadeBrightness sets during its first m passes. When lo
      exceeds hi both ranges are empty and the loop spins without setting
      any level. */
  function FadeLevels(lo: int, hi: int, m: nat): (levels: seq<int>)
    ensures |levels| == m * |FadeCycle(lo, hi)|
    ensures forall k :: 0 <= k < |levels| ==> levels[k] == FadeCycle(lo, hi)[k % |FadeCycle(lo, hi)|]
    ensures forall x :: x in levels ==> lo <= x <= hi
  {
    var c := FadeCycle(lo, hi);
    var levels := Repeat(c, m);
    forall k | 0 <= k < |levels|
      ensures levels[k] == c[k % |c|]
    {
      RepeatIndex(c, m, k);
    }
    forall x | x in levels
      ensures lo <= x <= hi
    {
      var k :| 0 <= k < |levels| && levels[k] == x;
      RepeatIndex(c, m, k);
    }
    levels
  }

  /** LEDStrip.fade, for m passes of the brightness loop: the strip is filled
      with one colour, then the levels are swept. A malformed colour raises
      before any level is set. */
  function FadeColor(buf: Buffer, color: string, lo: int, hi: int, m: nat): (res: Result<(Buffer, seq<int>)>)
    ensures res.Err? <==> |buf| > 0 && TranslateColor(color).Err?
    ensures res.Ok? ==> |res.value.0| == |buf|
    ensures res.Ok? ==> forall j :: 0 <= j < |buf| ==> res.value.0[j] == TranslateColor(color).value
    ensures res.Ok? ==> res.value.1 == FadeLevels(lo, hi, m)
  {
    var painted :- SetAllPixels(buf, color);
    Ok((painted, FadeLevels(lo, hi, m)))
  }

  /** LEDStrip.fadePattern, for m passes of the brightness loop: the pattern
      is painted, then the levels are swept. */
  function FadePattern(buf: Buffer, pattern: seq<PatternEntry>, lo: int, hi: int, m: nat): (res: Result<(Buffer, seq<int>)>)
    ensures res.Ok? <==> AllApply(pattern)
    ensures res.Ok? ==> |res.value.0| == |buf|
    ensures res.Ok? ==> res.value.1 == FadeLevels(lo, hi, m)
  {
    SetPatternFails(buf, pattern);
    var painted :- SetPattern(buf, pattern);
    Ok((painted, FadeLevels(lo, hi, m)))
  }

  /** fadePattern raises exactly when set_pattern would, and then shows the
      same pixels set_pattern shows. */
  lemma FadePatternPaints(buf: Buffer, pattern: seq<PatternEntry>, lo: int, hi: int, m: nat, k: int)
    requires 0 <= k < |buf|
    ensures FadePattern(buf, pattern, lo, hi, m).Ok? <==> AllApply(pattern)
    ensures FadePattern(buf, pattern, lo, hi, m).Ok? ==>
              FadePattern(buf, pattern, lo, hi, m).value.0[k] == Expected(buf, pattern, k)
  {
    SetPatternFails(buf, pattern);
    if AllApply(pattern) {
      SetPatternContents(buf, pattern, k);
    }
  }

  /** The route defaults, 0 to 255, sweep 512 levels per pass. */
  lemma DefaultCycle()
    ensures |FadeCycle(0, 255)| == 512
    ensures FadeCycle(0, 255)[0] == 0 && FadeCycle(0, 255)[255] == 255
    ensures FadeCycle(0, 255)[256] == 255 && FadeCycle(0, 255)[511] == 0
  {
  }
}
