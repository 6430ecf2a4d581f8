/**
  One frame of LEDStrip.color_wipe: the whole strip is filled with the
  background colour, a run of pixels starting at `counter` gets the wipe
  colour, and the counter moves one pixel on, modulo the strip length.
 */
module ColorWipe {
  import opened Common
  import opened Color
  import opened Pixels
  import opened Arith

  /** The arguments of color_wipe that shape a frame (the frame delay is
      left out). */
  datatype WipeParams = WipeParams(bgColor: string, wipeColor: string, pixels: int, seamless: bool)

  /** The number of pixels the run loop visits: range(min(pixels, n)). */
  function RunLength(pixels: int, n: nat): (len: nat)
    ensures len <= n
    ensures pixels >= n ==> len == n
    ensures 0 <= pixels <= n ==> len == pixels
    ensures pixels <= 0 ==> len == 0
  {
    var m := if pixels < n then pixels else n;
    if m > 0 then m else 0
  }

  /** The indices the run loop writes, in order: (i + counter) % n when
      seamless, i + counter otherwise. */
  function RunIndices(run: nat, counter: nat, n: nat, seamless: bool): (idx: seq<int>)
    requires run <= n
    ensures |idx| == run
  {
    seq(run, i requires 0 <= i < run => if seamless then (i + counter) % n else i + counter)
  }

  /** How far pixel k lies after `counter` going forward round an n-pixel
      ring: (k - counter) mod n. */
  function Offset(k: nat, counter: nat, n: nat): (d: nat)
    requires k < n && counter < n
    ensures d < n
    ensures (counter + d == k) || (counter + d == k + n)
  {
    if k >= counter then k - counter else k + n - counter
  }

  /** Whether pixel k of an n-pixel strip is covered by the run. */
  predicate InRun(k: nat, counter: nat, run: nat, n: nat, seamless: bool)
    requires k < n && counter < n
  {
    if seamless then Offset(k, counter, n) < run else counter <= k < counter + run
  }

  /** The frame color_wipe pushes for a given counter. */
  function WipeFrame(buf: Buffer, p: WipeParams, counter: nat): (res: Result<Buffer>)
    ensures res.Ok? ==> |res.value| == |buf|
  {
    var filled :- SetAllPixels(buf, p.bgColor);
    var run := RunLength(p.pixels, |buf|);
    if run == 0 then
      Ok(filled)
    else
      var wipe :- TranslateColor(p.wipeColor);
      Ok(Paint(filled, RunIndices(run, counter, |buf|, p.seamless), wipe))
  }

  /** One pass of the effect loop: the frame, then the counter advanced
      modulo the strip length, which raises on an empty strip. */
  function WipeStep(buf: Buffer, p: WipeParams, counter: nat): (res: Result<(Buffer, nat)>)
    ensures |buf| == 0 ==> res == Err(ZeroDivision)
    ensures |buf| > 0 ==> (res.Ok? <==> WipeFrame(buf, p, counter).Ok?)
    ensures res.Ok? ==> res.value.0 == WipeFrame(buf, p, counter).value
    ensures res.Ok? ==> res.value.1 == (counter + 1) % |buf| && res.value.1 < |buf|
  {
    var frame :- WipeFrame(buf, p, counter);
    if |buf| == 0 then Err(ZeroDivision) else Ok((frame, (counter + 1) % |buf|))
  }

  /** The counter after f frames, starting from 0. */
  function CounterAfter(f: nat, n: nat): (c: nat)
    requires n > 0
    ensures c < n
  {
    if f == 0 then 0 else (CounterAfter(f - 1, n) + 1) % n
  }

  /** Pass f of the loop starts from CounterAfter(f, n) and leaves
      CounterAfter(f + 1, n) for the next pass. */
  lemma WipeStepAdvances(buf: Buffer, p: WipeParams, f: nat)
    requires |buf| > 0 && WipeStep(buf, p, CounterAfter(f, |buf|)).Ok?
    ensures WipeStep(buf, p, CounterAfter(f, |buf|)).value.1 == CounterAfter(f + 1, |buf|)
  {
  }

  /** The first f passes of a loop that starts with counter 0 and whose
      pass `step` maps the counter to a frame and the counter for the next
      pass: the frames pushed, in order, and the counter left over. */
  function Passes(step: nat -> Result<(Buffer, nat)>, f: nat): (res: Result<(seq<Buffer>, nat)>)
    ensures res.Ok? ==> |res.value.0| == f
    ensures res.Ok? && f == 0 ==> res.value.1 == 0
    decreases f
  {
    if f == 0 then Ok(([], 0))
    else
      var before :- Passes(step, f - 1);
      var next :- step(before.1);
      Ok((before.0 + [next.0], next.1))
  }

  /** The last of f passes runs from the counter the first f - 1 left and
      appends its frame. */
  lemma PassesLast(step: nat -> Result<(Buffer, nat)>, f: nat)
    requires f > 0 && Passes(step, f).Ok?
    ensures Passes(step, f - 1).Ok? && step(Passes(step, f - 1).value.1).Ok?
    ensures Passes(step, f).value.0 == Passes(step, f - 1).value.0 + [step(Passes(step, f - 1).value.1).value.0]
    ensures Passes(step, f).value.1 == step(Passes(step, f - 1).value.1).value.1
  {
  }

  /** Frame k, once pushed, is kept by every later pass. */
  lemma {:induction false} PassesStable(step: nat -> Result<(Buffer, nat)>, f: nat, k: nat)
    requires Passes(step, f).Ok? && k < f
    ensures Passes(step, k + 1).Ok? && Passes(step, f).value.0[k] == Passes(step, k + 1).value.0[k]
    decreases f
  {
    if k < f - 1 {
      PassesLast(step, f);
      PassesStable(step, f - 1, k);
    }
  }

  /** One pass of color_wipe's loop on a given strip. */
  function WipePass(buf: Buffer, p: WipeParams): (step: nat -> Result<(Buffer, nat)>)
    ensures forall c :: step(c) == WipeStep(buf, p, c)
  {
    c => WipeStep(buf, p, c)
  }

  /** The first f passes of color_wipe's loop, which starts with counter 0:
      the frames pushed, and the counter the next pass starts from. Each
      pass repaints every pixel before drawing the run, so it is computed
      from the strip as given rather than from the previous frame. */
  function WipeRun(buf: Buffer, p: WipeParams, f: nat): (res: Result<(seq<Buffer>, nat)>)
    ensures res.Ok? ==> |res.value.0| == f
  {
    Passes(WipePass(buf, p), f)
  }

  /** After f passes the counter is CounterAfter(f, n). */
  lemma {:induction false} WipeRunCounterAfter(buf: Buffer, p: WipeParams, f: nat)
    requires f > 0 && WipeRun(buf, p, f).Ok?
    ensures |buf| > 0 && WipeRun(buf, p, f).value.1 == CounterAfter(f, |buf|)
  {
    var step := WipePass(buf, p);
    PassesLast(step, f);
    if f > 1 {
      WipeRunCounterAfter(buf, p, f - 1);
    }
    WipeStepAdvances(buf, p, f - 1);
  }

  /** The frame the last of f passes pushes. */
  lemma WipeRunLastFrame(buf: Buffer, p: WipeParams, f: nat)
    requires f > 0 && WipeRun(buf, p, f).Ok?
    ensures |buf| > 0 && WipeFrame(buf, p, CounterAfter(f - 1, |buf|)) == Ok(WipeRun(buf, p, f).value.0[f - 1])
  {
    PassesLast(WipePass(buf, p), f);
    if f > 1 {
      WipeRunCounterAfter(buf, p, f - 1);
    }
  }

  /** Pass k of the loop pushes the frame for counter CounterAfter(k, n). */
  lemma WipeRunFrames(buf: Buffer, p: WipeParams, f: nat, k: nat)
    requires WipeRun(buf, p, f).Ok? && k < f
    ensures |buf| > 0 && WipeFrame(buf, p, CounterAfter(k, |buf|)) == Ok(WipeRun(buf, p, f).value.0[k])
  {
    PassesStable(WipePass(buf, p), f, k);
    WipeRunLastFrame(buf, p, k + 1);
  }

  /** After f passes color_wipe's counter is f mod n. */
  lemma WipeRunCounter(buf: Buffer, p: WipeParams, f: nat)
    requires WipeRun(buf, p, f).Ok? && f > 0
    ensures |buf| > 0 && WipeRun(buf, p, f).value.1 == f % |buf|
  {
    WipeRunCounterAfter(buf, p, f);
    CounterAfterIsMod(f, |buf|);
  }

  /** After f frames the counter is f mod n: the run goes once round the
      strip every n frames. */
  lemma {:induction false} CounterAfterIsMod(f: nat, n: nat)
    requires n > 0
    ensures CounterAfter(f, n) == f % n
  {
    if f == 0 {
      ModUnique(0, n, 0, 0);
    } else {
      CounterAfterIsMod(f - 1, n);
      var q, r := (f - 1) / n, (f - 1) % n;
      assert f - 1 == q * n + r;
      if r + 1 < n {
        ModUnique(r + 1, n, 0, r + 1);
        ModUnique(f, n, q, r + 1);
      } else {
        ModUnique(r + 1, n, 1, 0);
        ModUnique(f, n, q + 1, 0);
      }
    }
  }

  /** In seamless mode the run indices wrap round the strip: every index is
      a real pixel, and a pixel is written exactly when it lies fewer than
      `run` pixels after the counter. */
  lemma {:induction false} SeamlessIndices(run: nat, counter: nat, n: nat)
    requires run <= n && counter < n
    ensures forall i :: 0 <= i < run ==> 0 <= RunIndices(run, counter, n, true)[i] < n
    ensures forall k :: 0 <= k < n ==> (k in RunIndices(run, counter, n, true) <==> Offset(k, counter, n) < run)
  {
    var idx := RunIndices(run, counter, n, true);
    forall i | 0 <= i < run
      ensures idx[i] == (if i + counter < n then i + counter else i + counter - n)
    {
      if i + counter < n {
        ModUnique(i + counter, n, 0, i + counter);
      } else {
        ModUnique(i + counter, n, 1, i + counter - n);
      }
    }
    forall k | 0 <= k < n
      ensures k in idx <==> Offset(k, counter, n) < run
    {
      var d := Offset(k, counter, n);
      if d < run {
        assert idx[d] == k;
      }
    }
  }

  /** Without seamless, the run indices run straight on from the counter. */
  lemma PlainIndices(run: nat, counter: nat, n: nat)
    requires run <= n
    ensures forall k :: k in RunIndices(run, counter, n, false) <==> counter <= k < counter + run
  {
    var idx := RunIndices(run, counter, n, false);
    forall k | counter <= k < counter + run
      ensures k in idx
    {
      assert idx[k - counter] == k;
    }
  }

  /** Near the end of the strip a plain run addresses pixels past the last
      one: the final index is counter + run - 1, which is n or more whenever
      counter + run > n, so fewer than `run` pixels light up. */
  lemma PlainRunOverflows(run: nat, counter: nat, n: nat)
    requires run <= n && 0 < run && counter + run > n
    ensures RunIndices(run, counter, n, false)[run - 1] >= n
  {
  }

  /** The seamless run never lights a pixel twice, so it lights exactly
      `run` distinct pixels. */
  lemma SeamlessDistinct(run: nat, counter: nat, n: nat, i: nat, j: nat)
    requires run <= n && counter < n && i < j < run
    ensures RunIndices(run, counter, n, true)[i] != RunIndices(run, counter, n, true)[j]
  {
    SeamlessIndices(run, counter, n);
    var idx := RunIndices(run, counter, n, true);
    if i + counter < n {
      ModUnique(i + counter, n, 0, i + counter);
    } else {
      ModUnique(i + counter, n, 1, i + counter - n);
    }
    if j + counter < n {
      ModUnique(j + counter, n, 0, j + counter);
    } else {
      ModUnique(j + counter, n, 1, j + counter - n);
    }
  }

  /** A frame fails exactly when a colour that is actually written is
      malformed; otherwise pixels in the run hold the wipe colour and every
      other pixel the background colour. */
  lemma WipeFrameSpec(buf: Buffer, p: WipeParams, counter: nat)
    requires counter < |buf| || counter == 0
    ensures var run := RunLength(p.pixels, |buf|);
            WipeFrame(buf, p, counter).Err? <==>
              (|buf| > 0 && TranslateColor(p.bgColor).Err?) || (run > 0 && TranslateColor(p.wipeColor).Err?)
    ensures WipeFrame(buf, p, counter).Ok? ==>
              forall k :: 0 <= k < |buf| ==>
                WipeFrame(buf, p, counter).value[k] ==
                  if InRun(k, counter, RunLength(p.pixels, |buf|), |buf|, p.seamless)
                  then TranslateColor(p.wipeColor).value
                  else TranslateColor(p.bgColor).value
  {
    var n, run := |buf|, RunLength(p.pixels, |buf|);
    if p.seamless {
      if n > 0 {
        SeamlessIndices(run, counter, n);
      }
    } else {
      PlainIndices(run, counter, n);
    }
  }

  /** The seamless example: ten pixels, a run of three, counter 9 lights
      pixels 9, 0 and 1. */
  lemma SeamlessWrapExample()
    ensures RunIndices(3, 9, 10, true) == [9, 0, 1]
  {
  }
}
