# Raspberry Pi LED strip controller, modelled in Dafny

The controller drives one WS2812B strip from a small Flask service. It has
three parts, and this project models each of them.

- **The effects of `LEDStrip`** work on a pixel buffer. A buffer is a sequence
  of RGB triples, and the effects are pure functions over it:
  - colour parsing (`__translateColor`);
  - the rainbow colour wheel (`__wheel`) and the per-pixel hue index of
    `cycle_rainbow`;
  - `set_all_pixels`, `clear` and `set_pattern`;
  - one frame of `color_wipe`;
  - the brightness sweep of `__fadeBrightness`, together with `fade` and
    `fadePattern`;
  - the two-colour alternation of `blink`.
- **`LightThread`** is a pair of flags. The stop flag can only be set.
  `pause` sets the pause flag and `resume` clears it.
- **The controller in `app.py`** keeps one animation slot. The slot holds the
  recorded thread ident (`Strip1ThreadID`, with `None` standing for -1), along
  with the set of animation threads still alive and each thread's flags. The
  project models:
  - `getStrip1Thread`, `killStrip1Thread`, `startStrip1Thread` and
    `restartStrip1Thread`;
  - the effect routes, which answer success whether or not anything started;
  - the `/pause` and `/resume` decision branches, with their exact error
    messages;
  - `/setbrightness`, which pauses the animation and then fails.

Modules, one per file:

| file | module | covers |
|---|---|---|
| `common.dfy` | `Common`, `Arith` | `Option`, `Result`, the exceptions the code can raise, and remainder facts |
| `color.dfy` | `Color` | `Rgb`, Python's `int(text, 16)` on a two-character slice, `__translateColor` |
| `rainbow.dfy` | `Rainbow` | `__wheel`, the hue index, rainbow frames |
| `pixels.dfy` | `Pixels` | the buffer, `set_all_pixels`, `clear`, `set_pattern` |
| `wipe.dfy` | `ColorWipe` | `color_wipe` frames, passes of its loop, and the counter |
| `fade.dfy` | `Fade` | `__fadeBrightness`, `fade`, `fadePattern` |
| `blink.dfy` | `Blink` | `blink` |
| `light_thread.dfy` | `LightThread` | the two-flag state machine |
| `controller.dfy` | `Controller` | the slot lifecycle, the pause/resume routes and `/setbrightness` |

The model follows the code in four places where stricter behaviour might be
expected:
- **Colour parsing is lenient.** A colour is read as three slices, each given
  to `int(text, 16)`. So short strings, inner spaces and a leading `+` are
  accepted, and the first character is never checked.
- **Out-of-range indices raise nothing.** An out-of-range pixel index in a
  pattern or a plain wipe run is passed on to the driver rather than reported
  as a failure.
- **`blink` takes exactly two colours**, not a list.
- **A dead thread's recorded ident is never cleared.** The controller has no
  code that does it, so the slot stays stale.

## Model

| member | source | states |
|---|---|---|
| Color.TranslateColor | LEDStrip.py:143-145 | a colour translates exactly when int() accepts all three slices and none of them is negative, and only when it has at least six characters |
| Color.ParseHexField | LEDStrip.py:144 | int(text, 16) on one slice succeeds exactly for the shapes IntAccepts lists (one or two hex digits, or one hex digit after a sign or a space or before a space) and otherwise raises ValueError; an empty slice raises, a run of hex digits gives its hex value, and any accepted value lies in (-16, 256) |
| Color.Field | LEDStrip.py:144 | one channel slice color[lo:lo+2]: two hex digits there give their pair value, and any accepted value lies in (-16, 256) |
| Color.PySlice | LEDStrip.py:144 | Python slicing clamps: an empty result exactly when the start is past the end of the string or the bounds meet, s[lo..hi] when the end is in range, and the tail s[lo..] when only the start is |
| Color.ParseHexFieldShapes | LEDStrip.py:144 | int() on a two-character slice accepts a leading sign or space and a trailing space around one hex digit, negates after a minus, and rejects a digit followed by a non-digit and a slice of two spaces |
| Color.TranslateWellFormed | LEDStrip.py:143-145 | "#RRGGBB" gives red, green and blue equal to the hex values of characters 1-2, 3-4 and 5-6 |
| Color.TranslateToHex | LEDStrip.py:143-145 | formatting any triple as two-digit hex and translating it back gives the triple (round trip) |
| Color.ToHex | LEDStrip.py:141 | the "#RRGGBB" text of a colour is a well-formed colour string |
| Color.ChannelToHex | LEDStrip.py:144 | two hex digits whose value is the channel |
| Color.TranslateFields | LEDStrip.py:144-145 | three non-negative channel fields make the colour they spell |
| Color.TranslateNegativeField | LEDStrip.py:144-145 | a channel whose value is negative is rejected ("-0" is zero and is accepted) |
| Color.TranslateSameFields | LEDStrip.py:144 | the result depends only on the three slices |
| Color.TranslateIgnoresMarker | LEDStrip.py:144 | the first character is never examined |
| Color.TranslateIgnoresTail | LEDStrip.py:144 | characters after the seventh are ignored |
| Color.TranslateFiveDigits | LEDStrip.py:144 | "#FFFFF" is accepted as (255, 255, 15) because the blue slice is one character |
| Color.TranslateSignsAndSpaces | LEDStrip.py:144 | int() strips spaces and accepts a sign: "# 1+2 3" is (1, 2, 3) |
| Color.TranslateBadDigit | LEDStrip.py:144 | a non-hex character raises: "#GG0000" is an error |
| Rainbow.Wheel | LEDStrip.py:150-158 | every wheel colour has channels summing to 255, with at least one channel 0 |
| Rainbow.WheelIndexOfWheel | LEDStrip.py:150-158 | the wheel position of any wheel colour can be read back from it, modulo 255 |
| Rainbow.WheelOfWheelIndex | LEDStrip.py:150-158 | a colour read back to a position is that position's wheel colour |
| Rainbow.WheelLoop | LEDStrip.py:150-158 | two positions show the same colour exactly when they agree modulo 255, so the wheel is a loop of 255 colours |
| Rainbow.WheelSmooth | LEDStrip.py:150-158 | neighbouring positions differ by at most 3 in every channel |
| Rainbow.PixelOffset | LEDStrip.py:54 | pixel i of n sits at the integer part of i*256/n, which is below 256 |
| Rainbow.OffsetMonotone | LEDStrip.py:54 | offsets never decrease along the strip |
| Rainbow.FirstPixelHue | LEDStrip.py:54 | pixel 0 shows hue j mod 256 in frame j |
| Rainbow.HueAdvances | LEDStrip.py:50-54 | each frame moves every pixel one step round the wheel |
| Rainbow.HueIndex | LEDStrip.py:54 | pixel i of n shows hue (o + j) mod 256 in frame j, for the o with o*n <= i*256 < (o+1)*n, which is what int() truncation of i*256/n gives |
| Rainbow.OffsetUnique | LEDStrip.py:54 | the truncated offset is the only o with o*n <= i*256 < (o+1)*n |
| Rainbow.RainbowFrame | LEDStrip.py:51-54 | a frame has one colour per pixel (its repetition is stated by RainbowPeriodic) |
| Rainbow.RainbowPeriodic | LEDStrip.py:50-54 | frame j equals frame j mod 256 |
| Pixels.SetPixel | LEDStrip.py:19-20 | one write changes only its own pixel, and a write outside the strip changes nothing |
| Pixels.Paint | LEDStrip.py:70-71 | after writing a colour to a list of indices, a pixel has that colour exactly when it is listed, and keeps its old colour otherwise |
| Pixels.PyRange | LEDStrip.py:70 | range(lo, hi) lists lo, lo+1, ..., hi-1 in order, and is empty when hi <= lo |
| Pixels.SetAllPixels | LEDStrip.py:26-29 | every pixel gets the translated colour; it raises exactly when the strip is non-empty and the colour does not translate |
| Pixels.Clear | LEDStrip.py:34-35 | clear always succeeds and turns every pixel off |
| Pixels.TranslateBlack | LEDStrip.py:35 | "#000000" translates to black |
| Pixels.EntryIndices | LEDStrip.py:67-75 | the indices an entry writes are exactly the pixels it designates: start..end when it has both keys, else just its position; KeyError exactly when it has neither |
| Pixels.ApplyEntry | LEDStrip.py:65-75 | applying one entry keeps the strip length (failure and contents are stated by ApplyEntrySpec) |
| Pixels.SetPattern | LEDStrip.py:63-76 | set_pattern keeps the strip length (failure and contents are stated by SetPatternFails and SetPatternContents) |
| Pixels.LastWriter | LEDStrip.py:65-75 | the last entry naming a pixel, and no later entry names it |
| Pixels.ApplyEntrySpec | LEDStrip.py:66-75 | one entry raises exactly when it has neither start/end nor a position, or names at least one pixel and its colour is malformed; the pixels it names get its colour and the others keep theirs |
| Pixels.SetPatternFails | LEDStrip.py:63-76 | set_pattern raises exactly when some entry cannot be applied |
| Pixels.SetPatternContents | LEDStrip.py:63-76 | each pixel ends with the colour of the last entry naming it, or keeps its colour when none does |
| Pixels.SetPatternExample | LEDStrip.py:63-76 | a red range 0..2 followed by a green position 1 on five dark pixels gives red, green, red, dark, dark |
| Pixels.RedAndGreen | LEDStrip.py:143-145 | "#FF0000" and "#00FF00" translate to red and green |
| ColorWipe.RunLength | LEDStrip.py:81 | the run length is min(pixels, n), and a negative count gives an empty run |
| ColorWipe.RunIndices | LEDStrip.py:94-98 | the run writes one index per run pixel (which ones is stated by SeamlessIndices and PlainIndices) |
| ColorWipe.Offset | LEDStrip.py:96 | the forward distance round the ring from the counter to a pixel |
| ColorWipe.WipeFrame | LEDStrip.py:88-104 | a frame has one colour per pixel (its contents are stated by WipeFrameSpec) |
| ColorWipe.WipeStep | LEDStrip.py:88-104 | an empty strip raises ZeroDivisionError; otherwise a pass fails exactly when its frame does, pushes that frame, and moves the counter to (counter + 1) mod n |
| ColorWipe.WipeStepAdvances | LEDStrip.py:102 | a pass that starts from CounterAfter(f, n) leaves CounterAfter(f + 1, n) |
| ColorWipe.Passes | LEDStrip.py:83-104 | f passes of a counter loop starting from 0 push f frames, and zero passes leave the counter at 0 |
| ColorWipe.PassesLast | LEDStrip.py:88-104 | the last of f passes runs from the counter the first f - 1 left and appends its frame to theirs |
| ColorWipe.PassesStable | LEDStrip.py:88-104 | later passes never change a frame already pushed |
| ColorWipe.WipeRun | LEDStrip.py:83-104 | f passes of color_wipe push f frames (their counter and contents are stated by WipeRunCounterAfter and WipeRunFrames) |
| ColorWipe.WipeRunCounterAfter | LEDStrip.py:83-102 | after f successful passes from counter 0 the counter is CounterAfter(f, n) |
| ColorWipe.WipeRunLastFrame | LEDStrip.py:88-104 | the last of f passes pushes the frame for counter CounterAfter(f - 1, n) |
| ColorWipe.WipeRunFrames | LEDStrip.py:83-104 | frame k of a run is the frame for counter CounterAfter(k, n) |
| ColorWipe.WipeRunCounter | LEDStrip.py:83-102 | after f passes the counter is f mod n |
| ColorWipe.CounterAfter | LEDStrip.py:102 | the counter always stays in [0, n) |
| ColorWipe.CounterAfterIsMod | LEDStrip.py:83-102 | after f frames the counter is f mod n |
| ColorWipe.SeamlessIndices | LEDStrip.py:95-96 | seamless run indices are always on the strip, and a pixel is written exactly when it lies less than the run length after the counter |
| ColorWipe.PlainIndices | LEDStrip.py:97-98 | plain run indices are exactly counter..counter+run-1 |
| ColorWipe.PlainRunOverflows | LEDStrip.py:97-98 | near the end of the strip a plain run addresses an index n or more |
| ColorWipe.SeamlessDistinct | LEDStrip.py:95-96 | a seamless run never writes the same pixel twice |
| ColorWipe.WipeFrameSpec | LEDStrip.py:88-98 | a frame raises exactly when a colour it actually writes is malformed; otherwise run pixels hold the wipe colour and all others the background |
| ColorWipe.SeamlessWrapExample | LEDStrip.py:95-96 | ten pixels, run 3, counter 9 lights pixels 9, 0, 1 |
| Fade.PyRangeDown | LEDStrip.py:175 | range(hi, lo-1, -1) starts at hi, ends at lo, steps down by one, and holds exactly lo..hi |
| Fade.FadeCycle | LEDStrip.py:165-180 | one sweep has 2*(hi-lo+1) levels (none when lo > hi), and its levels are exactly those in [lo, hi] |
| Fade.FadeCycleShape | LEDStrip.py:167-180 | the sweep climbs by one from lo to hi, repeats hi, and descends by one back to lo |
| Fade.FadeCyclePalindrome | LEDStrip.py:167-180 | the fade out retraces the fade in: the sweep reads the same backwards |
| Fade.RepeatIndex | LEDStrip.py:165 | the k-th level of the endless loop is level k mod the sweep length of one sweep |
| Fade.FadeLevels | LEDStrip.py:165-180 | m sweeps set m times the sweep length of levels, all within [lo, hi], and level k is level k mod the sweep length of one sweep |
| Fade.FadeColor | LEDStrip.py:40-42 | fade raises exactly when the colour is malformed on a non-empty strip; otherwise every pixel holds the colour and the levels are those of m sweeps |
| Fade.FadePattern | LEDStrip.py:115-120 | fadePattern raises exactly when some entry cannot be applied, keeps the strip length, and sets the levels of m sweeps |
| Fade.FadePatternPaints | LEDStrip.py:115-120 | fadePattern raises exactly when set_pattern would, and shows what set_pattern shows |
| Fade.DefaultCycle | app.py:123-124 | the route defaults 0 and 255 give a 512-level sweep 0..255, 255..0 |
| Blink.BlinkStep | LEDStrip.py:131-136 | each pass flips the flag, and shows color2 when the flag was set, color1 otherwise |
| Blink.BlinkColors | LEDStrip.py:130-136 | m passes show m colours (which ones is stated by BlinkColorsAlternate) |
| Blink.BlinkColorsAlternate | LEDStrip.py:128-136 | pass k shows color1 when k is even and the flag started clear, and alternates from there |
| Blink.BlinkStartsWithFirst | LEDStrip.py:128-136 | blink shows color1, color2, color1, ... starting with color1 |
| Blink.ShowAll | LEDStrip.py:130-136 | filling the strip with each colour in turn gives one frame per colour, each the length of the strip |
| Blink.ShowAllFails | LEDStrip.py:130-136 | filling the strip with a list of colours raises exactly when the strip is non-empty and one of the colours is malformed |
| Blink.ShowAllFrames | LEDStrip.py:130-136 | frame k is the strip filled with colour k |
| Blink.BlinkRun | LEDStrip.py:128-137 | m passes of blink give m frames (failure and contents are stated by BlinkRunFails and BlinkRunFrames) |
| Blink.BlinkRunFails | LEDStrip.py:128-136 | blink raises exactly when the strip is non-empty and color1 is malformed, or color2 is malformed and a second pass happens |
| Blink.BlinkRunFrames | LEDStrip.py:128-136 | frame k fills the strip with color1 on even passes and color2 on odd passes |
| Blink.SetAllPixelsForgets | LEDStrip.py:26-29 | set_all_pixels does not depend on the previous contents of the strip |
| LightThread.New | LightThread.py:7-8 | a new thread is neither stopped nor paused |
| LightThread.Stop | LightThread.py:10-11 | stop() makes stopped() true and leaves paused() alone |
| LightThread.Pause | LightThread.py:16-17 | pause() makes paused() true and leaves stopped() alone |
| LightThread.Resume | LightThread.py:19-20 | resume() makes paused() false and leaves stopped() alone |
| LightThread.Run | LightThread.py:10-23 | once stopped, a thread stays stopped whatever calls follow |
| LightThread.ApplyIdempotent | LightThread.py:10-20 | each of stop, pause and resume is idempotent |
| LightThread.StopCommutes | LightThread.py:10-20 | stop commutes with pause and with resume: the flags are independent |
| LightThread.LastLevelWins | LightThread.py:16-20 | between pause and resume the later call decides |
| LightThread.RunStopped | LightThread.py:10-14 | after any calls a thread is stopped exactly when it was stopped before or stop() was among them |
| LightThread.RunPaused | LightThread.py:16-23 | after any calls a thread is paused exactly when the last pause/resume was pause, or there was no resume and it was paused before |
| Controller.GetThread | app.py:27-32 | the recorded thread is found exactly when the slot holds an id whose thread is alive |
| Controller.Kill | app.py:33-40 | a live recorded thread ends paused, stopped and gone, and the slot is reset; with none, nothing changes, so a stale id stays |
| Controller.Start | app.py:42-50 | a thread starts, with clear flags, and is recorded exactly when the slot is empty; otherwise nothing changes |
| Controller.Restart | app.py:52-54 | kill then start keeps every live thread's flags on record |
| Controller.RestartReplaces | app.py:52-54 | from an empty slot or a live recorded thread, restart ends with the new thread recorded and running and the old one stopped and gone |
| Controller.ReuseJoinedIdent | app.py:33-54 | a new effect thread given the ident of the thread just joined is recorded and runs, and the invariant holds |
| Controller.RestartRefusesWhenStale | app.py:52-54 | with a stale id recorded, restart starts nothing and changes nothing |
| Controller.EffectRoute | app.py:82-94 | an effect route always answers success, and with a stale id it changes nothing |
| Controller.PauseRoute | app.py:154-164 | "No thread found" without a live recorded thread, "Thread is already paused" when paused, else success; only the recorded thread's pause flag changes |
| Controller.ResumeRoute | app.py:166-176 | "No thread found" without a live recorded thread, "Thread is not paused" when not paused, else success; only the recorded thread's pause flag changes |
| Controller.SetBrightnessRoute | app.py:178-187 | /setbrightness always ends in a server error; a live recorded thread is left paused with its stop flag unchanged, and nothing else changes |
| Controller.BrightnessLeavesPaused | app.py:154-187 | after /setbrightness on a live recorded thread, /pause is refused as "Thread is already paused" and /resume succeeds |
| Controller.PauseThenResume | app.py:154-176 | a successful pause is undone by a resume, which succeeds |
| Controller.ResumeThenPause | app.py:154-176 | a successful resume is undone by a pause, which succeeds |
| Controller.RoutesRefuseRepeats | app.py:154-176 | a second pause in a row, or a second resume, is refused |
| Controller.Exit | app.py:29-31 | a thread that dies leaves the live set and nothing else changes |
| Controller.InitInv | app.py:19 | the program starts with no recorded id and the invariant holding |
| Controller.AtMostOneLive | app.py:44-47 | under the invariant at most one animation thread is alive |
| Controller.StepInv | app.py:33-54 | every route, /setbrightness and every thread death keep the invariant: each live thread is the recorded one and has not been told to stop |
| Controller.RunInv | app.py:33-54 | the invariant holds after any admissible sequence of operations |
| Controller.StaleForever | app.py:35-44 | once the recorded id is stale, it stays recorded and no animation thread ever runs again |
| Controller.StaleTrace | app.py:35-47 | an effect starts as thread 1 and thread 1 dies; a later effect request answers success yet starts nothing |

## Left out

- **The hardware driver.** The `rpi_ws281x` calls (`PixelStrip`, `begin`,
  `setPixelColor`, `show`, `setBrightness`) are not modelled.
  - A pixel is an `Rgb` triple, not the packed 24-bit word of `Color()`.
  - The strip is a sequence of those triples.
  - A brightness level is reported as a number in a sequence.
- **Timing and real threads.** `time.sleep`, `Thread.start`, `join` and
  `threading.enumerate` are abstracted.
  - Live threads are a set of idents.
  - A joined thread leaves that set.
  - A thread that raises leaves it through `Exit`.
- **The endless effect loops.** They are modelled by single frames, or by a
  chosen number of passes (`m`). The stop and pause checks inside a frame are
  not modelled, so a frame or sweep interrupted half-way is not represented.
  Pause checks are not modelled either: no effect in the model reads the
  pause flag. In the code `color_wipe` checks it before each pass
  (LEDStrip.py:89), `cycle_rainbow` only between full cycles
  (LEDStrip.py:49), and `blink` and the fade loops never.
- **Negative delays.** Delays are assumed non-negative. `interval` and
  `speed` reach `time.sleep` unchecked (app.py:90-91, 109, 125, 137, 149),
  and `time.sleep` raises ValueError on a negative argument (LEDStrip.py:58,
  110, 137, 172, 180). With a negative delay an effect raises after its first
  frame or level, so the failure conditions of ColorWipe.WipeStep,
  Blink.BlinkRunFails and Fade.FadeColor, and the m sweeps of
  Fade.FadeLevels, describe only non-negative delays.
- **Flask plumbing.** This covers request parsing, JSON defaults, CORS, and
  the fresh `LEDStrip` each route builds. The `/setcolor`, `/setpattern` and
  `/clear` routes are modelled only as their `killStrip1Thread` call (`KillOp`).
- **The `/setbrightness` request body.** The route fails on
  `strip1.set_brightness`, which `LEDStrip` does not define, so the
  brightness it reads is never used.
- **`print` calls** at LEDStrip.py:84 and app.py:50.
- Controller.AtMostOneLive: holds only when requests are handled one at a
  time. `app.run(debug=True)` (app.py:190) serves requests on threads, so two
  `startStrip1Thread` calls can both pass the `Strip1ThreadID == -1` test
  (app.py:44) before either records its ident (app.py:47). Two animation
  threads then run, and only the later ident is recorded.
- Controller.RunInv: every operation is one atomic step. The interleaving of
  two concurrent requests described above is not modelled, and under it the
  invariant can break.
- **Thread ident reuse.** The interpreter can hand a dead thread's ident to a
  new, unrelated thread. The model assumes a new animation thread's ident
  differs only from the idents of the animation threads alive when it
  starts, after the old one has been joined.
- Controller.GetThread: searches only the animation threads.
  `threading.enumerate()` (app.py:29, 35) also lists Flask's request threads.
  One of them can be given the recycled ident of a dead animation thread.
  `getStrip1Thread` then returns that request thread. `.paused()`,
  `.pause()` or `.stop()` on it (app.py:37-38, 158, 170, 182) raises
  AttributeError, and the route answers with a server error rather than
  "No thread found" or success.
- **Non-ASCII input to `int()`.** Unicode whitespace and Unicode digits are
  not modelled. Of the ASCII characters, `int()` skips only space, tab, line
  feed, vertical tab, form feed and carriage return. The separators
  0x1c-0x1f, which `str.strip()` removes, make it raise. Python's
  underscore separators cannot occur in a two-character slice.
- Color.TranslateColor: a field such as "-F" gives the error
  `NegativeChannel`. Python would hand the negative channel to `Color()`,
  and the driver's reaction to that is not known.
- Pixels.SetPixel: a write to an index outside the strip is dropped, so the
  buffer keeps exactly n pixels. What `setPixelColor` does with such an
  index is the driver's business.
- **Missing or mistyped keys.** A pattern entry without `'color'`, and
  non-integer `start`/`end`/`position` or brightness values, are not
  modelled. A pattern entry always has a colour string.
- **The partial buffer.** When `set_pattern` raises half-way, the earlier
  entries' writes stay in the driver's buffer. The model returns only the
  error.
- Rainbow.Wheel: the parameter is already a value in 0..255. The source masks
  its argument with `& 255` at the call site (LEDStrip.py:54), and `HueIndex`
  reduces it modulo 256 there.
- Rainbow.PixelOffset: `int(i * 256 / n)` is float division truncated toward
  zero. For 0 <= i < n it equals integer division, which is what is modelled.
- Fade.FadeLevels: brightness values outside 0..255 are passed through, since
  what `setBrightness` does with them is the driver's business.
