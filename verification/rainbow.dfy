/**
  The rainbow effect of LEDStrip.cycle_rainbow: the three-segment colour
  wheel (LEDStrip.__wheel) and the hue index each pixel shows in frame j.
 */
module Rainbow {
  import opened Common
  import opened Color
  import opened Arith

  /** A position on the colour wheel; the source masks it with & 255. */
  type Hue = h: int | 0 <= h < 256

  /** LEDStrip.__wheel: red rises while green falls, then blue rises while
      red falls, then green rises while blue falls. */
  function Wheel(pos: Hue): (c: Rgb)
    ensures c.r + c.g + c.b == 255
    ensures c.r == 0 || c.g == 0 || c.b == 0
  {
    if pos < 85 then
      Rgb(pos * 3, 255 - pos * 3, 0)
    else if pos < 170 then
      var p := pos - 85;
      Rgb(255 - p * 3, 0, p * 3)
    else
      var p := pos - 170;
      Rgb(0, p * 3, 255 - p * 3)
  }

  /** Reads the wheel position back from a colour, if the colour is on the
      wheel. Position 255 shows the same colour as position 0. */
  function WheelIndex(c: Rgb): (h: Option<Hue>)
    ensures h.Some? ==> h.value < 255
  {
    if c.b == 0 && c.r + c.g == 255 && c.r % 3 == 0 && c.r < 255 then Some(c.r / 3)
    else if c.g == 0 && c.r + c.b == 255 && c.b % 3 == 0 && c.b < 255 then Some(85 + c.b / 3)
    else if c.r == 0 && c.g + c.b == 255 && c.g % 3 == 0 && c.g < 255 then Some(170 + c.g / 3)
    else None
  }

  /** Every wheel colour is read back to its position, modulo the closing
      of the loop at 255. */
  lemma WheelIndexOfWheel(pos: Hue)
    ensures WheelIndex(Wheel(pos)) == Some(pos % 255)
  {
    var c := Wheel(pos);
    if pos < 85 {
      assert c.r == pos * 3 && c.b == 0;
      ModUnique(pos * 3, 3, pos, 0);
      assert c.r / 3 == pos;
      ModUnique(pos, 255, 0, pos);
    } else if pos < 170 {
      assert c.b == (pos - 85) * 3 && c.g == 0 && c.r > 0;
      ModUnique((pos - 85) * 3, 3, pos - 85, 0);
      assert c.b / 3 == pos - 85;
      ModUnique(pos, 255, 0, pos);
    } else if pos < 255 {
      assert c.g == (pos - 170) * 3 && c.r == 0 && c.b > 0;
      ModUnique((pos - 170) * 3, 3, pos - 170, 0);
      assert c.g / 3 == pos - 170;
      ModUnique(pos, 255, 0, pos);
    } else {
      assert c == Rgb(0, 255, 0);
      ModUnique(pos, 255, 1, 0);
    }
  }

  /** A colour read back to a position is exactly that position's wheel colour. */
  lemma WheelOfWheelIndex(c: Rgb, pos: Hue)
    requires WheelIndex(c) == Some(pos)
    ensures Wheel(pos) == c
  {
  }

  /** The wheel is a closed loop of 255 distinct colours: position 255 meets
      position 0 and no other two positions share a colour. */
  lemma WheelLoop(p: Hue, q: Hue)
    ensures Wheel(p) == Wheel(q) <==> p % 255 == q % 255
  {
    WheelIndexOfWheel(p);
    WheelIndexOfWheel(q);
  }

  /** Neighbouring positions differ by at most 3 in every channel: the
      rainbow has no jumps. */
  lemma WheelSmooth(pos: Hue)
    requires pos < 255
    ensures -3 <= Wheel(pos + 1).r - Wheel(pos).r <= 3
    ensures -3 <= Wheel(pos + 1).g - Wheel(pos).g <= 3
    ensures -3 <= Wheel(pos + 1).b - Wheel(pos).b <= 3
  {
  }

  /** Where pixel i of n sits on the wheel before any frame shift:
      int(i * 256 / n), computed here with integer division. */
  function PixelOffset(i: nat, n: nat): (o: nat)
    requires i < n
    ensures o < 256
    ensures o * n <= i * 256 < (o + 1) * n
  {
    var o := i * 256 / n;
    assert n * o + (i * 256) % n == i * 256;
    o
  }

  /** The hue pixel i of n shows in frame j (LEDStrip.py line 54). */
  function HueIndex(i: nat, n: nat, j: nat): (h: Hue)
    requires i < n
    ensures forall o: nat :: o * n <= i * 256 < (o + 1) * n ==> h == (o + j) % 256
  {
    OffsetUnique(i, n);
    (PixelOffset(i, n) + j) % 256
  }

  /** The integer part of i*256/n is the only o with o*n <= i*256 < (o+1)*n. */
  lemma OffsetUnique(i: nat, n: nat)
    requires i < n
    ensures forall o: nat :: o * n <= i * 256 < (o + 1) * n ==> o == PixelOffset(i, n)
  {
    var p := PixelOffset(i, n);
    forall o: nat | o * n <= i * 256 < (o + 1) * n
      ensures o == p
    {
      MulCancel(o, p + 1, n);
      MulCancel(p, o + 1, n);
    }
  }

  /** Offsets grow with the pixel index: the strip shows the wheel in order. */
  lemma OffsetMonotone(i: nat, k: nat, n: nat)
    requires i <= k < n
    ensures PixelOffset(i, n) <= PixelOffset(k, n)
  {
    var a, b := PixelOffset(i, n), PixelOffset(k, n);
    assert a * n < (b + 1) * n;
    MulCancel(a, b + 1, n);
  }

  lemma MulCancel(x: nat, y: nat, n: nat)
    requires x * n < y * n
    ensures x < y
  {
  }

  /** The first pixel shows the frame index itself. */
  lemma FirstPixelHue(n: nat, j: nat)
    requires 0 < n
    ensures HueIndex(0, n, j) == j % 256
  {
  }

  /** Each frame moves every pixel one step around the wheel. */
  lemma HueAdvances(i: nat, n: nat, j: nat)
    requires i < n
    ensures HueIndex(i, n, j + 1) == (HueIndex(i, n, j) + 1) % 256
  {
  }

  lemma HueShiftTurns(o: nat, r: nat, turns: nat)
    ensures (o + r + 256 * turns) % 256 == (o + r) % 256
  {
  }

  /** The pixel colours of frame j of an n-pixel rainbow. */
  function RainbowFrame(n: nat, j: nat): (frame: seq<Rgb>)
    ensures |frame| == n
  {
    seq(n, i requires 0 <= i < n => Wheel(HueIndex(i, n, j)))
  }

  /** Frame j of a cycle repeats frame j mod 256: one cycle of
      256 * interval frames turns the wheel round `interval` times. */
  lemma RainbowPeriodic(n: nat, j: nat)
    ensures RainbowFrame(n, j) == RainbowFrame(n, j % 256)
  {
    forall i | 0 <= i < n
      ensures HueIndex(i, n, j) == HueIndex(i, n, j % 256)
    {
      HueShiftTurns(PixelOffset(i, n), j % 256, j / 256);
    }
  }
}
