/**
  The strip's pixel buffer and the LEDStrip operations that write it
  directly: set_all_pixels, clear and set_pattern. Each pixel write goes
  through __translateColor, so a malformed colour raises only when some
  pixel is actually written with it.
 */
module Pixels {
  import opened Common
  import opened Color

  /** One colour per LED, index 0 first. */
  type Buffer = seq<Rgb>

  /** setPixelColor on an n-pixel strip. A write outside 0..n-1 leaves the n
      modelled pixels as they were. */
  function SetPixel(buf: Buffer, k: int, c: Rgb): (r: Buffer)
    ensures |r| == |buf|
    ensures forall j :: 0 <= j < |buf| && j != k ==> r[j] == buf[j]
    ensures 0 <= k < |buf| ==> r[k] == c
  {
    if 0 <= k < |buf| then buf[k := c] else buf
  }

  /** Writes one colour to each index of `idx`, in order. */
  function Paint(buf: Buffer, idx: seq<int>, c: Rgb): (r: Buffer)
    ensures |r| == |buf|
    ensures forall j :: 0 <= j < |buf| ==> r[j] == (if j in idx then c else buf[j])
    decreases |idx|
  {
    if |idx| == 0 then buf else Paint(SetPixel(buf, idx[0], c), idx[1..], c)
  }

  /** Python's range(lo, hi): lo, lo + 1, ..., hi - 1. */
  function PyRange(lo: int, hi: int): (r: seq<int>)
    ensures |r| == (if lo < hi then hi - lo else 0)
    ensures forall i :: 0 <= i < |r| ==> r[i] == lo + i
    ensures forall k :: k in r <==> lo <= k < hi
  {
    var r := seq(if lo < hi then hi - lo else 0, i => lo + i);
    forall k | lo <= k < hi
      ensures k in r
    {
      assert r[k - lo] == k;
    }
    r
  }

  /** LEDStrip.set_all_pixels: every pixel 0..n-1 gets the colour. The colour
      is translated once per pixel, so an empty strip never raises. */
  function SetAllPixels(buf: Buffer, color: string): (res: Result<Buffer>)
    ensures res.Err? <==> |buf| > 0 && TranslateColor(color).Err?
    ensures res.Err? ==> res.error == TranslateColor(color).error
    ensures res.Ok? ==> |res.value| == |buf|
    ensures res.Ok? ==> forall j :: 0 <= j < |buf| ==> res.value[j] == TranslateColor(color).value
  {
    if |buf| == 0 then Ok(buf)
    else
      var c :- TranslateColor(color);
      Ok(Paint(buf, PyRange(0, |buf|), c))
  }

  /** LEDStrip.clear: set_all_pixels("#000000"), which always succeeds and
      turns every pixel off. */
  function Clear(buf: Buffer): (res: Result<Buffer>)
    ensures res.Ok?
    ensures |res.value| == |buf|
    ensures forall j :: 0 <= j < |buf| ==> res.value[j] == Black
  {
    TranslateBlack();
    SetAllPixels(buf, "#000000")
  }

  lemma TranslateBlack()
    ensures TranslateColor("#000000") == Ok(Black)
  {
    assert HexDigit(0) == '0';
    assert ChannelToHex(0) == "00";
    assert ToHex(Black) == "#000000";
    TranslateToHex(Black);
  }

  /** One dictionary of a set_pattern request. Only the keys the code reads
      are kept; an absent key is None. */
  datatype PatternEntry = PatternEntry(
    color: string,
    start: Option<int>,
    end: Option<int>,
    position: Option<int>)

  /** An entry is a range exactly when it has both 'start' and 'end'. */
  predicate IsRange(e: PatternEntry) {
    e.start.Some? && e.end.Some?
  }

  /** The indices an entry writes, in order: start..end inclusive, or its
      one position; KeyError when it is not a range and has no position. */
  function EntryIndices(e: PatternEntry): (res: Result<seq<int>>)
    ensures res.Err? <==> !IsRange(e) && e.position.None?
    ensures res.Err? ==> res.error == MissingKey
    ensures res.Ok? ==> forall k :: k in res.value <==> Designates(e, k)
    ensures res.Ok? && !IsRange(e) ==> res.value == [e.position.value]
  {
    if IsRange(e) then Ok(PyRange(e.start.value, e.end.value + 1))
    else if e.position.Some? then Ok([e.position.value])
    else Err(MissingKey)
  }

  /** One iteration of set_pattern's loop. */
  function ApplyEntry(buf: Buffer, e: PatternEntry): (res: Result<Buffer>)
    ensures res.Ok? ==> |res.value| == |buf|
  {
    var idx :- EntryIndices(e);
    if |idx| == 0 then Ok(buf)
    else
      var c :- TranslateColor(e.color);
      Ok(Paint(buf, idx, c))
  }

  /** LEDStrip.set_pattern: the entries are applied in list order. */
  function SetPattern(buf: Buffer, pattern: seq<PatternEntry>): (res: Result<Buffer>)
    ensures res.Ok? ==> |res.value| == |buf|
    decreases |pattern|
  {
    if |pattern| == 0 then Ok(buf)
    else
      var before :- SetPattern(buf, pattern[..|pattern| - 1]);
      ApplyEntry(before, pattern[|pattern| - 1])
  }

  /** Whether entry e names pixel k. */
  predicate Designates(e: PatternEntry, k: int) {
    if IsRange(e) then e.start.value <= k <= e.end.value else e.position == Some(k)
  }

  /** Whether the entry can be applied: it names its pixels, and if it names
      any, its colour translates. */
  predicate EntryApplies(e: PatternEntry) {
    && (IsRange(e) || e.position.Some?)
    && ((IsRange(e) && e.end.value < e.start.value) || TranslateColor(e.color).Ok?)
  }

  /** The index of the last entry that names pixel k, if any. */
  function LastWriter(pattern: seq<PatternEntry>, k: int): (w: Option<nat>)
    ensures w.Some? ==> w.value < |pattern| && Designates(pattern[w.value], k)
    ensures w.Some? ==> forall i :: w.value < i < |pattern| ==> !Designates(pattern[i], k)
    ensures w.None? ==> forall i :: 0 <= i < |pattern| ==> !Designates(pattern[i], k)
    decreases |pattern|
  {
    if |pattern| == 0 then None
    else if Designates(pattern[|pattern| - 1], k) then Some(|pattern| - 1)
    else LastWriter(pattern[..|pattern| - 1], k)
  }

  /** What one entry does: every pixel it names gets its colour, and every
      other pixel keeps its colour. */
  lemma ApplyEntrySpec(buf: Buffer, e: PatternEntry)
    ensures ApplyEntry(buf, e).Ok? <==> EntryApplies(e)
    ensures ApplyEntry(buf, e).Ok? ==>
              forall k :: 0 <= k < |buf| ==>
                ApplyEntry(buf, e).value[k] ==
                  (if Designates(e, k) then TranslateColor(e.color).value else buf[k])
  {
  }

  predicate AllApply(pattern: seq<PatternEntry>) {
    forall i :: 0 <= i < |pattern| ==> EntryApplies(pattern[i])
  }

  /** The colour pixel k should end with: that of the last entry naming it,
      or its previous colour when no entry names it. */
  function Expected(buf: Buffer, pattern: seq<PatternEntry>, k: int): Rgb
    requires 0 <= k < |buf| && AllApply(pattern)
  {
    match LastWriter(pattern, k)
    case None => buf[k]
    case Some(w) => assert EntryApplies(pattern[w]); TranslateColor(pattern[w].color).value
  }

  lemma AllApplySplit(pattern: seq<PatternEntry>)
    requires |pattern| > 0
    ensures AllApply(pattern) <==> AllApply(pattern[..|pattern| - 1]) && EntryApplies(pattern[|pattern| - 1])
  {
    var init := pattern[..|pattern| - 1];
    assert forall i :: 0 <= i < |init| ==> init[i] == pattern[i];
  }

  /** set_pattern raises exactly when some entry cannot be applied. */
  lemma {:induction false} SetPatternFails(buf: Buffer, pattern: seq<PatternEntry>)
    ensures SetPattern(buf, pattern).Ok? <==> AllApply(pattern)
    decreases |pattern|
  {
    if |pattern| > 0 {
      var init, last := pattern[..|pattern| - 1], pattern[|pattern| - 1];
      SetPatternFails(buf, init);
      AllApplySplit(pattern);
      if SetPattern(buf, init).Ok? {
        ApplyEntrySpec(SetPattern(buf, init).value, last);
      }
    }
  }

  /** When it succeeds, set_pattern leaves each pixel with the colour of the
      last entry naming it: later entries overwrite earlier ones, and pixels
      no entry names keep their colour. */
  lemma {:induction false} SetPatternContents(buf: Buffer, pattern: seq<PatternEntry>, k: int)
    requires AllApply(pattern) && 0 <= k < |buf|
    ensures SetPattern(buf, pattern).Ok?
    ensures SetPattern(buf, pattern).value[k] == Expected(buf, pattern, k)
    decreases |pattern|
  {
    SetPatternFails(buf, pattern);
    if |pattern| > 0 {
      var init, last := pattern[..|pattern| - 1], pattern[|pattern| - 1];
      assert AllApply(init) by {
        assert forall i :: 0 <= i < |init| ==> init[i] == pattern[i];
      }
      SetPatternContents(buf, init, k);
      ApplyEntrySpec(SetPattern(buf, init).value, last);
      if !Designates(last, k) {
        assert LastWriter(pattern, k) == LastWriter(init, k);
      }
    }
  }

  lemma ExampleApplies(red: string, green: string)
    requires TranslateColor(red).Ok? && TranslateColor(green).Ok?
    ensures AllApply([PatternEntry(red, Some(0), Some(2), None), PatternEntry(green, None, None, Some(1))])
  {
    var p := [PatternEntry(red, Some(0), Some(2), None), PatternEntry(green, None, None, Some(1))];
    assert EntryApplies(p[0]) && EntryApplies(p[1]);
  }

  lemma ExampleWriters(red: string, green: string, p: seq<PatternEntry>, k: int)
    requires p == [PatternEntry(red, Some(0), Some(2), None), PatternEntry(green, None, None, Some(1))]
    ensures LastWriter(p, k) == (if k == 1 then Some(1) else if 0 <= k <= 2 then Some(0) else None)
  {
  }

  lemma ExamplePixel(red: string, green: string, buf: Buffer, p: seq<PatternEntry>, k: int)
    requires TranslateColor(red) == Ok(Rgb(255, 0, 0)) && TranslateColor(green) == Ok(Rgb(0, 255, 0))
    requires buf == [Black, Black, Black, Black, Black]
    requires p == [PatternEntry(red, Some(0), Some(2), None), PatternEntry(green, None, None, Some(1))]
    requires AllApply(p) && 0 <= k < 5
    ensures SetPattern(buf, p).Ok?
    ensures SetPattern(buf, p).value[k] == [Rgb(255, 0, 0), Rgb(0, 255, 0), Rgb(255, 0, 0), Black, Black][k]
  {
    ExampleWriters(red, green, p, k);
    SetPatternContents(buf, p, k);
  }

  /** The two-entry example: a red range 0..2 then a green position 1 on five
      dark pixels gives red, green, red, dark, dark. */
  lemma SetPatternExample(red: string, green: string)
    requires TranslateColor(red) == Ok(Rgb(255, 0, 0)) && TranslateColor(green) == Ok(Rgb(0, 255, 0))
    ensures SetPattern([Black, Black, Black, Black, Black],
                       [PatternEntry(red, Some(0), Some(2), None), PatternEntry(green, None, None, Some(1))])
            == Ok([Rgb(255, 0, 0), Rgb(0, 255, 0), Rgb(255, 0, 0), Black, Black])
  {
    var buf := [Black, Black, Black, Black, Black];
    var p := [PatternEntry(red, Some(0), Some(2), None), PatternEntry(green, None, None, Some(1))];
    var want := [Rgb(255, 0, 0), Rgb(0, 255, 0), Rgb(255, 0, 0), Black, Black];
    ExampleApplies(red, green);
    ExamplePixel(red, green, buf, p, 0);
    forall k | 0 <= k < 5
      ensures SetPattern(buf, p).value[k] == want[k]
    {
      ExamplePixel(red, green, buf, p, k);
    }
    assert SetPattern(buf, p).value == want;
  }

  /** "#FF0000" and "#00FF00" are red and green, as the example uses them. */
  lemma RedAndGreen()
    ensures TranslateColor("#FF0000") == Ok(Rgb(255, 0, 0))
    ensures TranslateColor("#00FF00") == Ok(Rgb(0, 255, 0))
  {
    assert HexDigit(15) == 'F' && HexDigit(0) == '0';
    assert ChannelToHex(255) == "FF" && ChannelToHex(0) == "00";
    assert ToHex(Rgb(255, 0, 0)) == "#FF0000";
    assert ToHex(Rgb(0, 255, 0)) == "#00FF00";
    TranslateToHex(Rgb(255, 0, 0));
    TranslateToHex(Rgb(0, 255, 0));
  }
}
