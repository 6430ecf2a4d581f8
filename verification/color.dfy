/**
  Colours as the strip sees them: an 8-bit RGB triple, read from a "#RRGGBB"
  string the way LEDStrip.__translateColor reads it (three two-character
  slices, each passed to Python's int(text, 16)).
 */
module Color {
  import opened Common

  /** An 8-bit colour channel. */
  type Channel = x: int | 0 <= x < 256

  /** The triple that rpi_ws281x.Color(r, g, b) packs into one word. */
  datatype Rgb = Rgb(r: Channel, g: Channel, b: Channel)

  const Black := Rgb(0, 0, 0)

  predicate IsHexDigit(c: char) {
    '0' <= c <= '9' || 'a' <= c <= 'f' || 'A' <= c <= 'F'
  }

  predicate AllHex(s: string) {
    |s| == 0 || (AllHex(s[..|s| - 1]) && IsHexDigit(s[|s| - 1]))
  }

  function DigitValue(c: char): (v: nat)
    requires IsHexDigit(c)
    ensures v < 16
  {
    if '0' <= c <= '9' then c as int - '0' as int
    else if 'a' <= c <= 'f' then c as int - 'a' as int + 10
    else c as int - 'A' as int + 10
  }

  /** The upper-case digit for a value below sixteen. */
  function HexDigit(v: nat): (c: char)
    requires v < 16
    ensures IsHexDigit(c) && DigitValue(c) == v
  {
    if v < 10 then ('0' as int + v) as char else ('A' as int + v - 10) as char
  }

  /** The value of two hex digits, the first one the more significant. */
  function HexPair(hi: char, lo: char): (v: Channel)
    requires IsHexDigit(hi) && IsHexDigit(lo)
  {
    16 * DigitValue(hi) + DigitValue(lo)
  }

  function Pow16(k: nat): (p: nat)
    ensures p >= 1
  {
    if k == 0 then 1 else 16 * Pow16(k - 1)
  }

  /** The value of a string of hex digits, most significant digit first. */
  function HexValue(s: string): (v: nat)
    requires AllHex(s)
    ensures v < Pow16(|s|)
  {
    if |s| == 0 then 0 else 16 * HexValue(s[..|s| - 1]) + DigitValue(s[|s| - 1])
  }

  /** The characters Python's int() skips as whitespace around the digits
      of an ASCII string: space, tab, line feed, vertical tab, form feed and
      carriage return. The separators 0x1c-0x1f, which str.strip() removes,
      are not among them. */
  predicate IsSpace(c: char) {
    c == ' ' || 9 <= c as int <= 13
  }

  function StripStart(s: string): (t: string)
    ensures |t| <= |s|
  {
    if |s| > 0 && IsSpace(s[0]) then StripStart(s[1..]) else s
  }

  function StripEnd(s: string): (t: string)
    ensures |t| <= |s|
  {
    if |s| > 0 && IsSpace(s[|s| - 1]) then StripEnd(s[..|s| - 1]) else s
  }

  /** Python's s[lo:hi] for 0 <= lo <= hi: bounds past the end are clamped,
      never an error. */
  function PySlice(s: string, lo: nat, hi: nat): (t: string)
    requires lo <= hi
    ensures |t| <= hi - lo
    ensures |t| == 0 <==> |s| <= lo || lo == hi
    ensures hi <= |s| ==> t == s[lo..hi]
    ensures lo < |s| < hi ==> t == s[lo..]
  {
    if |s| <= lo then [] else if |s| <= hi then s[lo..] else s[lo..hi]
  }

  /** The slices of at most two characters that int(text, 16) accepts: one
      hex digit, two hex digits, or one hex digit after a sign or a space or
      before a space. */
  predicate IntAccepts(text: string) {
    || (|text| == 1 && IsHexDigit(text[0]))
    || (|text| == 2 && IsHexDigit(text[0]) && IsHexDigit(text[1]))
    || (|text| == 2 && (text[0] == '+' || text[0] == '-' || IsSpace(text[0])) && IsHexDigit(text[1]))
    || (|text| == 2 && IsHexDigit(text[0]) && IsSpace(text[1]))
  }

  /** What stripping whitespace leaves of at most two characters. */
  lemma StripShort(text: string)
    requires |text| <= 2
    ensures var t := StripEnd(StripStart(text));
            && (|text| == 0 ==> t == [])
            && (|text| == 1 ==> t == if IsSpace(text[0]) then [] else text)
            && (|text| == 2 ==>
                  t == if IsSpace(text[0]) && IsSpace(text[1]) then []
                       else if IsSpace(text[0]) then [text[1]]
                       else if IsSpace(text[1]) then [text[0]]
                       else text)
  {
    if |text| == 2 {
      var first, second := [text[0]], [text[1]];
      assert text[1..] == second && text[..1] == first;
      assert second[1..] == [] && first[..0] == [];
    } else if |text| == 1 {
      assert text[1..] == [] && text[..0] == [];
    }
  }

  /** At most two characters are hex digits exactly when each one is. */
  lemma AllHexShort(s: string)
    requires |s| <= 2
    ensures AllHex(s) <==> forall i :: 0 <= i < |s| ==> IsHexDigit(s[i])
  {
    if |s| == 2 {
      assert s[..1] == [s[0]] && [s[0]][..0] == [];
    } else if |s| == 1 {
      assert s[..0] == [];
    }
  }

  /** Python's int(text, 16) on the at most two characters that one slice of
      a colour string holds: surrounding whitespace is ignored, one leading
      sign is allowed, and at least one hex digit must remain. */
  function ParseHexField(text: string): (res: Result<int>)
    requires |text| <= 2
    ensures res.Ok? ==> -16 < res.value < 256
    ensures res.Ok? <==> IntAccepts(text)
    ensures |text| > 0 && AllHex(text) ==> res == Ok(HexValue(text))
    ensures |text| == 0 ==> res == Err(MalformedHex)
    ensures res.Err? ==> res.error == MalformedHex
  {
    var t := StripEnd(StripStart(text));
    StripShort(text);
    AllHexShort(t);
    AllHexShort(text);
    if |t| > 0 && (t[0] == '+' || t[0] == '-') then
      var digits := t[1..];
      AllHexShort(digits);
      if |digits| > 0 && AllHex(digits) then
        var v: int := HexValue(digits);
        Ok(if t[0] == '-' then -v else v)
      else
        Err(MalformedHex)
    else if |t| > 0 && AllHex(t) then
      Ok(HexValue(t))
    else
      Err(MalformedHex)
  }

  /** int(color[lo:lo + 2], 16): one channel of a colour string. */
  function Field(color: string, lo: nat): (res: Result<int>)
    ensures res.Ok? ==> -16 < res.value < 256 && lo < |color|
    ensures lo + 2 <= |color| && IsHexDigit(color[lo]) && IsHexDigit(color[lo + 1]) ==>
              res == Ok(HexPair(color[lo], color[lo + 1]))
  {
    assert lo + 2 <= |color| && IsHexDigit(color[lo]) && IsHexDigit(color[lo + 1]) ==>
             AllHex(color[lo..lo + 2]) && HexValue(color[lo..lo + 2]) == HexPair(color[lo], color[lo + 1]) by {
      if lo + 2 <= |color| && IsHexDigit(color[lo]) && IsHexDigit(color[lo + 1]) {
        PairValue(color, lo);
      }
    }
    ParseHexField(PySlice(color, lo, lo + 2))
  }

  /** The colour format the docstring of LEDStrip.__translateColor gives
      (LEDStrip.py line 141): '#' and six hex digits, as in #FFFFFF. */
  predicate WellFormed(color: string) {
    |color| == 7 && color[0] == '#' && forall i :: 1 <= i < 7 ==> IsHexDigit(color[i])
  }

  /** LEDStrip.__translateColor. The first character is never looked at and
      characters after the seventh are ignored; a short string yields short
      slices rather than an error. */
  function TranslateColor(color: string): (res: Result<Rgb>)
    ensures res.Ok? ==> |color| >= 6
    ensures res.Ok? <==>
              && Field(color, 1).Ok? && Field(color, 3).Ok? && Field(color, 5).Ok?
              && Field(color, 1).value >= 0 && Field(color, 3).value >= 0 && Field(color, 5).value >= 0
  {
    var r :- Field(color, 1);
    var g :- Field(color, 3);
    var b :- Field(color, 5);
    if r < 0 || g < 0 || b < 0 then Err(NegativeChannel) else Ok(Rgb(r, g, b))
  }

  /** A well-formed "#RRGGBB" string yields the hex values of characters
      1-2, 3-4 and 5-6 as red, green and blue. */
  lemma TranslateWellFormed(color: string)
    requires WellFormed(color)
    ensures TranslateColor(color) ==
              Ok(Rgb(HexPair(color[1], color[2]), HexPair(color[3], color[4]), HexPair(color[5], color[6])))
  {
  }

  /** Two hex digits read as a string have the value of the pair. */
  lemma PairValue(color: string, lo: nat)
    requires lo + 2 <= |color| && IsHexDigit(color[lo]) && IsHexDigit(color[lo + 1])
    ensures AllHex(color[lo..lo + 2]) && HexValue(color[lo..lo + 2]) == HexPair(color[lo], color[lo + 1])
  {
  }

  /** Three non-negative fields make a colour. */
  lemma TranslateFields(color: string, r: Channel, g: Channel, b: Channel)
    requires Field(color, 1) == Ok(r) && Field(color, 3) == Ok(g) && Field(color, 5) == Ok(b)
    ensures TranslateColor(color) == Ok(Rgb(r, g, b))
  {
  }

  /** Two upper-case hex digits for one channel. */
  function ChannelToHex(v: Channel): (s: string)
    ensures |s| == 2 && AllHex(s) && HexValue(s) == v
  {
    var s := [HexDigit(v / 16), HexDigit(v % 16)];
    assert s[..1] == [s[0]] && [s[0]][..0] == [];
    s
  }

  /** The "#RRGGBB" text of a colour. */
  function ToHex(c: Rgb): (s: string)
    ensures WellFormed(s)
  {
    "#" + ChannelToHex(c.r) + ChannelToHex(c.g) + ChannelToHex(c.b)
  }

  /** Formatting a colour as "#RRGGBB" and translating it back returns the colour. */
  lemma TranslateToHex(c: Rgb)
    ensures TranslateColor(ToHex(c)) == Ok(c)
  {
    var s := ToHex(c);
    assert s[1..3] == ChannelToHex(c.r);
    assert s[3..5] == ChannelToHex(c.g);
    assert s[5..7] == ChannelToHex(c.b);
    TranslateWellFormed(s);
  }

  /** Any negative field is rejected. */
  lemma TranslateNegativeField(color: string, r: int, g: int, b: int)
    requires Field(color, 1) == Ok(r) && Field(color, 3) == Ok(g) && Field(color, 5) == Ok(b)
    requires r < 0 || g < 0 || b < 0
    ensures TranslateColor(color) == Err(NegativeChannel)
  {
  }

  /** The result depends on the three slices alone. */
  lemma TranslateSameFields(a: string, b: string)
    requires PySlice(a, 1, 3) == PySlice(b, 1, 3)
    requires PySlice(a, 3, 5) == PySlice(b, 3, 5)
    requires PySlice(a, 5, 7) == PySlice(b, 5, 7)
    ensures TranslateColor(a) == TranslateColor(b)
  {
  }

  /** The leading '#' is not checked: any first character gives the same result. */
  lemma TranslateIgnoresMarker(color: string, marker: char)
    requires |color| >= 1
    ensures TranslateColor([marker] + color[1..]) == TranslateColor(color)
  {
    var other := [marker] + color[1..];
    assert |other| == |color|;
    assert PySlice(other, 1, 3) == PySlice(color, 1, 3);
    assert PySlice(other, 3, 5) == PySlice(color, 3, 5);
    assert PySlice(other, 5, 7) == PySlice(color, 5, 7);
    TranslateSameFields(other, color);
  }

  /** Characters after the seventh are ignored. */
  lemma TranslateIgnoresTail(color: string, tail: string)
    requires |color| == 7
    ensures TranslateColor(color + tail) == TranslateColor(color)
  {
    var longer := color + tail;
    assert PySlice(longer, 1, 3) == PySlice(color, 1, 3);
    assert PySlice(longer, 3, 5) == PySlice(color, 3, 5);
    assert PySlice(longer, 5, 7) == PySlice(color, 5, 7);
    TranslateSameFields(longer, color);
  }

  /** Five digits are accepted: the blue slice is the single digit "F". */
  lemma TranslateFiveDigits()
    ensures TranslateColor("#FFFFF") == Ok(Rgb(255, 255, 15))
  {
    var s := "#FFFFF";
    assert PySlice(s, 1, 3) == "FF" && PySlice(s, 3, 5) == "FF" && PySlice(s, 5, 7) == "F";
    assert Field(s, 1) == Ok(255) && Field(s, 3) == Ok(255);
    SingleDigit('F');
    assert Field(s, 5) == Ok(15);
    TranslateFields(s, 255, 255, 15);
  }

  lemma SingleDigit(d: char)
    requires IsHexDigit(d)
    ensures AllHex([d]) && HexValue([d]) == DigitValue(d)
  {
  }

  /** The two-character slices int() accepts besides two hex digits: a digit
      after a sign or a space, or before a space. A slice of spaces only is
      rejected, and so is a digit followed by anything else. */
  lemma ParseHexFieldShapes(text: string)
    requires |text| == 2
    ensures (text[0] == '+' || IsSpace(text[0])) && IsHexDigit(text[1]) ==>
              ParseHexField(text) == Ok(DigitValue(text[1]))
    ensures text[0] == '-' && IsHexDigit(text[1]) ==> ParseHexField(text) == Ok(-(DigitValue(text[1]) as int))
    ensures IsHexDigit(text[0]) && IsSpace(text[1]) ==> ParseHexField(text) == Ok(DigitValue(text[0]))
    ensures IsHexDigit(text[0]) && !IsHexDigit(text[1]) && !IsSpace(text[1]) ==>
              ParseHexField(text) == Err(MalformedHex)
    ensures IsSpace(text[0]) && IsSpace(text[1]) ==> ParseHexField(text) == Err(MalformedHex)
  {
    var t := StripEnd(StripStart(text));
    var first, second := [text[0]], [text[1]];
    assert text[1..] == second && text[..1] == first;
    if IsHexDigit(text[1]) {
      SingleDigit(text[1]);
      if text[0] == '+' || text[0] == '-' {
        assert t == text;
        assert t[1..] == second;
      } else if IsSpace(text[0]) {
        assert StripStart(text) == StripStart(second) == second;
        assert t == second;
      }
    }
    if IsHexDigit(text[0]) {
      SingleDigit(text[0]);
      assert StripStart(text) == text;
      if IsSpace(text[1]) {
        assert StripEnd(text) == StripEnd(first) == first;
      } else if !IsHexDigit(text[1]) {
        assert t == text;
        assert !AllHex(t);
      }
    }
    if IsSpace(text[0]) && IsSpace(text[1]) {
      assert second[1..] == [];
      assert StripStart(text) == StripStart(second) == [];
    }
  }

  /** int() strips whitespace and accepts a sign inside a slice. */
  lemma TranslateSignsAndSpaces()
    ensures TranslateColor("# 1+2 3") == Ok(Rgb(1, 2, 3))
  {
    var s := "# 1+2 3";
    assert PySlice(s, 1, 3) == " 1" && PySlice(s, 3, 5) == "+2" && PySlice(s, 5, 7) == " 3";
    ParseHexFieldShapes(" 1");
    ParseHexFieldShapes("+2");
    ParseHexFieldShapes(" 3");
    TranslateFields(s, 1, 2, 3);
  }

  /** A character that is not a hex digit is an error. */
  lemma TranslateBadDigit()
    ensures TranslateColor("#GG0000") == Err(MalformedHex)
  {
    var g := "#GG0000";
    assert PySlice(g, 1, 3) == "GG";
    assert StripEnd(StripStart("GG")) == "GG";
    assert !IsHexDigit("GG"[0]);
    assert Field(g, 1) == Err(MalformedHex);
  }
}
