/** `ColorMath` of src/utils/color_math.js: hex parsing with shorthand,
    rounded HSL, the CSS Color 4 HSL-to-RGB formula, the permissive
    `anyToHex`, WCAG 2.1 contrast and grading, and the readable strings. */
module ColorMath {
  import opened Js
  import opened ColorCore

  // ------------------------------------------------------------ conversions

  /** `ColorMath.hexToRgb`: a three-digit match is first replaced by its
      doubled digits, then the six-digit expression is applied. */
  function HexToRgb(hex: string): (c: Option<Rgb>)
    ensures c.Some? ==> ValidRgb(c.value)
  {
    ParseSixDigits(ExpandShorthand(hex))
  }

  /** Exactly the six-digit and the three-digit forms are accepted, `#` or
      not, either case; a shorthand digit stands for itself twice. */
  lemma HexToRgbAccepts(hex: string)
    ensures HexToRgb(hex).Some? <==> IsSixDigitForm(hex) || IsShorthandForm(hex)
    ensures IsSixDigitForm(hex) ==> HexToRgb(hex) == ParseSixDigits(hex)
    ensures IsShorthandForm(hex) ==>
      var d := StripHash(hex);
      HexToRgb(hex) == Some(Rgb(Byte(d[0], d[0]), Byte(d[1], d[1]), Byte(d[2], d[2])))
  {
    var d := StripHash(hex);
    if IsShorthandForm(hex) {
      var e := ExpandShorthand(hex);
      assert StripHash(e) == e;
    } else {
      assert ExpandShorthand(hex) == hex;
    }
  }

  /** `ColorMath.rgbToHex` for channels in [0, 255]. */
  function RgbToHex(r: int, g: int, b: int): string
    requires IsChannel(r) && IsChannel(g) && IsChannel(b)
  {
    FormatHex(Rgb(r, g, b))
  }

  /** `rgbToHex` writes `#` and six upper-case digits that `hexToRgb` reads
      back as the same channels. */
  lemma RgbToHexRoundTrip(r: int, g: int, b: int)
    requires IsChannel(r) && IsChannel(g) && IsChannel(b)
    ensures IsCanonicalHex(RgbToHex(r, g, b))
    ensures HexToRgb(RgbToHex(r, g, b)) == Some(Rgb(r, g, b))
  {
    FormatHexDigits(Rgb(r, g, b));
    ParseOfFormat(Rgb(r, g, b));
  }

  /** In the other direction, a six-digit hex comes back upper-cased with a
      `#`, and a shorthand comes back with every digit doubled. */
  lemma HexToRgbThenBack(hex: string)
    requires HexToRgb(hex).Some?
    ensures var c := HexToRgb(hex).value;
      RgbToHex(c.r, c.g, c.b) == "#" + ToUpperCase(StripHash(ExpandShorthand(hex)))
  {
    HexToRgbAccepts(hex);
    var e := ExpandShorthand(hex);
    if IsShorthandForm(hex) {
      assert StripHash(e) == e;
    }
    FormatOfParse(e);
  }

  /** `ColorMath.rgbToHsl`: the unrounded components, each through
      `Math.round`. Saturation and lightness land in [0, 100] and the hue in
      [0, 360]. */
  function RgbToHsl(c: Rgb): (x: HslInt)
    requires ValidRgb(c)
    ensures 0 <= x.h <= 360 && 0 <= x.s <= 100 && 0 <= x.l <= 100
  {
    var u := UnroundedHsl(c);
    UnroundedHslRange(c);
    RoundWithin(u.h, 0, 360);
    RoundWithin(u.s, 0, 100);
    RoundWithin(u.l, 0, 100);
    RoundHsl(u)
  }

  /** A grey has hue and saturation 0 and lightness `round(r / 255 * 100)`. */
  lemma RgbToHslGrey(c: Rgb)
    requires ValidRgb(c) && c.r == c.g == c.b
    ensures RgbToHsl(c) == HslInt(0, 0, Round(c.r as real / 255.0 * 100.0))
  {
    UnroundedHslRange(c);
  }

  /** The unrounded hue stays below 360, but rounding can reach 360:
      `rgb(255, 0, 1)` has hue 359.76… and `rgbToHsl` reports 360. */
  lemma RgbToHslReaches360()
    ensures RgbToHsl(Rgb(255, 0, 1)).h == 360
  {
    var r, g, b := 1.0, 0.0, 1.0 / 255.0;
    assert Max3(r, g, b) == 1.0 && Min3(r, g, b) == 0.0;
    assert Sextant(r, g, b, 1.0, 1.0) == 6.0 - 1.0 / 255.0;
    assert UnroundedHsl(Rgb(255, 0, 1)).h == (6.0 - 1.0 / 255.0) / 6.0 * 360.0;
  }

  function Min(a: real, b: real): real { if a <= b then a else b }

  function Max(a: real, b: real): real { if a >= b then a else b }

  /** `k(n) = (n + h / 30) % 12`, with JavaScript's remainder. */
  function K(n: real, h: real): real
  {
    RemReal(n + h / 30.0, 12.0)
  }

  /** `f(n)` of `hslToRgb`, with `s` and `l` already divided by 100. */
  function F(n: real, h: real, s: real, l: real): real
  {
    var a := s * Min(l, 1.0 - l);
    var k := K(n, h);
    l - a * Max(-1.0, Min(k - 3.0, Min(9.0 - k, 1.0)))
  }

  lemma MulUnit(a: real, c: real)
    requires a >= 0.0 && -1.0 <= c <= 1.0
    ensures -a <= a * c <= a
  {
  }

  lemma MulFraction(s: real, m: real)
    requires 0.0 <= s <= 1.0 && m >= 0.0
    ensures 0.0 <= s * m <= m
  {
  }

  /** `l - a * c` stays in [0, 1] when `c` is in [-1, 1] and `a` is at most
      the distance from `l` to the nearer end of [0, 1]. */
  lemma ShiftWithin(l: real, a: real, c: real)
    requires 0.0 <= a && a <= l && a <= 1.0 - l && -1.0 <= c <= 1.0
    ensures 0.0 <= l - a * c <= 1.0
  {
    MulUnit(a, c);
    var p := a * c;
    assert -a <= p;
    assert l + a <= 1.0;
    assert l - p <= l + a;
  }

  /** Whatever the hue, `f(n)` stays within `l ± a`, inside [0, 1]. */
  lemma FRange(n: real, h: real, s: real, l: real)
    requires 0.0 <= s <= 1.0 && 0.0 <= l <= 1.0
    ensures 0.0 <= F(n, h, s, l) <= 1.0
  {
    var m := Min(l, 1.0 - l);
    MulFraction(s, m);
    var k := K(n, h);
    var c := Max(-1.0, Min(k - 3.0, Min(9.0 - k, 1.0)));
    assert -1.0 <= c <= 1.0;
    ShiftWithin(l, s * m, c);
    assert F(n, h, s, l) == l - (s * m) * c;
  }

  /** One channel of `hslToRgb`: `Math.round(f(n) * 255)`. */
  function Channel(n: real, h: real, s: real, l: real): int
  {
    Round(F(n, h, s / 100.0, l / 100.0) * 255.0)
  }

  lemma ChannelRange(n: real, h: real, s: real, l: real)
    ensures 0.0 <= s <= 100.0 && 0.0 <= l <= 100.0 ==> IsChannel(Channel(n, h, s, l))
  {
    if 0.0 <= s <= 100.0 && 0.0 <= l <= 100.0 {
      FRange(n, h, s / 100.0, l / 100.0);
      RoundWithin(F(n, h, s / 100.0, l / 100.0) * 255.0, 0, 255);
    }
  }

  /** `ColorMath.hslToRgb(h, s, l)`: the CSS Color 4 formula (section 7.1 of
      CSS Color Module Level 4). Any hue gives channels in [0, 255] once
      saturation and lightness are percentages. */
  function HslToRgb(h: real, s: real, l: real): (c: Rgb)
    ensures 0.0 <= s <= 100.0 && 0.0 <= l <= 100.0 ==> ValidRgb(c)
  {
    ChannelRange(0.0, h, s, l);
    ChannelRange(8.0, h, s, l);
    ChannelRange(4.0, h, s, l);
    Rgb(Channel(0.0, h, s, l), Channel(8.0, h, s, l), Channel(4.0, h, s, l))
  }

  /** Saturation 0 gives the grey `round(l / 100 * 255)` in every channel. */
  lemma HslToRgbGrey(h: real, l: real)
    ensures var v := Round(l / 100.0 * 255.0);
      HslToRgb(h, 0.0, l) == Rgb(v, v, v)
  {
    var l1 := l / 100.0;
    assert 0.0 * Min(l1, 1.0 - l1) == 0.0;
  }

  // ----------------------------------------------------------------- anyToHex

  /** `ColorMath.anyToHex`. `parseInt` of a run of decimal digits is its
      decimal value. Black for the empty string; a `#` string unchanged,
      valid or not; black for anything that is not an `rgb…` string with
      three numbers. */
  function AnyToHex(color: string): (hex: string)
    ensures color == [] ==> hex == "#000000"
    ensures StartsWith(color, "#") ==> hex == color
    ensures !StartsWith(color, "#") && !StartsWith(color, "rgb") ==> hex == "#000000"
    ensures !StartsWith(color, "#") && |DigitRuns(color)| < 3 ==> hex == "#000000"
    ensures StartsWith(color, "rgb") && |DigitRuns(color)| >= 3 ==>
      var runs := DigitRuns(color);
      hex == JsRgbToHex(DecimalValue(runs[0]), DecimalValue(runs[1]), DecimalValue(runs[2]))
  {
    if color == [] then "#000000"
    else if StartsWith(color, "#") then color
    else if StartsWith(color, "rgb") && |DigitRuns(color)| >= 3 then
      var vals := DigitRuns(color);
      JsRgbToHex(DecimalValue(vals[0]), DecimalValue(vals[1]), DecimalValue(vals[2]))
    else "#000000"
  }

  /** The digit runs of `rgb(a, b, c)` are `a`, `b` and `c`. */
  lemma DigitRunsOfRgbText(a: string, b: string, c: string)
    requires a != [] && AllDigits(a) && b != [] && AllDigits(b) && c != [] && AllDigits(c)
    ensures DigitRuns("rgb(" + a + ", " + b + ", " + c + ")") == [a, b, c]
  {
    var sep := ", ";
    assert "rgb(" + a + sep + b + sep + c + ")" == "rgb(" + (a + (sep + (b + (sep + (c + ")")))));
    DigitRunsSkip("rgb(", a + (sep + (b + (sep + (c + ")")))));
    DigitRunsTake(a, sep + (b + (sep + (c + ")"))));
    DigitRunsSkip(sep, b + (sep + (c + ")")));
    DigitRunsTake(b, sep + (c + ")"));
    DigitRunsSkip(sep, c + ")");
    DigitRunsTake(c, ")");
    DigitRunsSkip(")", []);
    assert ")" + [] == ")";
  }

  /** `anyToHex` on an `rgb(a, b, c)` text reads the three decimal numbers. */
  lemma AnyToHexOfRgbText(a: string, b: string, c: string)
    requires a != [] && AllDigits(a) && b != [] && AllDigits(b) && c != [] && AllDigits(c)
    ensures AnyToHex("rgb(" + a + ", " + b + ", " + c + ")")
         == JsRgbToHex(DecimalValue(a), DecimalValue(b), DecimalValue(c))
  {
    var color := "rgb(" + a + ", " + b + ", " + c + ")";
    DigitRunsOfRgbText(a, b, c);
    assert color[0] == 'r' && color[1] == 'g' && color[2] == 'b';
    assert color[..3] == "rgb";
    assert !StartsWith(color, "#");
    var vals := DigitRuns(color);
    assert vals[0] == a && vals[1] == b && vals[2] == c;
  }

  /** Three digit runs between digit-free separators are the first three
      runs of the text. */
  lemma FirstThreeRuns(p: string, a: string, s1: string, b: string, s2: string, c: string, rest: string)
    requires NoDigits(p) && NoDigits(s1) && NoDigits(s2) && s1 != [] && s2 != []
    requires a != [] && AllDigits(a) && b != [] && AllDigits(b) && c != [] && AllDigits(c)
    requires rest == [] || !IsDigit(rest[0])
    ensures var runs := DigitRuns(p + (a + (s1 + (b + (s2 + (c + rest))))));
      |runs| >= 3 && runs[0] == a && runs[1] == b && runs[2] == c
  {
    var t3 := c + rest;
    var t2 := s2 + t3;
    var t1 := b + t2;
    var t0 := s1 + t1;
    assert t0[0] == s1[0] && t2[0] == s2[0];
    DigitRunsTake(c, rest);
    DigitRunsSkip(s2, t3);
    DigitRunsTake(b, t2);
    DigitRunsSkip(s1, t1);
    DigitRunsTake(a, t0);
    DigitRunsSkip(p, a + t0);
    assert DigitRuns(p + (a + t0)) == [a] + ([b] + ([c] + DigitRuns(rest)));
  }

  /** Any text that starts with `rgb` reads its first three numbers,
      whatever separates them and whatever follows: `rgba(1, 2, 3, 0.5)`
      ignores the alpha, and `rgb(1,2,3)` needs no spaces. */
  lemma AnyToHexOfRgbSpelling(p: string, a: string, s1: string, b: string, s2: string, c: string, rest: string)
    requires StartsWith(p, "rgb") && NoDigits(p)
    requires NoDigits(s1) && NoDigits(s2) && s1 != [] && s2 != []
    requires a != [] && AllDigits(a) && b != [] && AllDigits(b) && c != [] && AllDigits(c)
    requires rest == [] || !IsDigit(rest[0])
    ensures AnyToHex(p + (a + (s1 + (b + (s2 + (c + rest))))))
         == JsRgbToHex(DecimalValue(a), DecimalValue(b), DecimalValue(c))
  {
    var color := p + (a + (s1 + (b + (s2 + (c + rest)))));
    FirstThreeRuns(p, a, s1, b, s2, c, rest);
    assert color[..3] == p[..3];
    assert !StartsWith(color, "#") by {
      assert color[0] == 'r';
    }
  }

  /** `256 << 16` is `0x1000000`, the leading digit that `slice(1)` drops. */
  lemma JsRgbToHexCarry()
    ensures JsRgbToHex(256, 0, 0) == "#000000"
  {
    ShiftsOfCarry();
    NumberToHexOfCarry();
    assert "2000000"[1..] == "000000";
    UpperOfZeros();
  }

  lemma ShiftsOfCarry()
    ensures 0x1000000 + ShiftLeft(256, 16) + ShiftLeft(0, 8) + 0 == 0x2000000
  {
    assert ToInt32(256) == 256 && ToInt32(0) == 0;
    assert ToInt32(256 * 0x10000) == 0x1000000;
    assert ToInt32(0 * 0x100) == 0;
  }

  lemma NumberToHexOfCarry()
    ensures NumberToHex(0x2000000) == "2000000"
  {
    ToHexStringSixSteps(2, 0, 0, 0, 0, 0, 0);
    assert ToHexString(2) == "2";
  }

  lemma UpperOfZeros()
    ensures ToUpperCase("000000") == "000000"
  {
    var u := ToUpperCase("000000");
    assert |u| == 6 && forall i :: 0 <= i < 6 ==> u[i] == '0';
  }

  /** Numbers above 255 are not rejected: `256 << 16` carries into the
      leading `1` that `slice(1)` drops, so `rgb(256, 0, 0)` reads as black. */
  lemma AnyToHexCarries()
    ensures AnyToHex("rgb(256, 0, 0)") == "#000000"
  {
    assert "rgb(256, 0, 0)" == "rgb(" + "256" + ", " + "0" + ", " + "0" + ")";
    AnyToHexOfRgbText("256", "0", "0");
    DecimalsOfCarry();
    JsRgbToHexCarry();
  }

  lemma DecimalsOfCarry()
    ensures DecimalValue("256") == 256 && DecimalValue("0") == 0
  {
    assert "256"[..2] == "25" && "25"[..1] == "2" && "2"[..0] == [] && "0"[..0] == [];
  }

  // ------------------------------------------------------------ WCAG contrast

  /** `ColorMath.getContrastRatio`: 1 when either input is not a colour
      `hexToRgb` accepts. */
  function GetContrastRatio(pow: real -> real, hex1: string, hex2: string): (ratio: real)
    requires PowLaw(pow)
    ensures 1.0 <= ratio <= 21.0
    ensures HexToRgb(hex1).None? || HexToRgb(hex2).None? ==> ratio == 1.0
  {
    match (HexToRgb(hex1), HexToRgb(hex2))
    case (Some(c1), Some(c2)) => ContrastOf(Luminance(pow, c1), Luminance(pow, c2))
    case _ => 1.0
  }

  /** The ratio does not depend on the order of its arguments and is 1 for a
      colour against itself. */
  lemma ContrastRatioSymmetric(pow: real -> real, hex1: string, hex2: string)
    requires PowLaw(pow)
    ensures GetContrastRatio(pow, hex1, hex2) == GetContrastRatio(pow, hex2, hex1)
    ensures GetContrastRatio(pow, hex1, hex1) == 1.0
  {
    if HexToRgb(hex1).Some? && HexToRgb(hex2).Some? {
      ContrastSymmetric(Luminance(pow, HexToRgb(hex1).value), Luminance(pow, HexToRgb(hex2).value));
    }
  }

  /** Black on white reaches the maximum, 21. */
  lemma ContrastBlackOnWhite(pow: real -> real)
    requires PowLaw(pow)
    ensures GetContrastRatio(pow, "#000000", "#FFFFFF") == 21.0
  {
    LuminanceOfBlackAndWhite(pow);
    assert HexToRgb("#000000") == Some(Rgb(0, 0, 0));
    assert HexToRgb("#FFFFFF") == Some(Rgb(255, 255, 255));
  }

  datatype Grade = AAA | AA | AALarge | Fail

  /** The grades from worst to best. */
  function Rank(g: Grade): nat
  {
    match g
    case Fail => 0
    case AALarge => 1
    case AA => 2
    case AAA => 3
  }

  /** `ColorMath.getWCAGGrade`: 7:1 for AAA (Success Criterion 1.4.6 of WCAG
      2.1), 4.5:1 for AA and 3:1 for large text (1.4.3). */
  function GetWCAGGrade(ratio: real): (g: Grade)
    ensures g == AAA <==> ratio >= 7.0
    ensures g == AA <==> 4.5 <= ratio < 7.0
    ensures g == AALarge <==> 3.0 <= ratio < 4.5
    ensures g == Fail <==> ratio < 3.0
  {
    if ratio >= 7.0 then AAA
    else if ratio >= 4.5 then AA
    else if ratio >= 3.0 then AALarge
    else Fail
  }

  /** A higher ratio never gets a worse grade. */
  lemma GradeMonotone(r1: real, r2: real)
    requires r1 <= r2
    ensures Rank(GetWCAGGrade(r1)) <= Rank(GetWCAGGrade(r2))
  {
  }

  // ------------------------------------------------------------- information

  datatype Readable = Readable(hex: string, rgb: string, hsl: string, css: string)

  /** The `rgb(r, g, b)` string of `getReadableValues`. */
  function RgbString(c: Rgb): string
    requires ValidRgb(c)
  {
    "rgb(" + NatToString(c.r) + ", " + NatToString(c.g) + ", " + NatToString(c.b) + ")"
  }

  /** `ColorMath.getReadableValues`: `null` for a hex `hexToRgb` rejects. */
  function GetReadableValues(hex: string): (v: Option<Readable>)
    ensures v.Some? <==> HexToRgb(hex).Some?
    ensures v.Some? ==> v.value.hex == ToUpperCase(hex)
    ensures v.Some? ==>
      var c := HexToRgb(hex).value;
      var x := RgbToHsl(c);
      && v.value.rgb == RgbString(c)
      && v.value.hsl == "hsl(" + IntToString(x.h) + ", " + IntToString(x.s) + "%, " + IntToString(x.l) + "%)"
      && v.value.css == "color: " + hex + ";"
  {
    match HexToRgb(hex)
    case None => None
    case Some(c) =>
      var x := RgbToHsl(c);
      Some(Readable(ToUpperCase(hex), RgbString(c),
        "hsl(" + IntToString(x.h) + ", " + IntToString(x.s) + "%, " + IntToString(x.l) + "%)",
        "color: " + hex + ";"))
  }

  /** The digit runs of `rgb(r, g, b)` are the three channels as written. */
  lemma DigitRunsOfRgbString(c: Rgb)
    requires ValidRgb(c)
    ensures DigitRuns(RgbString(c)) == [NatToString(c.r), NatToString(c.g), NatToString(c.b)]
  {
    DigitRunsOfRgbText(NatToString(c.r), NatToString(c.g), NatToString(c.b));
  }

  /** `anyToHex` reads the `rgb` string of `getReadableValues` back to the
      hex of the parsed channels. */
  lemma AnyToHexOfReadableRgb(hex: string)
    requires GetReadableValues(hex).Some?
    ensures var c := HexToRgb(hex).value;
      AnyToHex(GetReadableValues(hex).value.rgb) == RgbToHex(c.r, c.g, c.b)
  {
    var c := HexToRgb(hex).value;
    var s := RgbString(c);
    assert s[..3] == "rgb";
    DigitRunsOfRgbString(c);
    DecimalOfNatToString(c.r);
    DecimalOfNatToString(c.g);
    DecimalOfNatToString(c.b);
    JsRgbToHexOfChannels(c);
  }
}

/** `PaletteGen` of src/utils/color_math.js. */
module PaletteGen {
  import opened Js
  import opened ColorCore
  import opened ColorMath

  /** The hue normalisation inside `toHex`: `h % 360`, plus 360 when the
      remainder is negative. */
  function NormalizeHue(h: int): (n: int)
    ensures 0 <= n < 360
    ensures n == h % 360
  {
    var r := RemInt(h, 360);
    if r < 0 then r + 360 else r
  }

  /** `toHex(h, s, l)` of `generate`: the hue is normalised first. */
  function ToHex(h: int, s: int, l: int): string
    requires 0 <= s <= 100 && 0 <= l <= 100
  {
    var c := HslToRgb(NormalizeHue(h) as real, s as real, l as real);
    RgbToHex(c.r, c.g, c.b)
  }

  /** Every colour `toHex` writes is a canonical `#RRGGBB`. */
  lemma ToHexCanonical(h: int, s: int, l: int)
    requires 0 <= s <= 100 && 0 <= l <= 100
    ensures IsCanonicalHex(ToHex(h, s, l))
  {
    var c := HslToRgb(NormalizeHue(h) as real, s as real, l as real);
    RgbToHexRoundTrip(c.r, c.g, c.b);
  }

  /** `toHex` sees only the hue modulo 360. */
  lemma ToHexPeriodic(h: int, s: int, l: int)
    requires 0 <= s <= 100 && 0 <= l <= 100
    ensures ToHex(h, s, l) == ToHex(h % 360, s, l)
  {
    assert NormalizeHue(h % 360) == NormalizeHue(h);
  }

  /** `Math.max(0, l - d)`. */
  function Darker(l: int, d: nat): (v: int)
    requires 0 <= l <= 100
    ensures 0 <= v <= 100 && v <= l
    ensures l >= d ==> v == l - d
  {
    if l - d >= 0 then l - d else 0
  }

  /** `Math.min(100, l + d)`. */
  function Lighter(l: int, d: nat): (v: int)
    requires 0 <= l <= 100
    ensures 0 <= v <= 100 && v >= l
    ensures l + d <= 100 ==> v == l + d
  {
    if l + d <= 100 then l + d else 100
  }

  /** The `type` the `switch` sees: `'monochromatic'` when none is given. */
  function KindOf(kind: Option<string>): string
  {
    if kind.None? then "monochromatic" else kind.value
  }

  /** The five monochromatic entries: lightness 30 and 15 darker, the input,
      15 and 30 lighter. */
  function Monochromatic(hex: string, x: HslInt): seq<string>
    requires 0 <= x.s <= 100 && 0 <= x.l <= 100
  {
    [ToHex(x.h, x.s, Darker(x.l, 30)), ToHex(x.h, x.s, Darker(x.l, 15)), hex,
     ToHex(x.h, x.s, Lighter(x.l, 15)), ToHex(x.h, x.s, Lighter(x.l, 30))]
  }

  /** The five analogous entries: hue -30, -15, the input, +15, +30. */
  function Analogous(hex: string, x: HslInt): seq<string>
    requires 0 <= x.s <= 100 && 0 <= x.l <= 100
  {
    [ToHex(x.h - 30, x.s, x.l), ToHex(x.h - 15, x.s, x.l), hex,
     ToHex(x.h + 15, x.s, x.l), ToHex(x.h + 30, x.s, x.l)]
  }

  /** The four complementary entries: the input, hue +180, and the split
      complements +150 and +210. */
  function Complementary(hex: string, x: HslInt): seq<string>
    requires 0 <= x.s <= 100 && 0 <= x.l <= 100
  {
    [hex, ToHex(x.h + 180, x.s, x.l), ToHex(x.h + 150, x.s, x.l), ToHex(x.h + 210, x.s, x.l)]
  }

  /** What `generate` returns, as a value. */
  function Palette(hex: string, kind: Option<string>): seq<string>
  {
    match HexToRgb(hex)
    case None => []
    case Some(c) =>
      var x := RgbToHsl(c);
      var t := KindOf(kind);
      if t == "monochromatic" then Monochromatic(hex, x)
      else if t == "analogous" then Analogous(hex, x)
      else if t == "complementary" then Complementary(hex, x)
      else []
  }

  /** `PaletteGen.generate(hex, type)`; `None` for `type` is the default.
      Each case of the `switch` pushes its entries onto `palette`. */
  method Generate(hex: string, kind: Option<string>) returns (palette: seq<string>)
    ensures palette == Palette(hex, kind)
  {
    palette := [];
    var rgb := HexToRgb(hex);
    if rgb.None? {
      return;
    }
    var x := RgbToHsl(rgb.value);
    var t := KindOf(kind);
    if t == "monochromatic" {
      palette := PushMonochromatic(palette, hex, x);
    } else if t == "analogous" {
      palette := PushAnalogous(palette, hex, x);
    } else if t == "complementary" {
      palette := PushComplementary(palette, hex, x);
    }
  }

  /** `case 'monochromatic'`: variations in lightness. */
  method PushMonochromatic(p0: seq<string>, hex: string, x: HslInt) returns (palette: seq<string>)
    requires 0 <= x.s <= 100 && 0 <= x.l <= 100
    ensures palette == p0 + Monochromatic(hex, x)
  {
    palette := p0;
    palette := palette + [ToHex(x.h, x.s, Darker(x.l, 30))];
    palette := palette + [ToHex(x.h, x.s, Darker(x.l, 15))];
    palette := palette + [hex];
    palette := palette + [ToHex(x.h, x.s, Lighter(x.l, 15))];
    palette := palette + [ToHex(x.h, x.s, Lighter(x.l, 30))];
  }

  /** `case 'analogous'`: variations in hue. */
  method PushAnalogous(p0: seq<string>, hex: string, x: HslInt) returns (palette: seq<string>)
    requires 0 <= x.s <= 100 && 0 <= x.l <= 100
    ensures palette == p0 + Analogous(hex, x)
  {
    var h := x.h;
    palette := p0;
    palette := palette + [ToHex(h - 30, x.s, x.l)];
    palette := palette + [ToHex(h - 15, x.s, x.l)];
    palette := palette + [hex];
    palette := palette + [ToHex(h + 15, x.s, x.l)];
    palette := palette + [ToHex(h + 30, x.s, x.l)];
  }

  /** `case 'complementary'`: the complement and the split complements. */
  method PushComplementary(p0: seq<string>, hex: string, x: HslInt) returns (palette: seq<string>)
    requires 0 <= x.s <= 100 && 0 <= x.l <= 100
    ensures palette == p0 + Complementary(hex, x)
  {
    palette := p0;
    palette := palette + [hex];
    palette := palette + [ToHex(x.h + 180, x.s, x.l)];
    palette := palette + [ToHex(x.h + 150, x.s, x.l)];
    palette := palette + [ToHex(x.h + 210, x.s, x.l)];
  }

  lemma MonochromaticShape(hex: string, x: HslInt)
    requires 0 <= x.s <= 100 && 0 <= x.l <= 100
    ensures var p := Monochromatic(hex, x);
      |p| == 5 && p[2] == hex && forall i :: 0 <= i < 5 && i != 2 ==> IsCanonicalHex(p[i])
  {
    ToHexCanonical(x.h, x.s, Darker(x.l, 30));
    ToHexCanonical(x.h, x.s, Darker(x.l, 15));
    ToHexCanonical(x.h, x.s, Lighter(x.l, 15));
    ToHexCanonical(x.h, x.s, Lighter(x.l, 30));
  }

  lemma AnalogousShape(hex: string, x: HslInt)
    requires 0 <= x.s <= 100 && 0 <= x.l <= 100
    ensures var p := Analogous(hex, x);
      |p| == 5 && p[2] == hex && forall i :: 0 <= i < 5 && i != 2 ==> IsCanonicalHex(p[i])
  {
    ToHexCanonical(x.h - 30, x.s, x.l);
    ToHexCanonical(x.h - 15, x.s, x.l);
    ToHexCanonical(x.h + 15, x.s, x.l);
    ToHexCanonical(x.h + 30, x.s, x.l);
  }

  lemma ComplementaryShape(hex: string, x: HslInt)
    requires 0 <= x.s <= 100 && 0 <= x.l <= 100
    ensures var p := Complementary(hex, x);
      |p| == 4 && p[0] == hex && forall i :: 1 <= i < 4 ==> IsCanonicalHex(p[i])
  {
    ToHexCanonical(x.h + 180, x.s, x.l);
    ToHexCanonical(x.h + 150, x.s, x.l);
    ToHexCanonical(x.h + 210, x.s, x.l);
  }

  /** An invalid hex or an unknown type gives no palette. Otherwise the input
      sits unchanged at index 2 of the five monochromatic or analogous
      entries, or at index 0 of the four complementary ones, and every other
      entry is a canonical `#RRGGBB`. */
  lemma PaletteShape(hex: string, kind: Option<string>)
    ensures var p := Palette(hex, kind); var t := KindOf(kind);
      && (HexToRgb(hex).None? ==> p == [])
      && (t != "monochromatic" && t != "analogous" && t != "complementary" ==> p == [])
      && (HexToRgb(hex).Some? && (t == "monochromatic" || t == "analogous") ==>
            |p| == 5 && p[2] == hex && forall i :: 0 <= i < 5 && i != 2 ==> IsCanonicalHex(p[i]))
      && (HexToRgb(hex).Some? && t == "complementary" ==>
            |p| == 4 && p[0] == hex && forall i :: 1 <= i < 4 ==> IsCanonicalHex(p[i]))
  {
    if HexToRgb(hex).Some? {
      var x := RgbToHsl(HexToRgb(hex).value);
      var t := KindOf(kind);
      if t == "monochromatic" {
        MonochromaticShape(hex, x);
      } else if t == "analogous" {
        AnalogousShape(hex, x);
      } else if t == "complementary" {
        ComplementaryShape(hex, x);
      }
    }
  }
}
