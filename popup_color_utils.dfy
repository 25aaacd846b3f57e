/** `ColorUtils` of src/popup/color_utils.js. Its `hexToRgb`, `rgbToHex` and
    `rgbToHsl` have the same semantics as those of src/utils/color_math.js
    and are used from `ColorMath`; this module holds the members the popup
    file adds: the two formatters, its own `anyToHex`, `getAllFormats` and
    `hsvToRgb`. */
module PopupColorUtils {
  import opened Js
  import opened ColorCore
  import opened ColorMath

  /** The doc comment's example holds for every shorthand: `#03F` reads as
      `0033FF`, each digit doubled. */
  lemma ShorthandDoubles(x: char, y: char, z: char)
    requires IsHexDigit(x) && IsHexDigit(y) && IsHexDigit(z)
    ensures HexToRgb(['#', x, y, z]) == HexToRgb([x, x, y, y, z, z])
    ensures HexToRgb(['#', x, y, z]) == Some(Rgb(17 * HexValue(x), 17 * HexValue(y), 17 * HexValue(z)))
  {
    var d := [x, x, y, y, z, z];
    assert StripHash(['#', x, y, z]) == [x, y, z];
    assert ExpandShorthand(['#', x, y, z]) == d;
    assert StripHash(d) == d;
    assert IsSixDigitForm(d);
    assert !IsShorthandForm(d);
  }

  // --------------------------------------------------------------- formatters

  /** `hslToType(h, s, l)`: the CSS `hsl()` text. */
  function HslToType(h: int, s: int, l: int): string
  {
    "hsl(" + IntToString(h) + ", " + IntToString(s) + "%, " + IntToString(l) + "%)"
  }

  /** `rgbToType(r, g, b)`: the CSS `rgb()` text. */
  function RgbToType(r: int, g: int, b: int): string
  {
    "rgb(" + IntToString(r) + ", " + IntToString(g) + ", " + IntToString(b) + ")"
  }

  /** The three numbers of an `hsl()` text can be read back from its digit
      runs. */
  lemma HslToTypeReadsBack(h: nat, s: nat, l: nat)
    ensures var runs := DigitRuns(HslToType(h, s, l));
      |runs| == 3 && DecimalValue(runs[0]) == h && DecimalValue(runs[1]) == s
      && DecimalValue(runs[2]) == l
  {
    DigitRunsOfHslText(NatToString(h), NatToString(s), NatToString(l));
    DecimalOfNatToString(h);
    DecimalOfNatToString(s);
    DecimalOfNatToString(l);
  }

  lemma DigitRunsOfHslText(a: string, b: string, c: string)
    requires a != [] && AllDigits(a) && b != [] && AllDigits(b) && c != [] && AllDigits(c)
    ensures DigitRuns("hsl(" + a + ", " + b + "%, " + c + "%)") == [a, b, c]
  {
    assert "hsl(" + a + ", " + b + "%, " + c + "%)"
        == "hsl(" + (a + (", " + (b + ("%, " + (c + "%)")))));
    DigitRunsSkip("hsl(", a + (", " + (b + ("%, " + (c + "%)")))));
    DigitRunsTake(a, ", " + (b + ("%, " + (c + "%)"))));
    DigitRunsSkip(", ", b + ("%, " + (c + "%)")));
    DigitRunsTake(b, "%, " + (c + "%)"));
    DigitRunsSkip("%, ", c + "%)");
    DigitRunsTake(c, "%)");
    DigitRunsSkip("%)", []);
  }

  // ---------------------------------------------------------------- anyToHex

  /** `rgbToHex(r, g, b)` for what `parseInt` returns, `NaN` (`None`)
      included: `NaN << k` is 0, and a `NaN` blue makes the sum `NaN`, whose
      `toString(16)` is `"NaN"`, so the result is `#AN`. */
  function NumbersToHex(r: Option<int>, g: Option<int>, b: Option<int>): (hex: string)
    ensures b.None? ==> hex == "#AN"
    ensures b.Some? ==> hex == JsRgbToHex(if r.Some? then r.value else 0,
                                         if g.Some? then g.value else 0, b.value)
  {
    match b
    case None => "#" + ToUpperCase("NaN"[1..])
    case Some(bv) =>
      var rv := if r.Some? then r.value else 0;
      var gv := if g.Some? then g.value else 0;
      JsRgbToHex(rv, gv, bv)
  }

  /** `parseInt(parts[i])`, where an index past the end is `undefined` and
      reads as `NaN`. */
  function ParsePart(parts: seq<string>, i: nat): Option<int>
  {
    if i < |parts| then ParseInt(parts[i]) else None
  }

  /** The separator of the `rgb` branch of `anyToHex`: `,` when the text
      holds one, a space otherwise. */
  function RgbTextSeparator(t: string): char
  {
    if IndexOf(t, ',') > -1 then ',' else ' '
  }

  /** The text between the first `(` and the first `)`, split on the
      separator. */
  function RgbTextParts(t: string): seq<string>
  {
    Split(Substring(t, IndexOf(t, '(') + 1, IndexOf(t, ')')), RgbTextSeparator(t))
  }

  /** What the `rgb` branch passes to `rgbToHex`: `parseInt` of the first
      three parts. */
  function RgbTextNumbers(t: string): (Option<int>, Option<int>, Option<int>)
  {
    var parts := RgbTextParts(t);
    (ParsePart(parts, 0), ParsePart(parts, 1), ParsePart(parts, 2))
  }

  function RgbTextToHex(t: string): string
  {
    var (r, g, b) := RgbTextNumbers(t);
    NumbersToHex(r, g, b)
  }

  /** `ColorUtils.anyToHex`: `null` (`None`) for the empty string; otherwise
      the trimmed text, converted when it starts with `rgb`. */
  function AnyToHex(color: string): (hex: Option<string>)
    ensures hex.None? <==> color == []
    ensures color != [] && !StartsWith(Trim(color), "rgb") ==> hex == Some(Trim(color))
    ensures color != [] && StartsWith(Trim(color), "rgb") ==> hex == Some(RgbTextToHex(Trim(color)))
  {
    if color == [] then None
    else
      var t := Trim(color);
      if StartsWith(t, "#") then
        assert t[0] == '#' && !StartsWith(t, "rgb");
        Some(t)
      else if StartsWith(t, "rgb") then Some(RgbTextToHex(t))
      else Some(t)
  }

  /** The text between the parentheses of `rgb(…)` when it holds no other
      parenthesis. */
  lemma InsideParens(inner: string)
    requires '(' !in inner && ')' !in inner
    ensures var t := "rgb(" + inner + ")";
      Substring(t, IndexOf(t, '(') + 1, IndexOf(t, ')')) == inner
  {
    var t := "rgb(" + inner + ")";
    assert t[..3] == "rgb" && t[3] == '(';
    IndexOfFirst(t, '(', 3);
    assert t[..4 + |inner|] == "rgb(" + inner && t[4 + |inner|] == ')';
    IndexOfFirst(t, ')', 4 + |inner|);
    assert t[4..4 + |inner|] == inner;
  }

  /** Splitting on a separator that the three pieces do not hold. */
  lemma SplitThree(a: string, b: string, c: string, sep: char)
    requires sep !in a && sep !in b && sep !in c
    ensures Split(a + [sep] + (b + [sep] + c), sep) == [a, b, c]
  {
    SplitNone(c, sep);
    SplitAt(b, sep, c);
    SplitAt(a, sep, b + [sep] + c);
  }

  /** The text `rgbToType` writes, regrouped around its two commas. */
  lemma RgbTextShape(a: string, b: string, c: string)
    ensures "rgb(" + a + ", " + b + ", " + c + ")"
         == "rgb(" + (a + [','] + ((" " + b) + [','] + (" " + c))) + ")"
  {
  }

  /** The separator-split parts of the text `rgbToType` writes. */
  lemma PartsOfRgbType(a: string, b: string, c: string)
    requires a != [] && AllDigits(a) && b != [] && AllDigits(b) && c != [] && AllDigits(c)
    ensures RgbTextParts("rgb(" + a + ", " + b + ", " + c + ")") == [a, " " + b, " " + c]
  {
    var inner := a + [','] + ((" " + b) + [','] + (" " + c));
    RgbTextShape(a, b, c);
    NoMarksInDigits(a);
    NoMarksInDigits(b);
    NoMarksInDigits(c);
    NoMarksInside(a, b, c);
    assert inner[|a|] == ',';
    PartsOfCommaText(inner, |a|);
    SplitThree(a, " " + b, " " + c, ',');
  }

  /** With a comma inside and no parenthesis, the parts of `rgb(inner)` are
      the comma-split `inner`. */
  lemma PartsOfCommaText(inner: string, k: nat)
    requires '(' !in inner && ')' !in inner && k < |inner| && inner[k] == ','
    ensures RgbTextParts("rgb(" + inner + ")") == Split(inner, ',')
  {
    var t := "rgb(" + inner + ")";
    assert t[4 + k] == ',';
    SeparatorComma(t, 4 + k);
    InsideParens(inner);
    var mid := Substring(t, IndexOf(t, '(') + 1, IndexOf(t, ')'));
    assert mid == inner;
    assert RgbTextParts(t) == Split(mid, ',');
  }

  lemma SeparatorComma(t: string, k: nat)
    requires k < |t| && t[k] == ','
    ensures RgbTextSeparator(t) == ','
  {
    assert ',' in t;
  }

  lemma NoMarksInside(a: string, b: string, c: string)
    requires '(' !in a && ')' !in a && '(' !in b && ')' !in b && '(' !in c && ')' !in c
    ensures var inner := a + [','] + ((" " + b) + [','] + (" " + c));
      '(' !in inner && ')' !in inner
  {
  }

  /** A run of digits holds no comma and no parenthesis. */
  lemma NoMarksInDigits(a: string)
    requires AllDigits(a)
    ensures ',' !in a && '(' !in a && ')' !in a && ',' !in " " + a
  {
  }

  /** Formatter and parser agree: `anyToHex(rgbToType(r, g, b))` is
      `rgbToHex(r, g, b)` for channels in [0, 255]. */
  lemma AnyToHexOfRgbType(r: int, g: int, b: int)
    requires IsChannel(r) && IsChannel(g) && IsChannel(b)
    ensures AnyToHex(RgbToType(r, g, b)) == Some(RgbToHex(r, g, b))
  {
    var x, y, z := NatToString(r), NatToString(g), NatToString(b);
    var u := "rgb(" + x + ", " + y + ", " + z + ")";
    assert RgbToType(r, g, b) == u;
    RgbTypeText(x, y, z);
    RgbTextOfChannels(r, g, b);
    JsRgbToHexOfChannels(Rgb(r, g, b));
  }

  /** The `rgb` branch reads the three channels back out of the text. */
  lemma RgbTextOfChannels(r: nat, g: nat, b: nat)
    ensures RgbTextNumbers("rgb(" + NatToString(r) + ", " + NatToString(g) + ", " + NatToString(b) + ")")
         == (Some(r), Some(g), Some(b))
  {
    var x, y, z := NatToString(r), NatToString(g), NatToString(b);
    var u := "rgb(" + x + ", " + y + ", " + z + ")";
    PartsOfRgbType(x, y, z);
    ParsePartsOfChannels(r, g, b);
  }

  lemma ParsePartsOfChannels(r: nat, g: nat, b: nat)
    ensures var parts := [NatToString(r), " " + NatToString(g), " " + NatToString(b)];
      ParsePart(parts, 0) == Some(r) && ParsePart(parts, 1) == Some(g) && ParsePart(parts, 2) == Some(b)
  {
    var parts := [NatToString(r), " " + NatToString(g), " " + NatToString(b)];
    assert |parts| == 3 && parts[0] == NatToString(r);
    assert parts[1] == " " + NatToString(g) && parts[2] == " " + NatToString(b);
    ParseWritten(r);
    ParseWritten(g);
    ParseWritten(b);
  }

  /** `parseInt` reads a written number back, with or without one leading
      space. */
  lemma ParseWritten(n: nat)
    ensures ParseInt(NatToString(n)) == Some(n)
    ensures ParseInt(" " + NatToString(n)) == Some(n)
  {
    var x := NatToString(n);
    ParseIntOfNatToString([], n, []);
    assert [] + x + [] == x;
    ParseIntOfNatToString(" ", n, []);
    assert " " + x + [] == " " + x;
  }

  /** The text `rgbToType` writes is already trimmed and takes the `rgb`
      branch of `anyToHex`. */
  lemma RgbTypeText(x: string, y: string, z: string)
    ensures var u := "rgb(" + x + ", " + y + ", " + z + ")";
      StartsWith(u, "rgb") && Trim(u) == u
  {
    var u := "rgb(" + x + ", " + y + ", " + z + ")";
    var rest := x + ", " + y + ", " + z;
    assert u == "rgb(" + rest + ")";
    assert u[..3] == "rgb";
    assert u[0] == 'r' && u[|u| - 1] == ')';
    TrimOfUnpadded(u);
  }

  // ----------------------------------------------------------- getAllFormats

  datatype Formats = Formats(hex: string, rgb: string, hsl: string, rawRgb: Rgb, rawHsl: HslInt)

  /** `ColorUtils.getAllFormats`: `null` when `anyToHex` gives nothing (or
      the empty string) or `hexToRgb` rejects what it gives. */
  function GetAllFormats(input: string): (f: Option<Formats>)
    ensures f.None? <==> input == [] || AnyToHex(input).value == [] || HexToRgb(AnyToHex(input).value).None?
    ensures f.Some? ==>
      var hex := AnyToHex(input).value;
      var c := HexToRgb(hex).value;
      var x := RgbToHsl(c);
      && f.value.hex == ToUpperCase(hex) && f.value.rawRgb == c && f.value.rawHsl == x
      && f.value.rgb == RgbToType(c.r, c.g, c.b) && f.value.hsl == HslToType(x.h, x.s, x.l)
    ensures f.Some? ==> ValidRgb(f.value.rawRgb)
    ensures f.Some? ==> f.value.rawHsl.s <= 100 && f.value.rawHsl.l <= 100
  {
    match AnyToHex(input)
    case None => None
    case Some(hex) =>
      if hex == [] then None
      else match HexToRgb(hex)
        case None => None
        case Some(c) =>
          var x := RgbToHsl(c);
          Some(Formats(ToUpperCase(hex), RgbToType(c.r, c.g, c.b), HslToType(x.h, x.s, x.l), c, x))
  }

  /** A hex text that needs no trimming is reported as written, only upper
      cased: `ff0000` gets `FF0000` with no `#` added, and the shorthand
      `#abc` keeps its four characters rather than becoming `#AABBCC`. */
  lemma GetAllFormatsKeepsText(s: string)
    requires s != [] && !IsJsSpace(s[0]) && !IsJsSpace(s[|s| - 1])
    requires !StartsWith(s, "rgb") && HexToRgb(s).Some?
    ensures GetAllFormats(s).Some?
    ensures var hex := GetAllFormats(s).value.hex;
      && hex == ToUpperCase(s)
      && |hex| == |s|
      && (hex[0] == '#' <==> s[0] == '#')
  {
    TrimOfUnpadded(s);
  }

  /** A `#` text gets formats exactly when `hexToRgb` accepts it; the
      formats then describe the parsed colour, and for the six-digit form
      the reported hex is the one `rgbToHex` writes for it. */
  lemma GetAllFormatsOfHex(input: string)
    requires input != [] && StartsWith(Trim(input), "#")
    ensures GetAllFormats(input).Some? <==> HexToRgb(Trim(input)).Some?
    ensures GetAllFormats(input).Some? ==>
      var c := HexToRgb(Trim(input)).value;
      && GetAllFormats(input).value.rawRgb == c
      && GetAllFormats(input).value.rgb == RgbToType(c.r, c.g, c.b)
      && (IsSixDigitForm(Trim(input)) ==> GetAllFormats(input).value.hex == RgbToHex(c.r, c.g, c.b))
  {
    var t := Trim(input);
    AnyToHexOfHash(input);
    if HexToRgb(t).Some? && IsSixDigitForm(t) {
      UpperOfSixDigitHex(t);
    }
  }

  lemma AnyToHexOfHash(input: string)
    requires input != [] && StartsWith(Trim(input), "#")
    ensures AnyToHex(input) == Some(Trim(input)) && Trim(input) != []
  {
    var t := Trim(input);
    assert t[..1] == "#";
    assert !StartsWith(t, "rgb");
  }

  /** A six-digit `#` text, upper-cased, is what `rgbToHex` writes for the
      colour it holds. */
  lemma UpperOfSixDigitHex(t: string)
    requires StartsWith(t, "#") && IsSixDigitForm(t) && HexToRgb(t).Some?
    ensures var c := HexToRgb(t).value;
      ToUpperCase(t) == RgbToHex(c.r, c.g, c.b)
  {
    HexToRgbThenBack(t);
    assert !IsShorthandForm(t);
    assert t == "#" + t[1..];
    assert ToUpperCase(t) == "#" + ToUpperCase(t[1..]);
  }

  /** Every colour that `rgbToType` writes comes back with its own channels
      and the hex `rgbToHex` writes for them. */
  lemma GetAllFormatsOfRgbType(r: int, g: int, b: int)
    requires IsChannel(r) && IsChannel(g) && IsChannel(b)
    ensures GetAllFormats(RgbToType(r, g, b)).Some?
    ensures GetAllFormats(RgbToType(r, g, b)).value.rawRgb == Rgb(r, g, b)
    ensures GetAllFormats(RgbToType(r, g, b)).value.hex == RgbToHex(r, g, b)
  {
    AnyToHexOfRgbType(r, g, b);
    var hex := RgbToHex(r, g, b);
    RgbToHexRoundTrip(r, g, b);
    UpperOfCanonical(hex);
  }

  /** An upper-case hex text is left alone by `toUpperCase`. */
  lemma UpperOfCanonical(hex: string)
    requires IsCanonicalHex(hex)
    ensures ToUpperCase(hex) == hex
  {
    var u := ToUpperCase(hex);
    forall i | 0 <= i < 7
      ensures u[i] == hex[i]
    {
    }
  }

  // ----------------------------------------------------------------- hsvToRgb

  /** The six `switch (i % 6)` cases of `hsvToRgb`, as the channel values
      before `* 255`; `None` when `i % 6` is negative, where no case matches
      and `r`, `g`, `b` stay `undefined`. */
  function Sector(i: int, v: real, p: real, q: real, t: real): Option<(real, real, real)>
  {
    match RemInt(i, 6)
    case 0 => Some((v, t, p))
    case 1 => Some((q, v, p))
    case 2 => Some((p, v, t))
    case 3 => Some((p, q, v))
    case 4 => Some((t, p, v))
    case 5 => Some((v, p, q))
    case _ => None
  }

  /** `i = Math.floor(h * 6)`. */
  function SectorIndex(h: real): (i: int)
    ensures h >= 0.0 ==> i >= 0
  {
    (h * 6.0).Floor
  }

  /** `f = h * 6 - i`: how far into its sector the hue lies. */
  function SectorOffset(h: real): (f: real)
    ensures 0.0 <= f < 1.0
  {
    h * 6.0 - SectorIndex(h) as real
  }

  /** `r`, `g`, `b` of `hsvToRgb` before `Math.round(… * 255)`. */
  function HsvFractions(h: real, s: real, v: real): Option<(real, real, real)>
  {
    var f := SectorOffset(h);
    Sector(SectorIndex(h), v, v * (1.0 - s), v * (1.0 - f * s), v * (1.0 - (1.0 - f) * s))
  }

  /** `ColorUtils.hsvToRgb`: `None` stands for the `NaN` channels of a
      negative sector. */
  function HsvToRgb(h: real, s: real, v: real): (c: Option<Rgb>)
    ensures h >= 0.0 ==> c.Some?
    ensures c.Some? && s == 0.0 ==> c.value.r == c.value.g == c.value.b == Round(v * 255.0)
  {
    match HsvFractions(h, s, v)
    case None => None
    case Some((x, y, z)) => Some(Rgb(Round(x * 255.0), Round(y * 255.0), Round(z * 255.0)))
  }

  /** For a hue of at least 0 and `s`, `v` in [0, 1], the three fractions
      lie in [0, v] and one of them is `v`. */
  lemma HsvFractionsWithin(h: real, s: real, v: real)
    requires h >= 0.0 && 0.0 <= s <= 1.0 && 0.0 <= v <= 1.0
    ensures HsvFractions(h, s, v).Some?
    ensures var (x, y, z) := HsvFractions(h, s, v).value;
      && 0.0 <= x <= v && 0.0 <= y <= v && 0.0 <= z <= v
      && (x == v || y == v || z == v)
  {
    var f := SectorOffset(h);
    var p, q, t := v * (1.0 - s), v * (1.0 - f * s), v * (1.0 - (1.0 - f) * s);
    HsvTermsWithin(v, s, f, p, q, t);
    HsvFractionsOfTerms(h, s, v, p, q, t);
    SectorWithin(SectorIndex(h), v, p, q, t);
  }

  lemma HsvFractionsOfTerms(h: real, s: real, v: real, p: real, q: real, t: real)
    requires var f := SectorOffset(h);
      p == v * (1.0 - s) && q == v * (1.0 - f * s) && t == v * (1.0 - (1.0 - f) * s)
    ensures HsvFractions(h, s, v) == Sector(SectorIndex(h), v, p, q, t)
  {
  }

  lemma SectorWithin(i: int, v: real, p: real, q: real, t: real)
    requires i >= 0
    requires 0.0 <= p <= v && 0.0 <= q <= v && 0.0 <= t <= v
    ensures Sector(i, v, p, q, t).Some?
    ensures var (x, y, z) := Sector(i, v, p, q, t).value;
      && 0.0 <= x <= v && 0.0 <= y <= v && 0.0 <= z <= v
      && (x == v || y == v || z == v)
  {
  }

  /** `Math.round` never decreases. */
  lemma RoundMono(x: real, y: real)
    requires x <= y
    ensures Round(x) <= Round(y)
  {
  }

  /** With `s` and `v` in [0, 1], `p`, `q` and `t` lie between 0 and `v`. */
  lemma HsvTermsWithin(v: real, s: real, f: real, p: real, q: real, t: real)
    requires 0.0 <= s <= 1.0 && 0.0 <= v <= 1.0 && 0.0 <= f <= 1.0
    requires p == v * (1.0 - s) && q == v * (1.0 - f * s) && t == v * (1.0 - (1.0 - f) * s)
    ensures 0.0 <= p <= v && 0.0 <= q <= v && 0.0 <= t <= v
  {
    MulFraction(s, f);
    MulFraction(s, 1.0 - f);
    MulFraction(1.0 - s, v);
    MulFraction(1.0 - f * s, v);
    MulFraction(1.0 - (1.0 - f) * s, v);
  }

  /** For a hue of at least 0 and `s`, `v` in [0, 1], every channel is in
      [0, 255], and the largest is `round(v * 255)`: the value is the
      brightest channel. */
  lemma HsvToRgbRange(h: real, s: real, v: real)
    requires h >= 0.0 && 0.0 <= s <= 1.0 && 0.0 <= v <= 1.0
    ensures var c := HsvToRgb(h, s, v).value;
      && ValidRgb(c)
      && Max3(c.r as real, c.g as real, c.b as real) == Round(v * 255.0) as real
  {
    HsvFractionsWithin(h, s, v);
    var (x, y, z) := HsvFractions(h, s, v).value;
    ChannelOf(x, v);
    ChannelOf(y, v);
    ChannelOf(z, v);
  }

  /** A fraction `x` no larger than `v` gives a channel no larger than `v`'s. */
  lemma ChannelOf(x: real, v: real)
    requires 0.0 <= x <= v <= 1.0
    ensures 0 <= Round(x * 255.0) <= Round(v * 255.0) <= 255
  {
    RoundWithin(x * 255.0, 0, 255);
    RoundWithin(v * 255.0, 0, 255);
    RoundMono(x * 255.0, v * 255.0);
  }
}
