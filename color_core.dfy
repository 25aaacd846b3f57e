/** What the three colour modules have in common, written once: the RGB and
    HSL values, the two hex regular expressions, the `rgbToHex` arithmetic,
    the unrounded body of `rgbToHsl`, and `getLuminance` with the WCAG 2.1
    contrast formula. Each colour module calls these from its own members and
    states its own contracts about them. */
module ColorCore {
  import opened Js

  /** `{r, g, b}` as the colour functions return it. */
  datatype Rgb = Rgb(r: int, g: int, b: int)

  /** `{h, s, l}` before any rounding: degrees and percentages. */
  datatype Hsl = Hsl(h: real, s: real, l: real)

  /** `{h, s, l}` after `Math.round` of every component. */
  datatype HslInt = HslInt(h: int, s: int, l: int)

  predicate IsChannel(v: int) { 0 <= v <= 255 }

  predicate ValidRgb(c: Rgb) { IsChannel(c.r) && IsChannel(c.g) && IsChannel(c.b) }

  /** `#` and six digits from [0-9A-F]: what `rgbToHex` writes. */
  predicate IsCanonicalHex(s: string)
  {
    |s| == 7 && s[0] == '#' && forall i :: 1 <= i < 7 ==> IsUpperHexDigit(s[i])
  }

  // ------------------------------------------------------------- parsing hex

  /** The input with the optional leading `#` of `^#?` removed. */
  function StripHash(s: string): string
  {
    if s != [] && s[0] == '#' then s[1..] else s
  }

  predicate AllHex(s: string)
  {
    forall i :: 0 <= i < |s| ==> IsHexDigit(s[i])
  }

  /** `/^#?([a-f\d]{2})([a-f\d]{2})([a-f\d]{2})$/i` matches `s`. */
  predicate IsSixDigitForm(s: string)
  {
    var d := StripHash(s);
    |d| == 6 && AllHex(d)
  }

  /** `/^#?([a-f\d])([a-f\d])([a-f\d])$/i` matches `s`. */
  predicate IsShorthandForm(s: string)
  {
    var d := StripHash(s);
    |d| == 3 && AllHex(d)
  }

  /** `parseInt(pair, 16)` of a pair of hex digits. */
  function Byte(hi: char, lo: char): (v: int)
    requires IsHexDigit(hi) && IsHexDigit(lo)
    ensures IsChannel(v)
  {
    16 * HexValue(hi) + HexValue(lo)
  }

  /** The six-digit regular expression and the three `parseInt(…, 16)` calls. */
  function ParseSixDigits(s: string): Option<Rgb>
  {
    if IsSixDigitForm(s) then
      var d := StripHash(s);
      Some(Rgb(Byte(d[0], d[1]), Byte(d[2], d[3]), Byte(d[4], d[5])))
    else None
  }

  /** `hex.replace(shorthandRegex, (m, r, g, b) => r + r + g + g + b + b)`:
      a whole-string match is replaced by the doubled digits, without `#`. */
  function ExpandShorthand(s: string): string
  {
    if IsShorthandForm(s) then
      var d := StripHash(s);
      [d[0], d[0], d[1], d[1], d[2], d[2]]
    else s
  }

  // -------------------------------------------------------------- writing hex

  /** The two upper-case digits `rgbToHex` writes for one channel. */
  function HexPair(v: int): string
    requires IsChannel(v)
  {
    [UpperChar(LowerHexDigit(v / 16)), UpperChar(LowerHexDigit(v % 16))]
  }

  /** ECMAScript ToInt32 of an integer: the value modulo 2^32, read as a
      signed 32-bit number. */
  function ToInt32(v: int): (r: int)
    ensures -0x8000_0000 <= r < 0x8000_0000
    ensures -0x8000_0000 <= v < 0x8000_0000 ==> r == v
  {
    var m := v % 0x1_0000_0000;
    if m >= 0x8000_0000 then m - 0x1_0000_0000 else m
  }

  /** `v << k` on an integer `v`, for the two shift counts `rgbToHex` uses:
      32-bit, bits shifted out are lost. */
  function ShiftLeft(v: int, k: nat): int
    requires k == 8 || k == 16
  {
    ToInt32(ToInt32(v) * (if k == 16 then 0x10000 else 0x100))
  }

  /** `Number.prototype.toString(16)` of an integer. */
  function NumberToHex(n: int): (s: string)
    ensures s != []
  {
    if n < 0 then "-" + ToHexString(-n) else ToHexString(n)
  }

  /** `"#" + ((1 << 24) + (r << 16) + (g << 8) + b).toString(16).slice(1).toUpperCase()`
      for integer arguments, shifts and all. */
  function JsRgbToHex(r: int, g: int, b: int): string
  {
    "#" + ToUpperCase(NumberToHex(0x1000000 + ShiftLeft(r, 16) + ShiftLeft(g, 8) + b)[1..])
  }

  /** The same expression for channels in [0, 255], where neither shift
      overflows and each is a multiplication (`JsRgbToHexOfChannels`). */
  function FormatHex(c: Rgb): string
    requires ValidRgb(c)
  {
    "#" + ToUpperCase(ToHexString(0x1000000 + c.r * 0x10000 + c.g * 0x100 + c.b)[1..])
  }

  lemma JsRgbToHexOfChannels(c: Rgb)
    requires ValidRgb(c)
    ensures JsRgbToHex(c.r, c.g, c.b) == FormatHex(c)
  {
    assert ShiftLeft(c.r, 16) == c.r * 0x10000;
    assert ShiftLeft(c.g, 8) == c.g * 0x100;
  }

  lemma ToHexStringStep(n: nat, d: nat)
    requires n >= 1 && d < 16
    ensures ToHexString(n * 16 + d) == ToHexString(n) + [LowerHexDigit(d)]
  {
    assert (n * 16 + d) / 16 == n && (n * 16 + d) % 16 == d;
  }

  /** The six lower-case digits `toString(16)` writes after the leading `1`. */
  function LowDigits(c: Rgb): string
    requires ValidRgb(c)
  {
    [LowerHexDigit(c.r / 16), LowerHexDigit(c.r % 16), LowerHexDigit(c.g / 16),
     LowerHexDigit(c.g % 16), LowerHexDigit(c.b / 16), LowerHexDigit(c.b % 16)]
  }

  lemma ToHexStringSteps(n: nat, d0: nat, d1: nat, d2: nat)
    requires n >= 1 && d0 < 16 && d1 < 16 && d2 < 16
    ensures ToHexString(n * 0x1000 + d0 * 0x100 + d1 * 0x10 + d2)
      == ToHexString(n) + [LowerHexDigit(d0), LowerHexDigit(d1), LowerHexDigit(d2)]
  {
    var n1 := n * 16 + d0;
    var n2 := n1 * 16 + d1;
    ToHexStringStep(n, d0);
    ToHexStringStep(n1, d1);
    ToHexStringStep(n2, d2);
    assert n2 * 16 + d2 == n * 0x1000 + d0 * 0x100 + d1 * 0x10 + d2;
  }

  lemma ToHexStringSixSteps(n: nat, d0: nat, d1: nat, d2: nat, d3: nat, d4: nat, d5: nat)
    requires n >= 1 && d0 < 16 && d1 < 16 && d2 < 16 && d3 < 16 && d4 < 16 && d5 < 16
    ensures ToHexString(n * 0x1000000 + d0 * 0x100000 + d1 * 0x10000 + d2 * 0x1000 + d3 * 0x100 + d4 * 0x10 + d5)
      == ToHexString(n) + [LowerHexDigit(d0), LowerHexDigit(d1), LowerHexDigit(d2),
                           LowerHexDigit(d3), LowerHexDigit(d4), LowerHexDigit(d5)]
  {
    var hi := n * 0x1000 + d0 * 0x100 + d1 * 0x10 + d2;
    ToHexStringSteps(n, d0, d1, d2);
    ToHexStringSteps(hi, d3, d4, d5);
    assert hi * 0x1000 + d3 * 0x100 + d4 * 0x10 + d5
      == n * 0x1000000 + d0 * 0x100000 + d1 * 0x10000 + d2 * 0x1000 + d3 * 0x100 + d4 * 0x10 + d5;
  }

  lemma HexStringOfChannels(c: Rgb)
    requires ValidRgb(c)
    ensures ToHexString(0x1000000 + c.r * 0x10000 + c.g * 0x100 + c.b) == "1" + LowDigits(c)
  {
    var r1, r0, g1, g0, b1, b0 := c.r / 16, c.r % 16, c.g / 16, c.g % 16, c.b / 16, c.b % 16;
    assert c.r == 16 * r1 + r0 && c.g == 16 * g1 + g0 && c.b == 16 * b1 + b0;
    assert ToHexString(1) == "1" by { assert LowerHexDigit(1) == '1'; }
    ToHexStringSixSteps(1, r1, r0, g1, g0, b1, b0);
  }

  lemma UpperOfLowDigits(c: Rgb)
    requires ValidRgb(c)
    ensures ToUpperCase(LowDigits(c)) == HexPair(c.r) + HexPair(c.g) + HexPair(c.b)
  {
  }

  /** The leading `1` of `1 << 24` keeps every channel at two digits, so the
      sliced string is the three channel pairs. */
  lemma FormatHexDigits(c: Rgb)
    requires ValidRgb(c)
    ensures FormatHex(c) == "#" + HexPair(c.r) + HexPair(c.g) + HexPair(c.b)
    ensures IsCanonicalHex(FormatHex(c))
  {
    FormatHexOfLowDigits(c);
    UpperOfLowDigits(c);
    PairsCanonical(c);
  }

  lemma FormatHexOfLowDigits(c: Rgb)
    requires ValidRgb(c)
    ensures FormatHex(c) == "#" + ToUpperCase(LowDigits(c))
  {
    HexStringOfChannels(c);
    assert ("1" + LowDigits(c))[1..] == LowDigits(c);
  }

  lemma PairsCanonical(c: Rgb)
    requires ValidRgb(c)
    ensures IsCanonicalHex("#" + HexPair(c.r) + HexPair(c.g) + HexPair(c.b))
  {
    UpperOfLowerHexDigit(c.r / 16);
    UpperOfLowerHexDigit(c.r % 16);
    UpperOfLowerHexDigit(c.g / 16);
    UpperOfLowerHexDigit(c.g % 16);
    UpperOfLowerHexDigit(c.b / 16);
    UpperOfLowerHexDigit(c.b % 16);
  }

  lemma ByteOfPair(v: int)
    requires IsChannel(v)
    ensures IsHexDigit(HexPair(v)[0]) && IsHexDigit(HexPair(v)[1])
    ensures Byte(HexPair(v)[0], HexPair(v)[1]) == v
  {
    UpperOfLowerHexDigit(v / 16);
    UpperOfLowerHexDigit(v % 16);
  }

  /** Reading back what `rgbToHex` wrote gives the channels. */
  lemma ParseOfFormat(c: Rgb)
    requires ValidRgb(c)
    ensures ParseSixDigits(FormatHex(c)) == Some(c)
    ensures !IsShorthandForm(FormatHex(c))
  {
    FormatHexDigits(c);
    ParseOfPairs(c);
  }

  lemma ParseOfPairs(c: Rgb)
    requires ValidRgb(c)
    ensures var s := "#" + HexPair(c.r) + HexPair(c.g) + HexPair(c.b);
      ParseSixDigits(s) == Some(c) && !IsShorthandForm(s)
  {
    var s := "#" + HexPair(c.r) + HexPair(c.g) + HexPair(c.b);
    assert StripHash(s) == HexPair(c.r) + HexPair(c.g) + HexPair(c.b);
    ByteOfPair(c.r);
    ByteOfPair(c.g);
    ByteOfPair(c.b);
  }

  lemma UpperOfHexDigit(ch: char)
    requires IsHexDigit(ch)
    ensures UpperChar(LowerHexDigit(HexValue(ch))) == UpperChar(ch)
  {
  }

  lemma PairOfByte(hi: char, lo: char)
    requires IsHexDigit(hi) && IsHexDigit(lo)
    ensures HexPair(Byte(hi, lo)) == [UpperChar(hi), UpperChar(lo)]
  {
    var v := Byte(hi, lo);
    assert v / 16 == HexValue(hi) && v % 16 == HexValue(lo);
    UpperOfHexDigit(hi);
    UpperOfHexDigit(lo);
  }

  /** Writing what the six-digit expression read gives the digits upper-cased,
      behind a `#` whether or not the input had one. */
  lemma FormatOfParse(s: string)
    requires IsSixDigitForm(s)
    ensures ParseSixDigits(s).Some? && ValidRgb(ParseSixDigits(s).value)
    ensures FormatHex(ParseSixDigits(s).value) == "#" + ToUpperCase(StripHash(s))
  {
    var d := StripHash(s);
    var c := ParseSixDigits(s).value;
    FormatHexDigits(c);
    PairOfByte(d[0], d[1]);
    PairOfByte(d[2], d[3]);
    PairOfByte(d[4], d[5]);
    assert ToUpperCase(d) == HexPair(c.r) + HexPair(c.g) + HexPair(c.b);
  }

  // --------------------------------------------------------------------- HSL

  function Max3(a: real, b: real, c: real): (m: real)
    ensures m == a || m == b || m == c
    ensures a <= m && b <= m && c <= m
  {
    if a >= b && a >= c then a else if b >= c then b else c
  }

  function Min3(a: real, b: real, c: real): (m: real)
    ensures m == a || m == b || m == c
    ensures m <= a && m <= b && m <= c
  {
    if a <= b && a <= c then a else if b <= c then b else c
  }

  /** The `switch (max)` of `rgbToHsl`: the hue in sixths of a turn, before
      `h /= 6`. The first channel equal to the maximum decides the case. */
  function Sextant(r: real, g: real, b: real, mx: real, d: real): real
    requires d != 0.0
  {
    if mx == r then (g - b) / d + (if g < b then 6.0 else 0.0)
    else if mx == g then (b - r) / d + 2.0
    else (r - g) / d + 4.0
  }

  /** The saturation branch of `rgbToHsl` for a chromatic colour. */
  function Saturation(mx: real, mn: real): real
    requires 0.0 <= mn < mx <= 1.0
  {
    var l := (mx + mn) / 2.0;
    if l > 0.5 then (mx - mn) / (2.0 - mx - mn) else (mx - mn) / (mx + mn)
  }

  /** `rgbToHsl` up to, but not including, the final `Math.round` calls. */
  function UnroundedHsl(c: Rgb): Hsl
    requires ValidRgb(c)
  {
    var r, g, b := c.r as real / 255.0, c.g as real / 255.0, c.b as real / 255.0;
    var mx, mn := Max3(r, g, b), Min3(r, g, b);
    var l := (mx + mn) / 2.0;
    if mx == mn then Hsl(0.0, 0.0, l * 100.0)
    else Hsl(Sextant(r, g, b, mx, mx - mn) / 6.0 * 360.0, Saturation(mx, mn) * 100.0, l * 100.0)
  }

  lemma QuotientBounds(a: real, d: real)
    requires d > 0.0 && -d <= a <= d
    ensures -1.0 <= a / d <= 1.0
    ensures a < d ==> a / d < 1.0
    ensures -d < a ==> -1.0 < a / d
    ensures 0.0 <= a ==> 0.0 <= a / d
    ensures 0.0 < a ==> 0.0 < a / d
    ensures a < 0.0 ==> a / d < 0.0
  {
    if -d < a && a / d <= -1.0 {
      MulMono(d, a / d, -1.0);
    }
  }

  lemma SextantRange(r: real, g: real, b: real)
    requires 0.0 <= r <= 1.0 && 0.0 <= g <= 1.0 && 0.0 <= b <= 1.0
    requires Max3(r, g, b) != Min3(r, g, b)
    ensures var mx := Max3(r, g, b); var d := mx - Min3(r, g, b);
      0.0 <= Sextant(r, g, b, mx, d) < 6.0
  {
    var mx, mn := Max3(r, g, b), Min3(r, g, b);
    var d := mx - mn;
    if mx == r {
      QuotientBounds(g - b, d);
    } else if mx == g {
      QuotientBounds(b - r, d);
    } else {
      QuotientBounds(r - g, d);
    }
  }

  lemma SaturationRange(mx: real, mn: real)
    requires 0.0 <= mn < mx <= 1.0
    ensures 0.0 < Saturation(mx, mn) <= 1.0
  {
    var d := mx - mn;
    if (mx + mn) / 2.0 > 0.5 {
      QuotientBounds(d, 2.0 - mx - mn);
      QuotientBounds(-d, 2.0 - mx - mn);
    } else {
      QuotientBounds(d, mx + mn);
      QuotientBounds(-d, mx + mn);
    }
  }

  /** The unrounded components and their ranges: grey gives hue and
      saturation 0, any other colour a hue in [0, 360) and a saturation in
      (0, 100]; lightness is the mean of the extreme channels, in [0, 100]. */
  lemma UnroundedHslRange(c: Rgb)
    requires ValidRgb(c)
    ensures var x := UnroundedHsl(c);
      && 0.0 <= x.l <= 100.0
      && (c.r == c.g == c.b ==> x.h == 0.0 && x.s == 0.0 && x.l == c.r as real / 255.0 * 100.0)
      && (!(c.r == c.g == c.b) ==> 0.0 <= x.h < 360.0 && 0.0 < x.s <= 100.0)
  {
    var r, g, b := c.r as real / 255.0, c.g as real / 255.0, c.b as real / 255.0;
    var mx, mn := Max3(r, g, b), Min3(r, g, b);
    if mx != mn {
      SextantRange(r, g, b);
      SaturationRange(mx, mn);
    }
  }

  function RoundHsl(x: Hsl): HslInt
  {
    HslInt(Round(x.h), Round(x.s), Round(x.l))
  }

  // --------------------------------------------------------------- luminance

  /** What the model assumes of `x => Math.pow(x, 2.4)`: it maps [0, 1] into
      [0, 1] and fixes 1. Exponentiation by 2.4 is not expressible here, so
      `getLuminance` takes it as a parameter obeying this law. */
  ghost predicate PowLaw(pow: real -> real)
  {
    (forall x :: 0.0 <= x <= 1.0 ==> 0.0 <= pow(x) <= 1.0) && pow(1.0) == 1.0
  }

  /** One channel of `getLuminance`, linearised as in the WCAG 2.1 definition
      of relative luminance. */
  function Linearize(pow: real -> real, v: int): (y: real)
    requires PowLaw(pow) && IsChannel(v)
    ensures 0.0 <= y <= 1.0
  {
    var x := v as real / 255.0;
    if x <= 0.03928 then x / 12.92 else pow((x + 0.055) / 1.055)
  }

  /** `getLuminance(r, g, b)`: relative luminance, always in [0, 1]. */
  function Luminance(pow: real -> real, c: Rgb): (y: real)
    requires PowLaw(pow) && ValidRgb(c)
    ensures 0.0 <= y <= 1.0
  {
    Linearize(pow, c.r) * 0.2126 + Linearize(pow, c.g) * 0.7152 + Linearize(pow, c.b) * 0.0722
  }

  lemma LuminanceOfBlackAndWhite(pow: real -> real)
    requires PowLaw(pow)
    ensures Luminance(pow, Rgb(0, 0, 0)) == 0.0
    ensures Luminance(pow, Rgb(255, 255, 255)) == 1.0
  {
    assert (1.0 + 0.055) / 1.055 == 1.0;
  }

  /** `(max(l1, l2) + 0.05) / (min(l1, l2) + 0.05)`, the WCAG 2.1 contrast
      ratio. */
  function ContrastOf(l1: real, l2: real): (ratio: real)
    requires 0.0 <= l1 <= 1.0 && 0.0 <= l2 <= 1.0
    ensures 1.0 <= ratio <= 21.0
    ensures l1 == l2 ==> ratio == 1.0
  {
    var hi := if l1 >= l2 then l1 else l2;
    var lo := if l1 >= l2 then l2 else l1;
    ContrastBounds(hi, lo);
    (hi + 0.05) / (lo + 0.05)
  }

  lemma ContrastBounds(hi: real, lo: real)
    requires 0.0 <= lo <= hi <= 1.0
    ensures 1.0 <= (hi + 0.05) / (lo + 0.05) <= 21.0
    ensures hi == lo ==> (hi + 0.05) / (lo + 0.05) == 1.0
  {
    var x := lo + 0.05;
    var q := (hi + 0.05) / x;
    assert x * q == hi + 0.05;
    if q < 1.0 { MulStrict(x, q, 1.0); }
    if q > 21.0 { MulStrict(x, 21.0, q); }
    if hi == lo { DivSelf(x); }
  }

  lemma DivSelf(x: real)
    requires x > 0.0
    ensures x / x == 1.0
  {
  }

  lemma ContrastSymmetric(l1: real, l2: real)
    requires 0.0 <= l1 <= 1.0 && 0.0 <= l2 <= 1.0
    ensures ContrastOf(l1, l2) == ContrastOf(l2, l1)
  {
  }
}
