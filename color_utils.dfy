/** src/utils/color-utils.js: the third copy of the colour conversions. It
    differs from `ColorMath` in three ways: `hexToRgb` takes only the
    six-digit form, `rgbToHsl` does not round, and `hslToRgb` uses the
    `hue2rgb` formula of section 4.2.4 of CSS Color Module Level 3. With
    exact arithmetic the last two are inverse to each other. */
module ColorUtils {
  import opened Js
  import opened ColorCore
  import ColorMath

  // ---------------------------------------------------------------- hex text

  /** `hexToRgb`: `/^#?([a-f\d]{2})([a-f\d]{2})([a-f\d]{2})$/i` and three
      `parseInt(…, 16)`; there is no shorthand expansion. */
  function HexToRgb(hex: string): (c: Option<Rgb>)
    ensures c.Some? <==> IsSixDigitForm(hex)
    ensures c.Some? ==> ValidRgb(c.value)
  {
    ParseSixDigits(hex)
  }

  /** A shorthand such as `#03F` is refused here, while `ColorMath.hexToRgb`
      reads it as `#0033FF`. */
  lemma ShorthandRejected(hex: string)
    requires IsShorthandForm(hex)
    ensures HexToRgb(hex).None?
    ensures ColorMath.HexToRgb(hex).Some?
  {
    ColorMath.HexToRgbAccepts(hex);
  }

  /** `rgbToHex` is the expression of `ColorMath.rgbToHex`; what it writes is
      read back as the same channels. */
  lemma RgbToHexRoundTrip(r: int, g: int, b: int)
    requires IsChannel(r) && IsChannel(g) && IsChannel(b)
    ensures IsCanonicalHex(ColorMath.RgbToHex(r, g, b))
    ensures HexToRgb(ColorMath.RgbToHex(r, g, b)) == Some(Rgb(r, g, b))
  {
    FormatHexDigits(Rgb(r, g, b));
    ParseOfFormat(Rgb(r, g, b));
  }

  // --------------------------------------------------------------------- HSL

  /** `rgbToHsl(r, g, b)`, which leaves its results unrounded: grey has hue
      and saturation 0; any other colour a hue in [0, 360) and a saturation
      in (0, 100]. */
  function RgbToHsl(c: Rgb): (x: Hsl)
    requires ValidRgb(c)
    ensures 0.0 <= x.l <= 100.0
    ensures c.r == c.g == c.b ==> x.h == 0.0 && x.s == 0.0
    ensures !(c.r == c.g == c.b) ==> 0.0 <= x.h < 360.0 && 0.0 < x.s <= 100.0
  {
    UnroundedHslRange(c);
    UnroundedHsl(c)
  }

  /** The `t < 0` and `t > 1` corrections at the start of `hue2rgb`. */
  function Wrap(t0: real): real
  {
    var t1 := if t0 < 0.0 then t0 + 1.0 else t0;
    if t1 > 1.0 then t1 - 1.0 else t1
  }

  /** The four pieces of `hue2rgb` on a corrected `t`: rising from `p` to
      `q`, flat at `q`, falling back to `p`, flat at `p`. */
  function HueShape(p: real, q: real, t: real): real
  {
    if t < 1.0 / 6.0 then p + (q - p) * 6.0 * t
    else if t < 1.0 / 2.0 then q
    else if t < 2.0 / 3.0 then p + (q - p) * (2.0 / 3.0 - t) * 6.0
    else p
  }

  /** `hue2rgb(p, q, t)`. */
  function Hue2Rgb(p: real, q: real, t: real): real
  {
    HueShape(p, q, Wrap(t))
  }

  /** `q` of `hslToRgb`, for `s` and `l` already divided by 100. */
  function UpperOf(s: real, l: real): real
  {
    if l < 0.5 then l * (1.0 + s) else l + s - l * s
  }

  /** The three channels of `hslToRgb` as fractions, before
      `Math.round(… * 255)`; `h`, `s` and `l` are already divided. */
  function HslFractions(h: real, s: real, l: real): (real, real, real)
  {
    if s == 0.0 then (l, l, l)
    else
      var q := UpperOf(s, l);
      var p := 2.0 * l - q;
      (Hue2Rgb(p, q, h + 1.0 / 3.0), Hue2Rgb(p, q, h), Hue2Rgb(p, q, h - 1.0 / 3.0))
  }

  /** `hslToRgb(h, s, l)`. */
  function HslToRgb(h: real, s: real, l: real): Rgb
  {
    var (r, g, b) := HslFractions(h / 360.0, s / 100.0, l / 100.0);
    Rgb(Round(r * 255.0), Round(g * 255.0), Round(b * 255.0))
  }

  /** Saturation 0 gives the grey `round(l / 100 * 255)` in every channel. */
  lemma HslToRgbGrey(h: real, l: real)
    ensures var v := Round(l / 100.0 * 255.0);
      HslToRgb(h, 0.0, l) == Rgb(v, v, v)
  {
    assert HslFractions(h / 360.0, 0.0 / 100.0, l / 100.0) == (l / 100.0, l / 100.0, l / 100.0);
  }

  // ------------------------------------------------------- range of hslToRgb

  /** For `s` and `l` in [0, 1], `0 <= p <= q <= 1`. */
  lemma UpperRange(s: real, l: real, ls: real)
    requires 0.0 <= s <= 1.0 && 0.0 <= l <= 1.0 && ls == l * s
    ensures 0.0 <= 2.0 * l - UpperOf(s, l) <= UpperOf(s, l) <= 1.0
  {
    var m := 1.0 - l;
    ColorMath.MulFraction(s, l);
    ColorMath.MulFraction(s, m);
    var sl := s * m;
    assert sl == s - ls;
    if l < 0.5 {
      assert UpperOf(s, l) == l + ls;
    } else {
      assert UpperOf(s, l) == l + sl;
    }
  }

  /** Each piece of `hue2rgb` stays between `p` and `q` on [0, 1]. */
  lemma ShapeWithin(p: real, q: real, t: real)
    requires p <= q && 0.0 <= t <= 1.0
    ensures p <= HueShape(p, q, t) <= q
  {
    if t < 1.0 / 6.0 {
      RiseWithin(p, q, t);
    } else if t < 1.0 / 2.0 {
      assert HueShape(p, q, t) == q;
    } else if t < 2.0 / 3.0 {
      FallWithin(p, q, t);
    } else {
      assert HueShape(p, q, t) == p;
    }
  }

  lemma RiseWithin(p: real, q: real, t: real)
    requires p <= q && 0.0 <= t < 1.0 / 6.0
    ensures p <= p + (q - p) * 6.0 * t <= q
  {
    var d := (q - p) * 6.0;
    if d > 0.0 {
      MulMono(d, 0.0, t);
      MulMono(d, t, 1.0 / 6.0);
      assert d * (1.0 / 6.0) == q - p;
    }
  }

  lemma FallWithin(p: real, q: real, t: real)
    requires p <= q && 1.0 / 2.0 <= t < 2.0 / 3.0
    ensures p <= p + (q - p) * (2.0 / 3.0 - t) * 6.0 <= q
  {
    var d, u := q - p, 2.0 / 3.0 - t;
    if d > 0.0 {
      MulMono(d, 0.0, u);
      MulMono(d, u, 1.0 / 6.0);
      var x := d * u;
      assert 0.0 <= x <= d / 6.0;
    }
  }

  /** On a hue of [-1/3, 4/3), the range of `h ± 1/3` for `h` in [0, 1),
      `hue2rgb` stays between `p` and `q`. */
  lemma Hue2RgbRange(p: real, q: real, t: real)
    requires p <= q && -1.0 / 3.0 <= t < 4.0 / 3.0
    ensures p <= Hue2Rgb(p, q, t) <= q
  {
    ShapeWithin(p, q, Wrap(t));
  }

  /** A fraction in [0, 1] gives a channel in [0, 255]. */
  lemma ChannelOf(x: real)
    requires 0.0 <= x <= 1.0
    ensures IsChannel(Round(x * 255.0))
  {
    RoundWithin(x * 255.0, 0, 255);
  }

  /** For a hue in [0, 360) and `s`, `l` in [0, 100], every channel lies in
      [0, 255]. */
  lemma HslToRgbRange(h: real, s: real, l: real)
    requires 0.0 <= h < 360.0 && 0.0 <= s <= 100.0 && 0.0 <= l <= 100.0
    ensures ValidRgb(HslToRgb(h, s, l))
  {
    var h1, s1, l1 := h / 360.0, s / 100.0, l / 100.0;
    var (x, y, z) := HslFractions(h1, s1, l1);
    if s1 != 0.0 {
      UpperRange(s1, l1, l1 * s1);
      var q := UpperOf(s1, l1);
      var p := 2.0 * l1 - q;
      Hue2RgbRange(p, q, h1 + 1.0 / 3.0);
      Hue2RgbRange(p, q, h1);
      Hue2RgbRange(p, q, h1 - 1.0 / 3.0);
    }
    ChannelOf(x);
    ChannelOf(y);
    ChannelOf(z);
  }

  // ------------------------------------------------ hslToRgb undoes rgbToHsl

  lemma ShapeRise(p: real, q: real, t: real, e: real)
    requires 0.0 <= t < 1.0 / 6.0 && e == 6.0 * t
    ensures HueShape(p, q, t) == p + (q - p) * e
  {
    assert (q - p) * 6.0 * t == (q - p) * (6.0 * t);
  }

  lemma ShapeTop(p: real, q: real, t: real)
    requires 1.0 / 6.0 <= t <= 1.0 / 2.0
    ensures HueShape(p, q, t) == q
  {
  }

  lemma ShapeFall(p: real, q: real, t: real, e: real)
    requires 1.0 / 2.0 <= t < 2.0 / 3.0 && e == (2.0 / 3.0 - t) * 6.0
    ensures HueShape(p, q, t) == p + (q - p) * e
  {
    assert (q - p) * (2.0 / 3.0 - t) * 6.0 == (q - p) * ((2.0 / 3.0 - t) * 6.0);
  }

  /** The channels come back when red is the largest. `e` is the
      `(g - b) / d` of `rgbToHsl` and `hh` its hue as a fraction of a
      turn. */
  lemma RedLargest(r: real, g: real, b: real, mn: real, e: real, hh: real)
    requires 0.0 <= mn < r && g <= r && b <= r
    requires mn == (if g < b then g else b) && (r - mn) * e == g - b
    requires (e < 0.0 <==> g < b) && -1.0 <= e <= 1.0 && hh == (e + (if g < b then 6.0 else 0.0)) / 6.0
    ensures Hue2Rgb(mn, r, hh + 1.0 / 3.0) == r
    ensures Hue2Rgb(mn, r, hh) == g
    ensures Hue2Rgb(mn, r, hh - 1.0 / 3.0) == b
  {
    if g < b {
      assert Wrap(hh + 1.0 / 3.0) == hh - 2.0 / 3.0;
      ShapeTop(mn, r, hh - 2.0 / 3.0);
      assert Wrap(hh - 1.0 / 3.0) == hh - 1.0 / 3.0;
      ShapeFall(mn, r, hh - 1.0 / 3.0, -e);
    } else {
      assert Wrap(hh + 1.0 / 3.0) == hh + 1.0 / 3.0;
      ShapeTop(mn, r, hh + 1.0 / 3.0);
      if e < 1.0 {
        ShapeRise(mn, r, hh, e);
      } else {
        ShapeTop(mn, r, hh);
      }
      assert Wrap(hh - 1.0 / 3.0) == hh + 2.0 / 3.0;
    }
  }

  /** The channels come back when green is the largest and red is not. */
  lemma GreenLargest(r: real, g: real, b: real, mn: real, e: real, hh: real)
    requires 0.0 <= mn < g && r < g && b <= g
    requires mn == (if b < r then b else r) && (g - mn) * e == b - r
    requires (e < 0.0 <==> b < r) && -1.0 <= e <= 1.0 && hh == (e + 2.0) / 6.0
    ensures Hue2Rgb(mn, g, hh + 1.0 / 3.0) == r
    ensures Hue2Rgb(mn, g, hh) == g
    ensures Hue2Rgb(mn, g, hh - 1.0 / 3.0) == b
  {
    assert Wrap(hh + 1.0 / 3.0) == hh + 1.0 / 3.0;
    if e < 0.0 {
      ShapeFall(mn, g, hh + 1.0 / 3.0, -e);
    }
    ShapeTop(mn, g, hh);
    if e < 0.0 {
      assert Wrap(hh - 1.0 / 3.0) == hh + 2.0 / 3.0;
    } else if e < 1.0 {
      assert Wrap(hh - 1.0 / 3.0) == hh - 1.0 / 3.0;
      ShapeRise(mn, g, hh - 1.0 / 3.0, e);
    } else {
      assert Wrap(hh - 1.0 / 3.0) == hh - 1.0 / 3.0;
      ShapeTop(mn, g, hh - 1.0 / 3.0);
    }
  }

  /** The channels come back when blue is the largest and neither red nor
      green is. */
  lemma BlueLargest(r: real, g: real, b: real, mn: real, e: real, hh: real)
    requires 0.0 <= mn < b && r < b && g < b
    requires mn == (if r < g then r else g) && (b - mn) * e == r - g
    requires (e < 0.0 <==> r < g) && (e > 0.0 <==> r > g) && -1.0 < e < 1.0 && hh == (e + 4.0) / 6.0
    ensures Hue2Rgb(mn, b, hh + 1.0 / 3.0) == r
    ensures Hue2Rgb(mn, b, hh) == g
    ensures Hue2Rgb(mn, b, hh - 1.0 / 3.0) == b
  {
    if e > 0.0 {
      assert Wrap(hh + 1.0 / 3.0) == hh - 2.0 / 3.0;
      ShapeRise(mn, b, hh - 2.0 / 3.0, e);
    } else {
      assert Wrap(hh + 1.0 / 3.0) == hh + 1.0 / 3.0;
    }
    if e < 0.0 {
      ShapeFall(mn, b, hh, -e);
    }
    assert Wrap(hh - 1.0 / 3.0) == hh - 1.0 / 3.0;
    ShapeTop(mn, b, hh - 1.0 / 3.0);
  }

  /** `q` and `p` of `hslToRgb`, fed the lightness and saturation of
      `rgbToHsl`, are the largest and the smallest channel. */
  lemma UpperOfSaturation(mx: real, mn: real)
    requires 0.0 <= mn < mx <= 1.0
    ensures UpperOf(Saturation(mx, mn), (mx + mn) / 2.0) == mx
  {
    var l := (mx + mn) / 2.0;
    var d := mx - mn;
    if l > 0.5 {
      var s := d / (2.0 - mx - mn);
      assert s * (2.0 - mx - mn) == d;
      assert l + s - l * s == l + s * (1.0 - l);
      assert s * (1.0 - l) * 2.0 == d;
    } else {
      var s := d / (mx + mn);
      assert s * (mx + mn) == d;
      if l < 0.5 {
        assert l * (1.0 + s) == l + s * (mx + mn) / 2.0;
      } else {
        assert mx + mn == 1.0 && s == d;
      }
    }
  }

  /** The hue of `rgbToHsl`, as a fraction of a turn, gives each channel back
      through `hue2rgb` with `p` the smallest and `q` the largest channel. */
  lemma ChannelsOfHue(r: real, g: real, b: real)
    requires 0.0 <= r <= 1.0 && 0.0 <= g <= 1.0 && 0.0 <= b <= 1.0
    requires Max3(r, g, b) != Min3(r, g, b)
    ensures var mx, mn := Max3(r, g, b), Min3(r, g, b);
      var hh := Sextant(r, g, b, mx, mx - mn) / 6.0;
      Hue2Rgb(mn, mx, hh + 1.0 / 3.0) == r && Hue2Rgb(mn, mx, hh) == g
      && Hue2Rgb(mn, mx, hh - 1.0 / 3.0) == b
  {
    var mx, mn := Max3(r, g, b), Min3(r, g, b);
    var d := mx - mn;
    if mx == r {
      assert Sextant(r, g, b, mx, d) == (g - b) / d + (if g < b then 6.0 else 0.0);
      RedCase(r, g, b, mn, Sextant(r, g, b, mx, d) / 6.0);
    } else if mx == g {
      assert Sextant(r, g, b, mx, d) == (b - r) / d + 2.0;
      GreenCase(r, g, b, mn, Sextant(r, g, b, mx, d) / 6.0);
    } else {
      assert Sextant(r, g, b, mx, d) == (r - g) / d + 4.0;
      BlueCase(r, g, b, mn, Sextant(r, g, b, mx, d) / 6.0);
    }
  }

  lemma RedCase(r: real, g: real, b: real, mn: real, hh: real)
    requires 0.0 <= mn < r && g <= r && b <= r && mn == (if g < b then g else b)
    requires hh == ((g - b) / (r - mn) + (if g < b then 6.0 else 0.0)) / 6.0
    ensures Hue2Rgb(mn, r, hh + 1.0 / 3.0) == r
    ensures Hue2Rgb(mn, r, hh) == g
    ensures Hue2Rgb(mn, r, hh - 1.0 / 3.0) == b
  {
    var d := r - mn;
    var e := (g - b) / d;
    QuotientBounds(g - b, d);
    RedLargest(r, g, b, mn, e, hh);
  }

  lemma GreenCase(r: real, g: real, b: real, mn: real, hh: real)
    requires 0.0 <= mn < g && r < g && b <= g && mn == (if b < r then b else r)
    requires hh == ((b - r) / (g - mn) + 2.0) / 6.0
    ensures Hue2Rgb(mn, g, hh + 1.0 / 3.0) == r
    ensures Hue2Rgb(mn, g, hh) == g
    ensures Hue2Rgb(mn, g, hh - 1.0 / 3.0) == b
  {
    var d := g - mn;
    var e := (b - r) / d;
    QuotientBounds(b - r, d);
    GreenLargest(r, g, b, mn, e, hh);
  }

  lemma BlueCase(r: real, g: real, b: real, mn: real, hh: real)
    requires 0.0 <= mn < b && r < b && g < b && mn == (if r < g then r else g)
    requires hh == ((r - g) / (b - mn) + 4.0) / 6.0
    ensures Hue2Rgb(mn, b, hh + 1.0 / 3.0) == r
    ensures Hue2Rgb(mn, b, hh) == g
    ensures Hue2Rgb(mn, b, hh - 1.0 / 3.0) == b
  {
    var d := b - mn;
    var e := (r - g) / d;
    QuotientBounds(r - g, d);
    BlueLargest(r, g, b, mn, e, hh);
  }

  /** A channel divided by 255 and multiplied back rounds to itself. */
  lemma ChannelBack(v: int)
    ensures Round(v as real / 255.0 * 255.0) == v
  {
    RoundOfInt(v);
  }

  /** With exact arithmetic `hslToRgb` undoes `rgbToHsl`: every colour comes
      back unchanged. */
  lemma HslToRgbOfRgbToHsl(c: Rgb)
    requires ValidRgb(c)
    ensures var x := RgbToHsl(c); HslToRgb(x.h, x.s, x.l) == c
  {
    var x := RgbToHsl(c);
    var r, g, b := c.r as real / 255.0, c.g as real / 255.0, c.b as real / 255.0;
    FractionsOfHsl(c, r, g, b);
    ChannelBack(c.r);
    ChannelBack(c.g);
    ChannelBack(c.b);
  }

  /** Before rounding, `hslToRgb` of `rgbToHsl` gives back each channel
      divided by 255. */
  lemma FractionsOfHsl(c: Rgb, r: real, g: real, b: real)
    requires ValidRgb(c)
    requires r == c.r as real / 255.0 && g == c.g as real / 255.0 && b == c.b as real / 255.0
    ensures var x := RgbToHsl(c);
      HslFractions(x.h / 360.0, x.s / 100.0, x.l / 100.0) == (r, g, b)
  {
    var x := RgbToHsl(c);
    var mx, mn := Max3(r, g, b), Min3(r, g, b);
    if mx == mn {
      assert r == g == b == (mx + mn) / 2.0;
      assert x.s / 100.0 == 0.0 && x.l / 100.0 == r;
    } else {
      var s := Saturation(mx, mn);
      SaturationRange(mx, mn);
      var hh := Sextant(r, g, b, mx, mx - mn) / 6.0;
      assert x.h / 360.0 == hh && x.s / 100.0 == s && x.l / 100.0 == (mx + mn) / 2.0;
      ChromaticFractions(r, g, b, hh, s);
    }
  }

  lemma ChromaticFractions(r: real, g: real, b: real, hh: real, s: real)
    requires 0.0 <= r <= 1.0 && 0.0 <= g <= 1.0 && 0.0 <= b <= 1.0
    requires Max3(r, g, b) != Min3(r, g, b)
    requires var mx, mn := Max3(r, g, b), Min3(r, g, b);
      hh == Sextant(r, g, b, mx, mx - mn) / 6.0 && s == Saturation(mx, mn) && s != 0.0
    ensures HslFractions(hh, s, (Max3(r, g, b) + Min3(r, g, b)) / 2.0) == (r, g, b)
  {
    var mx, mn := Max3(r, g, b), Min3(r, g, b);
    UpperOfSaturation(mx, mn);
    ChannelsOfHue(r, g, b);
    assert 2.0 * ((mx + mn) / 2.0) - mx == mn;
  }

  // ---------------------------------------------------------------- contrast

  /** `getContrastRatio(hex1, hex2)`: 0 when either input is refused by this
      module's `hexToRgb`, the WCAG 2.1 contrast ratio otherwise. */
  function GetContrastRatio(pow: real -> real, hex1: string, hex2: string): (ratio: real)
    requires PowLaw(pow)
    ensures HexToRgb(hex1).None? || HexToRgb(hex2).None? ==> ratio == 0.0
    ensures HexToRgb(hex1).Some? && HexToRgb(hex2).Some? ==> 1.0 <= ratio <= 21.0
  {
    match (HexToRgb(hex1), HexToRgb(hex2))
    case (Some(c1), Some(c2)) => ContrastOf(Luminance(pow, c1), Luminance(pow, c2))
    case _ => 0.0
  }

  /** The ratio does not depend on the order of its arguments. */
  lemma ContrastRatioSymmetric(pow: real -> real, hex1: string, hex2: string)
    requires PowLaw(pow)
    ensures GetContrastRatio(pow, hex1, hex2) == GetContrastRatio(pow, hex2, hex1)
  {
    if HexToRgb(hex1).Some? && HexToRgb(hex2).Some? {
      ContrastSymmetric(Luminance(pow, HexToRgb(hex1).value), Luminance(pow, HexToRgb(hex2).value));
    }
  }

  /** A shorthand colour gets 0 here where `ColorMath` computes a ratio of at
      least 1. */
  lemma ShorthandContrast(pow: real -> real, hex1: string, hex2: string)
    requires PowLaw(pow) && IsShorthandForm(hex1)
    ensures GetContrastRatio(pow, hex1, hex2) == 0.0
    ensures ColorMath.GetContrastRatio(pow, hex1, hex2) >= 1.0
  {
    ShorthandRejected(hex1);
  }

  // ---------------------------------------------------------------- palettes

  datatype Palettes = Palettes(mono: seq<string>, analog: seq<string>, comp: seq<string>)

  /** `c => rgbToHex(hslToRgb(c.h, c.s, c.l).r, ….g, ….b)`, the function that
      each list is mapped through; `rgbToHex` is taken with its shifts. */
  function ToHex(x: Hsl): string
  {
    var c := HslToRgb(x.h, x.s, x.l);
    JsRgbToHex(c.r, c.g, c.b)
  }

  /** The five colours of `mono`, darker to lighter. */
  function MonoShades(x: Hsl): seq<Hsl>
  {
    [x.(l := if x.l - 30.0 > 0.0 then x.l - 30.0 else 0.0),
     x.(l := if x.l - 15.0 > 0.0 then x.l - 15.0 else 0.0),
     x,
     x.(l := if x.l + 15.0 < 100.0 then x.l + 15.0 else 100.0),
     x.(l := if x.l + 30.0 < 100.0 then x.l + 30.0 else 100.0)]
  }

  /** The three colours of `analog`: hue -30, the colour, hue +30. */
  function AnalogShades(x: Hsl): seq<Hsl>
  {
    [x.(h := RemReal(x.h - 30.0 + 360.0, 360.0)), x, x.(h := RemReal(x.h + 30.0, 360.0))]
  }

  /** The two colours of `comp`: the colour and its complement. */
  function CompShades(x: Hsl): seq<Hsl>
  {
    [x, x.(h := RemReal(x.h + 180.0, 360.0))]
  }

  function HexesOf(xs: seq<Hsl>): (hs: seq<string>)
    ensures |hs| == |xs|
    ensures forall i :: 0 <= i < |xs| ==> hs[i] == ToHex(xs[i])
  {
    if xs == [] then [] else [ToHex(xs[0])] + HexesOf(xs[1..])
  }

  /** `generatePalettes(hex)`: `null` for a text `hexToRgb` refuses. */
  function GeneratePalettes(hex: string): (p: Option<Palettes>)
    ensures p.None? <==> HexToRgb(hex).None?
    ensures p.Some? ==> |p.value.mono| == 5 && |p.value.analog| == 3 && |p.value.comp| == 2
  {
    match HexToRgb(hex)
    case None => None
    case Some(c) =>
      var x := RgbToHsl(c);
      Some(Palettes(HexesOf(MonoShades(x)), HexesOf(AnalogShades(x)), HexesOf(CompShades(x))))
  }

  /** A colour `hslToRgb` takes to channels in [0, 255]. */
  predicate InRange(x: Hsl)
  {
    0.0 <= x.h < 360.0 && 0.0 <= x.s <= 100.0 && 0.0 <= x.l <= 100.0
  }

  /** JavaScript's `x % m` for `x` in [0, 2m): one subtraction at most. */
  lemma RemRealOnce(x: real, m: real)
    requires m > 0.0 && 0.0 <= x < 2.0 * m
    ensures RemReal(x, m) == if x < m then x else x - m
  {
    if x < m {
      QuotientBelowOne(x, m);
    } else {
      QuotientBelowTwo(x, m);
    }
  }

  lemma QuotientBelowOne(x: real, m: real)
    requires m > 0.0 && 0.0 <= x < m
    ensures Trunc(x / m) == 0
  {
    var q := x / m;
    assert m * q == x;
    if q < 0.0 {
      MulStrict(m, q, 0.0);
      assert false;
    }
    if q >= 1.0 {
      MulMono(m, 1.0, q);
      assert false;
    }
    assert q.Floor == 0;
  }

  lemma QuotientBelowTwo(x: real, m: real)
    requires m > 0.0 && m <= x < 2.0 * m
    ensures Trunc(x / m) == 1
  {
    var q := x / m;
    assert m * q == x;
    if q < 1.0 {
      MulStrict(m, q, 1.0);
      assert false;
    }
    if q >= 2.0 {
      MulMono(m, 2.0, q);
      assert false;
    }
    assert q.Floor == 1;
  }

  /** The rotated hues are the hue moved by 30 or 180 degrees, brought back
      into [0, 360). */
  lemma RotatedHues(h: real)
    requires 0.0 <= h < 360.0
    ensures RemReal(h - 30.0 + 360.0, 360.0) == if h >= 30.0 then h - 30.0 else h + 330.0
    ensures RemReal(h + 30.0, 360.0) == if h < 330.0 then h + 30.0 else h - 330.0
    ensures RemReal(h + 180.0, 360.0) == if h < 180.0 then h + 180.0 else h - 180.0
  {
    RemRealOnce(h - 30.0 + 360.0, 360.0);
    RemRealOnce(h + 30.0, 360.0);
    RemRealOnce(h + 180.0, 360.0);
  }

  /** Every colour of the three lists keeps the saturation, has its hue in
      [0, 360) and its lightness in [0, 100]: the mono lightness is clamped. */
  lemma ShadesInRange(x: Hsl)
    requires InRange(x)
    ensures forall y :: y in MonoShades(x) ==> InRange(y) && y.h == x.h && y.s == x.s
    ensures forall y :: y in AnalogShades(x) ==> InRange(y) && y.s == x.s && y.l == x.l
    ensures forall y :: y in CompShades(x) ==> InRange(y) && y.s == x.s && y.l == x.l
  {
    RotatedHues(x.h);
  }

  /** Each entry is what `rgbToHex` writes for the channels of its colour,
      a canonical `#RRGGBB`. */
  lemma ToHexCanonical(x: Hsl)
    requires InRange(x)
    ensures var c := HslToRgb(x.h, x.s, x.l);
      ValidRgb(c) && ToHex(x) == ColorMath.RgbToHex(c.r, c.g, c.b) && IsCanonicalHex(ToHex(x))
  {
    HslToRgbRange(x.h, x.s, x.l);
    var c := HslToRgb(x.h, x.s, x.l);
    JsRgbToHexOfChannels(c);
    FormatHexDigits(c);
  }

  /** Every entry of every list is a canonical `#RRGGBB`. */
  lemma PalettesCanonical(hex: string)
    requires GeneratePalettes(hex).Some?
    ensures var p := GeneratePalettes(hex).value;
      && (forall i :: 0 <= i < 5 ==> IsCanonicalHex(p.mono[i]))
      && (forall i :: 0 <= i < 3 ==> IsCanonicalHex(p.analog[i]))
      && (forall i :: 0 <= i < 2 ==> IsCanonicalHex(p.comp[i]))
  {
    var x := RgbToHsl(HexToRgb(hex).value);
    ShadesInRange(x);
    forall y | y in MonoShades(x) + AnalogShades(x) + CompShades(x)
      ensures IsCanonicalHex(ToHex(y))
    {
      ToHexCanonical(y);
    }
  }

  /** The base entries `mono[2]`, `analog[1]` and `comp[0]` are one string:
      the input colour itself, written back by `rgbToHex` as `#` and the
      input's six digits upper-cased. */
  lemma PalettesBase(hex: string)
    requires GeneratePalettes(hex).Some?
    ensures var p := GeneratePalettes(hex).value;
      && p.mono[2] == p.analog[1] == p.comp[0]
      && p.mono[2] == "#" + ToUpperCase(StripHash(hex))
  {
    var c := HexToRgb(hex).value;
    var x := RgbToHsl(c);
    HslToRgbOfRgbToHsl(c);
    JsRgbToHexOfChannels(c);
    assert ToHex(x) == ColorMath.RgbToHex(c.r, c.g, c.b);
    ColorMath.HexToRgbAccepts(hex);
    ColorMath.HexToRgbThenBack(hex);
  }
}
