# Prisma colour picker: a verified model of its colour and history logic

Prisma is a browser extension for picking colours from web pages. This
project models its core logic in Dafny and proves properties of that model.
The modelled logic covers:

- converting between hex text, RGB and HSL;
- the WCAG contrast ratio and its grades;
- palette generation;
- the pick histories, settings and state kept by the popups;
- the table of the page's most frequent colours.

The repository has three copies of the colour conversions, and they differ.
Each copy gets its own module:

- `ColorMath` and `PaletteGen` model src/utils/color_math.js.
- `PopupColorUtils` models src/popup/color_utils.js, the `ColorUtils` object used by popup.js.
- `ColorUtils` models src/utils/color-utils.js.

The shared pieces live in two modules:

- `ColorCore` holds the hex formats, the `rgbToHex` bit arithmetic, unrounded HSL, luminance and the contrast formula.
- `Js` writes out the JavaScript semantics the code relies on: `toUpperCase`, `trim`, `indexOf`, `substring`, `split`, `parseInt`, `match(/\d+/g)`, `toString(16)`, `<<` on 32-bit integers, `Math.round`, and `%` with the sign of the dividend.

The stateful parts are modelled as follows:

- `Storage` models src/utils/storage.js, as a class over the two Chrome storage areas.
- `Popup` models the `state` object and contrast panel of src/popup/popup.js.
- `PickerPopup` models the current colour and history of popup.js.
- `PageColors` models `analyzePageColors` of content.js: a counting loop, then sort and slice.
- `Lists` holds `filter`, the unshift-then-pop-past-a-cap step, and the "keeps relative order" relation.

Arithmetic is on exact reals. `Math.pow(x, 2.4)` in the luminance formula is
a parameter `pow` that maps [0, 1] into [0, 1] and sends 1 to 1. Clocks,
storage reads, picked colours and computed styles are parameters.

## Model

| member | source | states |
|---|---|---|
| ColorCore.Byte | src/utils/color_math.js:15-17 | `parseInt` of two hex digits in base 16 is a channel in [0, 255] |
| ColorCore.ToInt32 | src/utils/color_math.js:22 | `<<` works on the 32-bit signed value: the result is in range, and values already in range are unchanged |
| ColorCore.JsRgbToHexOfChannels | src/utils/color_math.js:21-23 | for channels in [0, 255] the shift-and-`toString(16)` formula writes the same text as the digit-pair formatter |
| ColorCore.FormatHexDigits | src/utils/color_math.js:22 | `rgbToHex` writes `#` and two upper-case hex digits per channel, so its output is canonical |
| ColorCore.ParseOfFormat | src/utils/color_math.js:13-18 | the six-digit parser reads what `rgbToHex` writes back as the same channels, and that text is never the shorthand form |
| ColorCore.FormatOfParse | src/utils/color_math.js:13-22 | formatting a parsed six-digit text gives `#` plus the same digits in upper case |
| ColorCore.Max3 | src/utils/color_math.js:27 | `Math.max` of three is one of them and bounds all three |
| ColorCore.Min3 | src/utils/color_math.js:27 | `Math.min` of three is one of them and is below all three |
| ColorCore.SextantRange | src/utils/color_math.js:35-39 | for a non-grey colour the hue before `/= 6` lies in [0, 6) |
| ColorCore.SaturationRange | src/utils/color_math.js:34 | both branches of the saturation formula give a value in (0, 1] |
| ColorCore.UnroundedHslRange | src/utils/color-utils.js:18-35 | lightness is in [0, 100]; grey has hue and saturation 0; any other colour has hue in [0, 360) and saturation in (0, 100] |
| ColorCore.Linearize | src/utils/color_math.js:73-76 | each linearised channel lies in [0, 1] |
| ColorCore.Luminance | src/utils/color_math.js:72-78 | relative luminance lies in [0, 1] |
| ColorCore.LuminanceOfBlackAndWhite | src/utils/color_math.js:72-78 | black has luminance 0 and white has 1 |
| ColorCore.ContrastOf | src/utils/color_math.js:87-89 | the ratio lies in [1, 21], and equal luminances give 1 |
| ColorCore.ContrastSymmetric | src/utils/color_math.js:87-89 | the ratio does not depend on argument order |
| ColorCore.ExpandShorthand | src/utils/color_math.js:11-12 | the shorthand `replace`: text that is wholly an optional `#` and three hex digits becomes the six doubled digits without `#`; any other text comes back unchanged; `ColorMath.HexToRgbAccepts` proves what `hexToRgb` then accepts |
| ColorCore.ParseSixDigits | src/utils/color_math.js:13-18 | the six-digit regular expression (optional `#`, either case) and the three base-16 `parseInt` calls; any other text gives `None`; `ParseOfFormat` and `FormatOfParse` prove it inverts `FormatHex` |
| ColorCore.JsRgbToHex | src/utils/color_math.js:21-23 | `rgbToHex` for any integer arguments: `#` and the upper-cased `toString(16)` of `(1 << 24) + (r << 16) + (g << 8) + b` without its first digit, with `<<` on 32-bit values; `JsRgbToHexOfChannels` proves it writes `FormatHex` for channels in [0, 255] |
| ColorCore.UnroundedHsl | src/utils/color_math.js:25-41 | `rgbToHsl` before rounding: lightness is the mean of the largest and smallest channel; a grey has hue and saturation 0; otherwise saturation is split at lightness 0.5 and hue comes from the largest channel's sextant, divided by 6; `UnroundedHslRange` proves the ranges |
| ColorCore.RoundHsl | src/utils/color_math.js:42 | the three `Math.round` calls on hue, saturation and lightness |
| ColorMath.HexToRgb | src/utils/color_math.js:10-19 | an accepted text gives three channels in [0, 255] |
| ColorMath.HexToRgbAccepts | src/utils/color_math.js:10-19 | accepted exactly in the six-digit and three-digit forms, with or without `#`, in either case; each shorthand digit counts twice |
| ColorMath.RgbToHexRoundTrip | src/utils/color_math.js:21-23 | `rgbToHex` writes canonical text that `hexToRgb` reads back as the same channels |
| ColorMath.HexToRgbThenBack | src/utils/color_math.js:10-23 | hex to RGB and back gives `#` plus the expanded digits in upper case |
| ColorMath.RgbToHsl | src/utils/color_math.js:25-43 | rounded hue is in [0, 360], saturation and lightness in [0, 100] |
| ColorMath.RgbToHslGrey | src/utils/color_math.js:25-43 | a grey gets hue 0, saturation 0 and lightness round(v / 255 × 100) |
| ColorMath.RgbToHslReaches360 | src/utils/color_math.js:36-42 | hue is not wrapped after rounding: rgb(255, 0, 1) gets hue 360 |
| ColorMath.FRange | src/utils/color_math.js:47-49 | each `f(n)` lies in [0, 1] when s and l are fractions |
| ColorMath.ChannelRange | src/utils/color_math.js:50-54 | each rounded channel lies in [0, 255] when s and l are in [0, 100] |
| ColorMath.HslToRgb | src/utils/color_math.js:45-55 | any hue, with s and l in [0, 100], gives a valid colour |
| ColorMath.HslToRgbGrey | src/utils/color_math.js:45-55 | saturation 0 gives the grey round(l / 100 × 255) in all three channels |
| ColorMath.AnyToHex | src/utils/color_math.js:57-68 | the empty string gives black; a `#` text is returned unchanged, valid or not; text starting with `rgb` that has three or more digit runs gives `rgbToHex` of the first three as decimals; any other text gives black |
| ColorMath.AnyToHexOfRgbSpelling | src/utils/color_math.js:61-65 | any `rgb…` text reads its first three numbers whatever separates them, so `rgba(1, 2, 3, 0.5)` ignores the alpha and `rgb(1,2,3)` needs no spaces |
| ColorMath.AnyToHexOfRgbText | src/utils/color_math.js:61-65 | `rgb(a, b, c)` gives `rgbToHex` of the three decimal numbers |
| ColorMath.AnyToHexCarries | src/utils/color_math.js:61-65 | channels above 255 are not rejected: `rgb(256, 0, 0)` comes out as `#000000` |
| ColorMath.GetContrastRatio | src/utils/color_math.js:80-90 | the ratio lies in [1, 21], and is 1 when either text is not a colour |
| ColorMath.ContrastRatioSymmetric | src/utils/color_math.js:80-90 | the ratio is symmetric, and a colour against itself gives 1 |
| ColorMath.ContrastBlackOnWhite | src/utils/color_math.js:80-90 | black on white gives exactly 21 |
| ColorMath.GetWCAGGrade | src/utils/color_math.js:92-97 | 'AAA' exactly at 7 and above, 'AA' exactly in [4.5, 7), 'AA Large' exactly in [3, 4.5), 'Fail' exactly below 3 |
| ColorMath.GradeMonotone | src/utils/color_math.js:92-97 | a higher ratio never gets a lower grade |
| ColorMath.GetReadableValues | src/utils/color_math.js:101-111 | null exactly when `hexToRgb` rejects; otherwise the hex is the input in upper case, `rgb` and `hsl` are written from the parsed colour and its rounded HSL, and `css` quotes the input as given |
| ColorMath.AnyToHexOfReadableRgb | src/utils/color_math.js:101-111 | the `rgb(…)` text it writes converts back, through `anyToHex`, to `rgbToHex` of the colour |
| ColorMath.RgbToHex | src/utils/color_math.js:21-23 | `rgbToHex` for channels in [0, 255], written by the digit-pair formatter; `ColorCore.JsRgbToHexOfChannels` proves this equals the shift formula, and `ColorMath.RgbToHexRoundTrip` proves the text is canonical and that `hexToRgb` reads back the same channels |
| ColorMath.RgbString | src/utils/color_math.js:107 | the `rgb(r, g, b)` text of `getReadableValues`, with decimal channels and `, ` between them; `DigitRunsOfRgbString` proves its digit runs are the three channels |
| PaletteGen.NormalizeHue | src/utils/color_math.js:122-124 | the hue is brought into [0, 360) and agrees with h mod 360 |
| PaletteGen.ToHexCanonical | src/utils/color_math.js:121-127 | `toHex` always writes a canonical hex |
| PaletteGen.ToHexPeriodic | src/utils/color_math.js:121-127 | hues that differ by multiples of 360 give the same hex |
| PaletteGen.Darker | src/utils/color_math.js:134-135 | the lowered lightness is clamped at 0, never above the original, and exact when there is room |
| PaletteGen.Lighter | src/utils/color_math.js:137-138 | the raised lightness is clamped at 100, never below the original, and exact when there is room |
| PaletteGen.Generate | src/utils/color_math.js:115-160 | the pushing method builds the palette of its specification |
| PaletteGen.PushMonochromatic | src/utils/color_math.js:132-139 | the five pushes append the monochromatic palette |
| PaletteGen.PushAnalogous | src/utils/color_math.js:141-148 | the five pushes append the analogous palette |
| PaletteGen.PushComplementary | src/utils/color_math.js:150-156 | the four pushes append the complementary palette |
| PaletteGen.MonochromaticShape | src/utils/color_math.js:132-139 | five colours: the input in the middle, all the others canonical |
| PaletteGen.AnalogousShape | src/utils/color_math.js:141-148 | five colours: the input in the middle, all the others canonical |
| PaletteGen.ComplementaryShape | src/utils/color_math.js:150-156 | four colours: the input first, all the others canonical |
| PaletteGen.PaletteShape | src/utils/color_math.js:115-160 | an invalid hex or an unknown type gives `[]`; the three known types give the shapes above |
| PaletteGen.ToHex | src/utils/color_math.js:121-127 | the `toHex` helper: the hue is normalised into [0, 360) and then converted by `hslToRgb` and `rgbToHex`; `ToHexCanonical` and `ToHexPeriodic` prove that it is canonical and that it repeats every 360 degrees of hue |
| PaletteGen.KindOf | src/utils/color_math.js:115 | the default parameter: no `type` means `'monochromatic'` |
| PaletteGen.Monochromatic | src/utils/color_math.js:132-139 | five entries with the same hue and saturation: lightness -30 and -15 (floored at 0), the input hex itself, then +15 and +30 (capped at 100); `MonochromaticShape` proves the shape |
| PaletteGen.Analogous | src/utils/color_math.js:141-148 | five entries with the same saturation and lightness: hue -30, -15, the input hex itself, +15, +30; `AnalogousShape` proves the shape |
| PaletteGen.Complementary | src/utils/color_math.js:150-156 | four entries: the input hex, then hue +180, +150 and +210 (the split complements); `ComplementaryShape` proves the shape |
| PaletteGen.Palette | src/utils/color_math.js:115-160 | the value `generate` returns: `[]` for text `hexToRgb` rejects; the case's list for the three known kinds; `[]` for any other kind, since the `switch` has no default; `PaletteShape` proves lengths, where the input sits and that every other entry is canonical |
| PopupColorUtils.ShorthandDoubles | src/popup/color_utils.js:7-20 | `#xyz` reads as `xxyyzz`, each channel being 17 times its digit |
| PopupColorUtils.HslToTypeReadsBack | src/popup/color_utils.js:53-55 | the three numbers of `hsl(h, s%, l%)` read back as h, s and l |
| PopupColorUtils.NumbersToHex | src/popup/color_utils.js:74-77 | a blue part that is not a number gives `#AN`; a missing red or green counts as 0 in the shifts |
| PopupColorUtils.AnyToHex | src/popup/color_utils.js:62-81 | null exactly for the empty string; text not starting with `rgb` comes back trimmed; `rgb…` text goes through the part parser |
| PopupColorUtils.AnyToHexOfRgbType | src/popup/color_utils.js:62-81 | the `rgb(r, g, b)` text that `rgbToType` writes converts to `rgbToHex(r, g, b)` |
| PopupColorUtils.RgbTextOfChannels | src/popup/color_utils.js:71-76 | the separator, substring and split steps find the three written numbers |
| PopupColorUtils.ParseWritten | src/popup/color_utils.js:74-76 | `parseInt` reads back a written number, even with a leading space |
| PopupColorUtils.GetAllFormats | src/popup/color_utils.js:84-98 | null exactly for the empty input, an empty `anyToHex` result, or text `hexToRgb` rejects; otherwise the hex is the `anyToHex` text upper-cased, the raw colour is what `hexToRgb` reads, the raw HSL is its `rgbToHsl`, and the two texts are written from them; the colour is valid and s, l are at most 100 |
| PopupColorUtils.GetAllFormatsKeepsText | src/popup/color_utils.js:62-98 | an unpadded hex that is not `rgb…` is reported as written, only upper-cased: the same length, and a `#` exactly when the input has one (so `ff0000` gives `FF0000` and `#abc` stays `#ABC`) |
| PopupColorUtils.GetAllFormatsOfHex | src/popup/color_utils.js:84-98 | a `#` input gets formats exactly when `hexToRgb` accepts it; they describe that colour, and for six digits the hex is what `rgbToHex` writes |
| PopupColorUtils.GetAllFormatsOfRgbType | src/popup/color_utils.js:84-98 | `rgbToType` text gets formats holding its own channels and `rgbToHex` of them |
| PopupColorUtils.SectorIndex | src/popup/color_utils.js:103 | a non-negative hue gives a non-negative sector |
| PopupColorUtils.SectorOffset | src/popup/color_utils.js:104 | the offset within a sector lies in [0, 1) |
| PopupColorUtils.HsvToRgb | src/popup/color_utils.js:101-121 | a non-negative hue always lands in a `switch` case; saturation 0 gives the grey round(v × 255) |
| PopupColorUtils.HsvFractionsWithin | src/popup/color_utils.js:105-115 | every channel fraction lies in [0, v], and one of them equals v |
| PopupColorUtils.HsvToRgbRange | src/popup/color_utils.js:101-121 | the result is a valid colour whose largest channel is round(v × 255) |
| PopupColorUtils.HslToType | src/popup/color_utils.js:53-55 | the `hsl(h, s%, l%)` text of three numbers; `HslToTypeReadsBack` proves its digit runs give the numbers back |
| PopupColorUtils.RgbToType | src/popup/color_utils.js:57-59 | the `rgb(r, g, b)` text of three numbers; `AnyToHexOfRgbType` and `GetAllFormatsOfRgbType` prove `anyToHex` and `getAllFormats` read it back as the same colour |
| ColorUtils.HexToRgb | src/utils/color-utils.js:5-12 | accepted exactly in the six-digit form; the channels are valid |
| ColorUtils.ShorthandRejected | src/utils/color-utils.js:5-12 | a shorthand is refused here but accepted by `ColorMath.hexToRgb` |
| ColorUtils.RgbToHexRoundTrip | src/utils/color-utils.js:14-16 | `rgbToHex` writes canonical text that this `hexToRgb` reads back as the same channels |
| ColorUtils.RgbToHsl | src/utils/color-utils.js:18-36 | unrounded HSL: lightness in [0, 100]; grey has h = s = 0; any other colour has h in [0, 360) and s in (0, 100] |
| ColorUtils.HslToRgbGrey | src/utils/color-utils.js:38-59 | saturation 0 gives the grey round(l / 100 × 255) |
| ColorUtils.UpperRange | src/utils/color-utils.js:52-53 | q lies in [0, 1], with p = 2l − q between 0 and q |
| ColorUtils.Hue2RgbRange | src/utils/color-utils.js:44-51 | `hue2rgb` stays between p and q for every t the callers pass |
| ColorUtils.HslToRgbRange | src/utils/color-utils.js:38-59 | hue in [0, 360) with s and l in [0, 100] gives a valid colour |
| ColorUtils.HslToRgbOfRgbToHsl | src/utils/color-utils.js:18-59 | `hslToRgb` of `rgbToHsl` gives back every colour unchanged |
| ColorUtils.ChannelsOfHue | src/utils/color-utils.js:28-33 | the three `hue2rgb` calls give back the three channel fractions |
| ColorUtils.GetContrastRatio | src/utils/color-utils.js:70-79 | 0 when either text is not a colour; otherwise in [1, 21] |
| ColorUtils.ContrastRatioSymmetric | src/utils/color-utils.js:70-79 | the ratio does not depend on argument order |
| ColorUtils.ShorthandContrast | src/utils/color-utils.js:70-73 | a shorthand colour gets 0 here, where `ColorMath` gives at least 1 |
| ColorUtils.HexesOf | src/utils/color-utils.js:94 | the `map` keeps the length and converts each shade |
| ColorUtils.GeneratePalettes | src/utils/color-utils.js:82-110 | null exactly when `hexToRgb` rejects; otherwise lists of 5, 3 and 2 colours |
| ColorUtils.RotatedHues | src/utils/color-utils.js:98-106 | the `%` rotations give hue − 30, + 30 and + 180, wrapped into [0, 360) |
| ColorUtils.ShadesInRange | src/utils/color-utils.js:88-107 | every shade keeps its components in range; mono shades vary only lightness, the others only hue |
| ColorUtils.ToHexCanonical | src/utils/color-utils.js:94 | each shade converts to a valid colour and a canonical hex |
| ColorUtils.PalettesCanonical | src/utils/color-utils.js:82-110 | every palette entry is canonical hex |
| ColorUtils.PalettesBase | src/utils/color-utils.js:88-107 | the base entries of all three lists are the input hex in upper case with `#` |
| ColorUtils.Hue2Rgb | src/utils/color-utils.js:44-51 | `hue2rgb`: `t` is moved by one into range, then the rising piece below 1/6, `q` below 1/2, the falling piece below 2/3, and `p` after that; `Hue2RgbRange` proves the value lies between `p` and `q` |
| ColorUtils.HslToRgb | src/utils/color-utils.js:38-59 | `hslToRgb`: a grey for saturation 0, otherwise `hue2rgb` at `h + 1/3`, `h` and `h - 1/3` with `q` split at lightness 0.5; every channel is rounded from a multiple of 255; `HslToRgbRange` and `HslToRgbOfRgbToHsl` prove the channel range and the round trip |
| ColorUtils.ToHex | src/utils/color-utils.js:94 | the callback each list is mapped through: `hslToRgb`, then `rgbToHex` with its shifts; `ToHexCanonical` proves the text is canonical for a colour in range |
| ColorUtils.MonoShades | src/utils/color-utils.js:88-93 | the five `mono` colours: lightness -30 and -15 floored at 0, the colour itself, +15 and +30 capped at 100; `ShadesInRange` proves they stay in range and keep hue and saturation |
| ColorUtils.AnalogShades | src/utils/color-utils.js:97-100 | the three `analog` colours: hue -30 (plus 360, modulo 360), the colour itself, hue +30 modulo 360; `ShadesInRange` and `RotatedHues` prove the hues stay in [0, 360) |
| ColorUtils.CompShades | src/utils/color-utils.js:104-106 | the two `comp` colours: the colour itself and hue +180 modulo 360; `ShadesInRange` and `RotatedHues` prove the hue stays in [0, 360) |
| Storage.MergeSettings | src/utils/storage.js:9-21 | every stored key overrides its default, and every other default key stays |
| Storage.MergeIdempotent | src/utils/storage.js:18-30 | saving the settings just read and reading them again gives the same settings |
| Storage.StorageManager.GetSettings | src/utils/storage.js:18-24 | reads the merge of the stored settings over the defaults |
| Storage.StorageManager.SaveSettings | src/utils/storage.js:26-30 | stores the settings and leaves the history alone |
| Storage.StorageManager.GetHistory | src/utils/storage.js:32-38 | `[]` when nothing is stored, otherwise the stored list |
| Storage.StorageManager.AddToHistory | src/utils/storage.js:40-59 | the stored history becomes the filtered, unshifted and capped list |
| Storage.AddedFirst | src/utils/storage.js:42-52 | the new first entry has the picked colour, the given id and time, and is unpinned |
| Storage.AddedUnique | src/utils/storage.js:50-52 | exactly one entry has the picked colour |
| Storage.AddedCap | src/utils/storage.js:50-54 | at most 50 when it was at most 50; on overflow only the last remaining entry is dropped |
| Storage.AddedOrder | src/utils/storage.js:50-54 | the other entries are old entries of other colours in their old order |
| Storage.FindIndex | src/utils/storage.js:63 | `findIndex` gives the first entry with the id, or −1 exactly when there is none |
| Storage.ToggledShape | src/utils/storage.js:63-65 | only the first entry with the id changes, and only its `pinned`; the length stays |
| Storage.ToggleTwice | src/utils/storage.js:61-68 | toggling twice restores the history |
| Storage.StorageManager.TogglePin | src/utils/storage.js:61-68 | nothing is written when no entry has the id; otherwise the toggled list is stored |
| Storage.StorageManager.ClearHistory | src/utils/storage.js:70-72 | the stored history becomes empty |
| Storage.DefaultSettings | src/utils/storage.js:9-14 | `DEFAULT_SETTINGS`: `autoCopy` true, `copyFormat` `'hex'`, `theme` `'system'`, `showNotifications` true; `SettingsWhenEmpty` states them as what `getSettings` returns when nothing is stored |
| Storage.Added | src/utils/storage.js:40-59 | the history `addToHistory` stores: other colours' entries, a new unpinned entry with the clock readings in front, the last entry dropped past 50; `AddedFirst`, `AddedUnique`, `AddedOrder` and `AddedCap` prove this |
| Storage.Toggled | src/utils/storage.js:61-68 | the history `togglePin` stores: the first entry with the id has `pinned` flipped; with no such entry nothing changes; `ToggledShape` and `ToggleTwice` prove this |
| Popup.BestForeground | src/popup/popup.js:148 | white exactly when the ratio on white is strictly larger; ties choose black |
| Popup.ToFixed2 | src/popup/popup.js:155 | the shown ratio is within half a hundredth of the exact one |
| Popup.GradeLabelAsWritten | src/popup/popup.js:157 | the label as written (see Findings) |
| Popup.AaaUnreachable | src/popup/popup.js:157 | no ratio gets the label 'AAA' |
| Popup.GradeLabel | src/popup/popup.js:157 | 'AAA' exactly at 7 and above, 'AA' in [4.5, 7), 'Fail' below 4.5 |
| Popup.GradeLabelsDiffer | src/popup/popup.js:157 | the written and intended labels agree exactly below 7 |
| Popup.GradeLabelAtSeven | src/popup/popup.js:157 | at ratio 7 the written label is 'AA' and the intended one is 'AAA' |
| Popup.BadgeClass | src/popup/popup.js:158 | `badge pass` exactly at 4.5 and above |
| Popup.BadgeAgreesWithLabel | src/popup/popup.js:157-158 | the badge passes exactly when the label is not 'Fail' |
| Popup.ContrastPanel | src/popup/popup.js:146-158 | the chosen text colour gives the larger of the two ratios; the shown ratio is that ratio to two decimals, at least 1 for a valid hex; the grade is the label as written and the badge its class; for a hex this `hexToRgb` rejects the function gives black, 0 and 'Fail', a value the popup never shows since line 137 throws first |
| Popup.ContrastPanelIntended | src/popup/popup.js:146-158 | the same panel graded with the corrected label, whose badge passes exactly when the grade is not 'Fail' |
| Popup.RoundingPasses | src/popup/popup.js:155-158 | rounding to two decimals lets 4.495 pass the 4.5 test |
| Popup.BlackGetsWhiteText | src/popup/popup.js:146-158 | black gets white text at ratio 21, labelled 'AA' as written and 'AAA' by the intended panel |
| Popup.PickedShape | src/popup/popup.js:163-169 | a repeat at the head changes nothing; otherwise the hex goes in front, copies further down stay, the last entry drops past 50, and at most 50 stays at most 50 |
| Popup.PickedTwice | src/popup/popup.js:163-169 | picking the same colour twice in a row changes nothing the second time |
| Popup.AutoCopyOf | src/popup/popup.js:51 | auto-copy is off exactly when the stored value is `false` |
| Popup.PopupState.constructor | src/popup/popup.js:30-35 | the initial state: white, empty history, count 0, auto-copy on |
| Popup.PopupState.LoadState | src/popup/popup.js:45-52 | a truthy stored value replaces its field; `rated` defaults to false and `autoCopy` to true |
| Popup.PopupState.AddToHistory | src/popup/popup.js:163-172 | the history becomes `Picked` of the old one, and nothing else changes |
| Popup.PopupState.CheckRateNudge | src/popup/popup.js:226-233 | the nudge shows exactly when the count is at least 20 and not rated |
| Popup.PopupState.OnPickCount | src/popup/popup.js:217-224 | the reported count is stored and the nudge re-checked |
| Popup.PopupState.ProcessNewColor | src/popup/popup.js:119-123 | the picked colour becomes current and enters the history |
| Popup.Picked | src/popup/popup.js:163-172 | the history after `addToHistory(hex)`: unchanged when `hex` is already first, otherwise `hex` in front and the last entry dropped past 50; `PickedShape` and `PickedTwice` prove this |
| Popup.NudgeDue | src/popup/popup.js:226-233 | the nudge is shown exactly when at least 20 colours were picked and the user has not rated |
| PickerPopup.MovedShape | popup.js:123-131 | the hex comes first and occurs once; the others keep their order; the last remaining entry drops past 20; at most 20 stays at most 20 |
| PickerPopup.MovedKeeps | popup.js:125-131 | every other colour stays, except the last one of a full list |
| PickerPopup.MovedTwice | popup.js:123-131 | within the cap, adding the same colour twice is the same as once |
| PickerPopup.PickedHexFormats | popup.js:33-35 | a `#rrggbb` pick gets formats whose hex is the pick in upper case |
| PickerPopup.PixelHexFormats | popup.js:101-103 | a pixel's `rgbToHex` text gets formats with that same hex |
| PickerPopup.Picker.constructor | popup.js:13 | the current colour starts as white and nothing is displayed |
| PickerPopup.Picker.UpdateColor | popup.js:111-121 | current colour and display change only when `getAllFormats` gives formats, and then to its hex |
| PickerPopup.Picker.AddToHistory | popup.js:123-137 | the stored history becomes `Moved` of the stored list, or of `[]` when absent |
| PickerPopup.Picker.OnEyeDropperPick | popup.js:33-36 | a pick shows the colour in upper case and moves it to the front of the history |
| PickerPopup.Picker.OnSpectrumClick | popup.js:101-106 | a canvas click shows `rgbToHex` of the pixel and moves it to the front of the history |
| PickerPopup.Moved | popup.js:123-137 | the history after `addToHistory(hex)`: earlier copies of `hex` removed, `hex` in front, the last entry dropped past 20; `MovedShape`, `MovedKeeps` and `MovedTwice` prove this |
| PickerPopup.Picker.LoadHistory | popup.js:139-148 | a stored, non-empty history puts its first colour on display exactly as `updateColor` does; an absent or empty history leaves the display unchanged; the history itself is unchanged |
| PageColors.ProcessColor | content.js:31-36 | one more occurrence of a counted value; skipped values change nothing |
| PageColors.CountColors | content.js:22-40 | the table holds exactly the counted values that occur, each with its number of occurrences |
| PageColors.EntriesOf | content.js:43 | one `[color, count]` pair per key, in key order |
| PageColors.Insert | content.js:44 | inserting into a non-increasing list keeps it non-increasing and adds exactly that entry |
| PageColors.SortedDistinct | content.js:43-44 | the sorted entries name each colour once, since the table keys are distinct |
| PageColors.TopDistinct | content.js:43-45 | the top ten name each colour once |
| PageColors.SortDesc | content.js:44 | the sort is non-increasing in count and a permutation of its input |
| PageColors.TopFromTable | content.js:43-46 | at most 10 entries, non-increasing, each a colour of the table with its count |
| PageColors.TopOmits | content.js:43-45 | a table colour left out means ten were returned, none with a smaller count than it |
| PageColors.TopOfTally | content.js:43-46 | the top ten of a tally are at most ten distinct counted colours, non-increasing, each with its number of occurrences; an omitted colour occurs no more often than the tenth |
| PageColors.AnalyzePageColors | content.js:21-49 | at most 10 distinct counted colours, in non-increasing order, each with its true occurrence count; an omitted colour occurs no more often than the tenth |
| PageColors.SkippedNeverCounted | content.js:32 | transparent black, `transparent`, white and the empty string never enter the table |
| PageColors.IsCounted | content.js:32 | `processColor` counts a value unless it is empty, `rgba(0, 0, 0, 0)`, `transparent` or `rgb(255, 255, 255)` |
| PageColors.Values | content.js:25-40 | the values `processColor` sees, in order: each element's background colour, then its text colour |
| PageColors.Top | content.js:43-46 | the sorted entries cut to the first ten; `TopFromTable`, `TopDistinct` and `TopOmits` prove it is sorted, at most ten long, taken from the table, has no repeated colour, and that anything left out counts no more than the last entry kept |

## Left out

- Floating point: all arithmetic is on exact reals. IEEE rounding of `/`, `*` and `Math.pow` is not modelled, so a `Math.round` of a value that lands near .5 may differ in the original.
- `Math.pow(x, 2.4)` in `getLuminance` is a parameter. It is only assumed to map [0, 1] into [0, 1] and to send 1 to 1.
- DOM, clipboard, confetti, alerts, window opening and the option-page link are not modelled. The same goes for canvas drawing, `getImageData`, `getComputedStyle` and `querySelectorAll`: the styles and the clicked pixel are inputs.
- Chrome storage and messaging are not modelled as I/O. The storage areas are fields or parameters, and the replies of the background worker are parameters.
- The async ordering of concurrent `chrome.storage` reads and writes is not modelled. Two overlapping `addToHistory` calls in popup.js could lose an entry; that concurrency is left out.
- `Date.now()` and `new Date().toISOString()` in src/utils/storage.js are parameters.
- src/background/service-worker.js, background.js and src/options/options.js are not part of this model: they are platform wiring.
- `renderHistory`, `renderPaletteRow`, `displayAnalysisResults`, `initSpectrum` and the share button only draw or wire events, so they are not modelled. `PickerPopup.Picker.LoadHistory` models `loadHistory` without its `renderHistory` call.
- `updateUI`'s palette rendering is not modelled, including the TypeError it would raise when `generatePalettes` returns null. Its contrast part is `Popup.ContrastPanel`, and the palettes are `ColorUtils.GeneratePalettes`.
- `lastColor`, written by `updateUI`, is only modelled as a `LoadState` input.
- Storage.MergeSettings: only objects are spread. Spreading a stored non-object value, such as a string, is not modelled. Setting values are restricted to booleans, strings, numbers and null.
- Popup.PopupState.LoadState: the stored `rated` is a boolean or absent, and the stored history is an array or absent. Other truthy types are not modelled.
- Popup.ToFixed2: it rounds the exact value half up. `toFixed` rounds the nearest double, which can differ at an exact half hundredth.
- PageColors.SortDesc: no contract states the order among equal counts. The insertion sort keeps equal counts in table order, as the stable `Array.prototype.sort` does, but that is not proved.
- PageColors.CountColors: it counts over the whole input sequence. The `colorCounts[c]` object lookup of inherited keys (a colour string equal to `__proto__`, say) is not modelled.
- Js.ParseInt: it reads decimal digits into an unbounded integer. Precision loss above 2^53 is not modelled.
- PopupColorUtils.HsvToRgb: a hue whose `i % 6` is negative (h in [−1/6, 0), for instance) falls through the `switch` and gives `NaN` channels. The model returns `None` for it. A hue such as −1, whose `i % 6` is −0, matches `case 0` as in the source.

## Findings

| source | as written | input that shows it | evidently intended | confidence | as-written member | corrected member |
|---|---|---|---|---|---|---|
| src/popup/popup.js:157 | the 4.5 test comes before the 7 test, so the 'AAA' branch is dead and every ratio of 4.5 or more is labelled 'AA' | ratio 7 (and black on white at 21) is labelled 'AA' | 'AAA' at 7 and above, 'AA' in [4.5, 7), 'Fail' below, as `getWCAGGrade` in src/utils/color_math.js:92-97 orders the tests | high; not executed | Popup.GradeLabelAsWritten (used by Popup.ContrastPanel; Popup.AaaUnreachable, Popup.GradeLabelAtSeven) | Popup.GradeLabel (used by Popup.ContrastPanelIntended) |
