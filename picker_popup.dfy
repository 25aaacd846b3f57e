/** popup.js: the picker popup's current colour and its history of picked
    colours, kept under `colorHistory` in `chrome.storage.local`. The colour
    functions are those of src/popup/color_utils.js. The EyeDropper, the
    canvas, the DOM and the clipboard are not part of this model: a picked
    colour and a clicked pixel are parameters. */
module PickerPopup {
  import opened Js
  import opened ColorCore
  import opened Lists
  import opened ColorMath
  import opened PopupColorUtils

  /** The cap of the picker's history. */
  const MaxHistory: nat := 20

  /** `c => c !== hex`. */
  function Other(hex: string): string -> bool
  {
    (c: string) => c != hex
  }

  /** The history after `addToHistory(hex)`: earlier copies of `hex`
      removed, `hex` in front, the last entry dropped past 20. */
  function Moved(history: seq<string>, hex: string): seq<string>
  {
    PushCapped(hex, Filter(history, Other(hex)), MaxHistory)
  }

  /** `hex` comes first and occurs exactly once; the other entries keep
      their order; a history within the cap stays within it, and on
      overflow only the last remaining entry is dropped. */
  lemma MovedShape(history: seq<string>, hex: string)
    ensures var f, r := Filter(history, Other(hex)), Moved(history, hex);
      && r != [] && r[0] == hex
      && multiset(r)[hex] == 1
      && IsSubsequence(r[1..], history)
      && (|f| < MaxHistory ==> r[1..] == f)
      && (|f| >= MaxHistory ==> r[1..] == f[..|f| - 1])
      && (|history| <= MaxHistory ==> |r| <= MaxHistory)
  {
    var f, r := Filter(history, Other(hex)), Moved(history, hex);
    PushCappedShape(hex, f, MaxHistory);
    assert hex !in f by {
      FilterMembership(history, Other(hex), hex);
    }
    var rest := r[1..];
    assert rest == f[..|rest|];
    assert hex !in rest;
    assert r == [hex] + rest;
    FilterIsSubsequence(history, Other(hex));
    PrefixIsSubsequence(f, |rest|);
    SubsequenceTrans(rest, f, history);
  }

  /** Every other colour of the history is still there unless it was the
      last entry and the list was full. */
  lemma MovedKeeps(history: seq<string>, hex: string, c: string)
    requires c in history && c != hex
    ensures var f := Filter(history, Other(hex));
      c in Moved(history, hex) || (|f| >= MaxHistory && c == f[|f| - 1])
  {
    var f, r := Filter(history, Other(hex)), Moved(history, hex);
    FilterMembership(history, Other(hex), c);
    PushCappedShape(hex, f, MaxHistory);
    var i :| 0 <= i < |f| && f[i] == c;
    if i < |r| - 1 {
      assert r[i + 1] == c;
    }
  }

  /** Within the cap, moving the same colour to the front twice is the
      same as once. */
  lemma MovedTwice(history: seq<string>, hex: string)
    requires |history| <= MaxHistory
    ensures Moved(Moved(history, hex), hex) == Moved(history, hex)
  {
    var r := Moved(history, hex);
    MovedShape(history, hex);
    var rest := r[1..];
    assert r == [hex] + rest;
    assert hex !in rest by {
      assert multiset(r) == multiset{hex} + multiset(rest);
    }
    assert Filter(r, Other(hex)) == Filter(rest, Other(hex));
    forall i | 0 <= i < |rest| ensures Other(hex)(rest[i]) {
      assert rest[i] in rest;
    }
    FilterAllKept(rest, Other(hex));
  }

  /** What EyeDropper reports, `#` and six hex digits, gets formats whose
      hex is the same text in upper case. */
  lemma PickedHexFormats(s: string)
    requires StartsWith(s, "#") && IsSixDigitForm(s)
    ensures GetAllFormats(s).Some? && GetAllFormats(s).value.hex == ToUpperCase(s)
  {
    assert s[0] == '#' && |s| == 7 && IsHexDigit(s[6]);
    TrimOfUnpadded(s);
    HexToRgbAccepts(s);
    GetAllFormatsOfHex(s);
    UpperOfSixDigitHex(s);
  }

  /** A clicked pixel's `rgbToHex` text gets formats whose hex is that same
      text. */
  lemma PixelHexFormats(r: int, g: int, b: int)
    requires IsChannel(r) && IsChannel(g) && IsChannel(b)
    ensures GetAllFormats(RgbToHex(r, g, b)).Some?
    ensures GetAllFormats(RgbToHex(r, g, b)).value.hex == RgbToHex(r, g, b)
  {
    var hex := RgbToHex(r, g, b);
    RgbToHexRoundTrip(r, g, b);
    assert hex[0] == '#' && |hex| == 7;
    assert StripHash(hex) == hex[1..];
    PickedHexFormats(hex);
    UpperOfCanonical(hex);
  }

  class Picker {
    /** `currentColor`. */
    var currentColor: string
    /** The formats on display; `None` before the first update. */
    var shown: Option<Formats>
    /** `chrome.storage.local.colorHistory`. */
    var colorHistory: Option<seq<string>>

    /** The popup as it opens, with the given stored history. */
    constructor(stored: Option<seq<string>>)
      ensures currentColor == "#FFFFFF" && shown.None? && colorHistory == stored
    {
      currentColor := "#FFFFFF";
      shown := None;
      colorHistory := stored;
    }

    /** `updateColor(input)`: nothing changes when `getAllFormats` gives
        `null`. */
    method UpdateColor(input: string)
      modifies this
      ensures var f := GetAllFormats(input);
        && currentColor == (if f.Some? then f.value.hex else old(currentColor))
        && shown == (if f.Some? then f else old(shown))
      ensures colorHistory == old(colorHistory)
    {
      var formats := GetAllFormats(input);
      currentColor, shown := if formats.Some? then formats.value.hex else currentColor,
                             if formats.Some? then formats else shown;
    }

    /** `loadHistory` as the popup opens: a non-empty stored history puts
        its first colour on display through `updateColor`. */
    method LoadHistory()
      modifies this
      ensures var stored := old(colorHistory);
        var f := if stored.Some? && stored.value != [] then GetAllFormats(stored.value[0]) else None;
        && currentColor == (if f.Some? then f.value.hex else old(currentColor))
        && shown == (if f.Some? then f else old(shown))
      ensures colorHistory == old(colorHistory)
    {
      if colorHistory.Some? && colorHistory.value != [] {
        UpdateColor(colorHistory.value[0]);
      }
    }

    /** `addToHistory(hex)`, reading `colorHistory || []`. */
    method AddToHistory(hex: string)
      modifies this
      ensures colorHistory == Some(Moved(if old(colorHistory).Some? then old(colorHistory).value else [], hex))
      ensures currentColor == old(currentColor) && shown == old(shown)
    {
      var history := if colorHistory.Some? then colorHistory.value else [];
      history := Filter(history, Other(hex));
      history := [hex] + history;
      if |history| > MaxHistory {
        history := history[..|history| - 1];
      }
      colorHistory := Some(history);
    }

    /** A pick with the EyeDropper: the colour is shown in upper case and
        the reported text goes to the front of the history. */
    method OnEyeDropperPick(color: string)
      requires StartsWith(color, "#") && IsSixDigitForm(color)
      modifies this
      ensures currentColor == ToUpperCase(color)
      ensures colorHistory == Some(Moved(if old(colorHistory).Some? then old(colorHistory).value else [], color))
    {
      PickedHexFormats(color);
      UpdateColor(color);
      AddToHistory(color);
    }

    /** A click on the spectrum canvas at a pixel of the given channels. */
    method OnSpectrumClick(r: int, g: int, b: int)
      requires IsChannel(r) && IsChannel(g) && IsChannel(b)
      modifies this
      ensures currentColor == RgbToHex(r, g, b)
      ensures colorHistory == Some(Moved(if old(colorHistory).Some? then old(colorHistory).value else [], RgbToHex(r, g, b)))
    {
      var hex := RgbToHex(r, g, b);
      PixelHexFormats(r, g, b);
      UpdateColor(hex);
      AddToHistory(hex);
    }
  }
}
