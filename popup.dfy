/** src/popup/popup.js: the popup's module-level `state` (current colour,
    history, pick count, rating and auto-copy flags) and the contrast panel
    that `updateUI` fills in. The DOM, the clipboard, the confetti and the
    Chrome storage and messaging calls are not part of this model: the
    values read from storage are a parameter of `LoadState`, and the reply
    of the pick counter is a parameter of `OnPickCount`. */
module Popup {
  import opened Js
  import opened ColorCore
  import opened Lists
  import ColorUtils
  import Storage

  const White := "#FFFFFF"
  const Black := "#000000"

  /** The cap of the popup's history. */
  const MaxHistory: nat := 50

  // ----------------------------------------------------------- contrast panel

  /** `onWhite > onBlack ? '#FFFFFF' : '#000000'`. */
  function BestForeground(onWhite: real, onBlack: real): (fg: string)
    ensures fg == White <==> onWhite > onBlack
    ensures fg == White || fg == Black
  {
    if onWhite > onBlack then White else Black
  }

  /** The number that `x.toFixed(2)` writes, which is what `ratio >= 4.5`
      compares once the text is read back as a number. */
  function ToFixed2(x: real): (r: real)
    ensures x - 0.005 < r <= x + 0.005
  {
    Round(x * 100.0) as real / 100.0
  }

  /** The grade label exactly as written: the `'AA'` test comes first, so no
      ratio reaches the `'AAA'` branch. */
  function GradeLabelAsWritten(ratio: real): (g: string)
    ensures g == "AA" <==> ratio >= 4.5
    ensures g == "Fail" <==> ratio < 4.5
  {
    if ratio >= 4.5 then "AA" else if ratio >= 7.0 then "AAA" else "Fail"
  }

  /** No ratio is ever labelled `'AAA'`. */
  lemma AaaUnreachable(ratio: real)
    ensures GradeLabelAsWritten(ratio) != "AAA"
  {
  }

  /** The label the code evidently intends, with the WCAG 2.1 thresholds for
      normal text tested from the highest down. */
  function GradeLabel(ratio: real): (g: string)
    ensures g == "AAA" <==> ratio >= 7.0
    ensures g == "AA" <==> 4.5 <= ratio < 7.0
    ensures g == "Fail" <==> ratio < 4.5
  {
    if ratio >= 7.0 then "AAA" else if ratio >= 4.5 then "AA" else "Fail"
  }

  /** The two labels differ exactly on the ratios of 7 and above. */
  lemma GradeLabelsDiffer(ratio: real)
    ensures GradeLabelAsWritten(ratio) == GradeLabel(ratio) <==> ratio < 7.0
  {
  }

  /** A ratio of 7 shows the discrepancy: written `'AA'`, intended `'AAA'`. */
  lemma GradeLabelAtSeven()
    ensures GradeLabelAsWritten(7.0) == "AA" && GradeLabel(7.0) == "AAA"
  {
  }

  /** The badge class: `pass` at 4.5 and above. */
  function BadgeClass(ratio: real): (c: string)
    ensures c == "badge pass" <==> ratio >= 4.5
    ensures c == "badge pass" || c == "badge fail"
  {
    assert "badge fail"[6] != "badge pass"[6];
    if ratio >= 4.5 then "badge pass" else "badge fail"
  }

  /** The badge passes exactly when the label is not `'Fail'`. */
  lemma BadgeAgreesWithLabel(ratio: real)
    ensures BadgeClass(ratio) == "badge pass" <==> GradeLabel(ratio) != "Fail"
  {
  }

  /** What `updateUI` shows in the contrast panel. */
  datatype ContrastView = ContrastView(foreground: string, ratio: real, grade: string, badge: string)

  /** The contrast panel for `hex` as `updateUI` fills it in: the better of
      white and black text, the larger of the two ratios to two decimals,
      the grade label as written and the badge. A hex that `hexToRgb`
      rejects gets ratio 0 here; the popup itself never reaches the panel
      for such a hex, since the palette rendering throws first. */
  function ContrastPanel(pow: real -> real, hex: string): (v: ContrastView)
    requires PowLaw(pow)
    ensures var onWhite := ColorUtils.GetContrastRatio(pow, hex, White);
      var onBlack := ColorUtils.GetContrastRatio(pow, hex, Black);
      && ColorUtils.GetContrastRatio(pow, hex, v.foreground) >= onWhite
      && ColorUtils.GetContrastRatio(pow, hex, v.foreground) >= onBlack
      && (onWhite == onBlack ==> v.foreground == Black)
      && v.ratio == ToFixed2(ColorUtils.GetContrastRatio(pow, hex, v.foreground))
    ensures v.grade == GradeLabelAsWritten(v.ratio) && v.badge == BadgeClass(v.ratio)
    ensures v.badge == "badge pass" <==> v.grade != "Fail"
    ensures ColorUtils.HexToRgb(hex).None? ==> v.foreground == Black && v.ratio == 0.0 && v.grade == "Fail"
    ensures ColorUtils.HexToRgb(hex).Some? ==> v.ratio >= 1.0
  {
    var onWhite := ColorUtils.GetContrastRatio(pow, hex, White);
    var onBlack := ColorUtils.GetContrastRatio(pow, hex, Black);
    var fg := BestForeground(onWhite, onBlack);
    var best := if fg == White then onWhite else onBlack;
    var ratio := ToFixed2(best);
    ShownRatio(best);
    ContrastView(fg, ratio, GradeLabelAsWritten(ratio), BadgeClass(ratio))
  }

  /** Rounding to two decimals keeps 0 and keeps a ratio of at least 1 at
      least 1. */
  lemma ShownRatio(x: real)
    ensures x == 0.0 ==> ToFixed2(x) == 0.0
    ensures x >= 1.0 ==> ToFixed2(x) >= 1.0
  {
    RoundOfInt(0);
  }

  /** The panel the code evidently intends: the same panel graded with the
      corrected label. */
  function ContrastPanelIntended(pow: real -> real, hex: string): (v: ContrastView)
    requires PowLaw(pow)
    ensures v == ContrastPanel(pow, hex).(grade := v.grade)
    ensures v.grade == GradeLabel(v.ratio)
    ensures v.badge == "badge pass" <==> v.grade != "Fail"
  {
    var p := ContrastPanel(pow, hex);
    BadgeAgreesWithLabel(p.ratio);
    p.(grade := GradeLabel(p.ratio))
  }

  /** Rounding to two decimals lets a ratio just under 4.5 pass. */
  lemma RoundingPasses()
    ensures 4.495 < 4.5 && ToFixed2(4.495) == 4.5 && BadgeClass(ToFixed2(4.495)) == "badge pass"
  {
    assert 4.495 * 100.0 + 0.5 == 450.0;
  }

  /** Black gets white text at the full ratio of 21, labelled `AA` as
      written, where the intended panel says `AAA`. */
  lemma BlackGetsWhiteText(pow: real -> real)
    requires PowLaw(pow)
    ensures ContrastPanel(pow, Black) == ContrastView(White, 21.0, "AA", "badge pass")
    ensures ContrastPanelIntended(pow, Black) == ContrastView(White, 21.0, "AAA", "badge pass")
  {
    LuminanceOfBlackAndWhite(pow);
    assert ColorUtils.HexToRgb(Black) == Some(Rgb(0, 0, 0));
    assert ColorUtils.HexToRgb(White) == Some(Rgb(255, 255, 255));
    assert ColorUtils.GetContrastRatio(pow, Black, White) == 21.0;
    assert ColorUtils.GetContrastRatio(pow, Black, Black) == 1.0;
    RoundOfInt(2100);
  }

  // -------------------------------------------------------------------- state

  /** The history after `addToHistory(hex)`: unchanged when `hex` is already
      first, otherwise `hex` in front and the last entry dropped past 50. */
  function Picked(history: seq<string>, hex: string): seq<string>
  {
    if history != [] && history[0] == hex then history else PushCapped(hex, history, MaxHistory)
  }

  /** `hex` ends up first; only a repeat at the head is skipped, so copies
      further down stay; a history within the cap stays within it. */
  lemma PickedShape(history: seq<string>, hex: string)
    ensures var r := Picked(history, hex);
      && r != [] && r[0] == hex
      && (history != [] && history[0] == hex ==> r == history)
      && (history == [] || history[0] != hex ==>
            (|history| < MaxHistory ==> r == [hex] + history)
            && (|history| >= MaxHistory ==> r == [hex] + history[..|history| - 1]))
      && (|history| <= MaxHistory ==> |r| <= MaxHistory)
  {
    var r := Picked(history, hex);
    if history == [] || history[0] != hex {
      PushCappedShape(hex, history, MaxHistory);
      assert r == [r[0]] + r[1..];
    }
  }

  /** Picking the same colour twice in a row changes nothing the second
      time. */
  lemma PickedTwice(history: seq<string>, hex: string)
    ensures Picked(Picked(history, hex), hex) == Picked(history, hex)
  {
    PickedShape(history, hex);
  }

  /** The rate-us nudge is due from the 20th pick on, until the user has
      rated. */
  predicate NudgeDue(pickCount: int, rated: bool)
  {
    pickCount >= 20 && !rated
  }

  /** The values `loadState` reads from `chrome.storage.local`; `None` is a
      key that is not stored. */
  datatype StoredState = StoredState(
    history: Option<seq<string>>,
    lastColor: Option<string>,
    pickCount: Option<int>,
    rated: Option<bool>,
    autoCopy: Option<Storage.Value>)

  /** `autoCopy` is on unless the stored value is exactly `false`. */
  function AutoCopyOf(stored: Option<Storage.Value>): (on: bool)
    ensures !on <==> stored == Some(Storage.Bool(false))
  {
    !(stored.Some? && stored.value == Storage.Bool(false))
  }

  class PopupState {
    var currentHex: string
    var history: seq<string>
    var pickCount: int
    var autoCopy: bool
    var rated: bool
    /** Whether the rate-us nudge is shown (its `hidden` class removed). */
    var nudgeShown: bool

    /** The initial `state`. */
    constructor()
      ensures currentHex == White && history == [] && pickCount == 0
      ensures autoCopy && !rated && !nudgeShown
    {
      currentHex := White;
      history := [];
      pickCount := 0;
      autoCopy := true;
      rated := false;
      nudgeShown := false;
    }

    /** `loadState`: a stored value replaces the field only when it is
        truthy; `rated` defaults to false and `autoCopy` to true. */
    method LoadState(stored: StoredState)
      modifies this
      ensures history == (if stored.history.Some? then stored.history.value else old(history))
      ensures currentHex == (if stored.lastColor.Some? && stored.lastColor.value != [] then stored.lastColor.value else old(currentHex))
      ensures pickCount == (if stored.pickCount.Some? && stored.pickCount.value != 0 then stored.pickCount.value else old(pickCount))
      ensures rated <==> stored.rated == Some(true)
      ensures autoCopy == AutoCopyOf(stored.autoCopy)
      ensures nudgeShown == old(nudgeShown)
    {
      if stored.history.Some? {
        history := stored.history.value;
      }
      if stored.lastColor.Some? && stored.lastColor.value != [] {
        currentHex := stored.lastColor.value;
      }
      if stored.pickCount.Some? && stored.pickCount.value != 0 {
        pickCount := stored.pickCount.value;
      }
      rated := stored.rated.Some? && stored.rated.value;
      autoCopy := !(stored.autoCopy.Some? && stored.autoCopy.value == Storage.Bool(false));
    }

    /** `addToHistory(hex)`. */
    method AddToHistory(hex: string)
      modifies this
      ensures history == Picked(old(history), hex)
      ensures currentHex == old(currentHex) && pickCount == old(pickCount)
      ensures autoCopy == old(autoCopy) && rated == old(rated) && nudgeShown == old(nudgeShown)
    {
      if history != [] && history[0] == hex {
        return;
      }
      history := [hex] + history;
      if |history| > MaxHistory {
        history := history[..|history| - 1];
      }
    }

    /** `checkRateNudge`. */
    method CheckRateNudge()
      modifies this
      ensures nudgeShown == NudgeDue(pickCount, rated)
      ensures currentHex == old(currentHex) && history == old(history) && pickCount == old(pickCount)
      ensures autoCopy == old(autoCopy) && rated == old(rated)
    {
      if pickCount >= 20 && !rated {
        nudgeShown := true;
      } else {
        nudgeShown := false;
      }
    }

    /** The reply of `incrementPickCount`: the new count, then the nudge
        check. */
    method OnPickCount(count: int)
      modifies this
      ensures pickCount == count && nudgeShown == NudgeDue(count, rated)
      ensures currentHex == old(currentHex) && history == old(history)
      ensures autoCopy == old(autoCopy) && rated == old(rated)
    {
      pickCount := count;
      CheckRateNudge();
    }

    /** `processNewColor(hex)`: the state part of a pick. */
    method ProcessNewColor(hex: string)
      modifies this
      ensures currentHex == hex && history == Picked(old(history), hex)
      ensures pickCount == old(pickCount) && autoCopy == old(autoCopy)
      ensures rated == old(rated) && nudgeShown == old(nudgeShown)
    {
      currentHex := hex;
      AddToHistory(hex);
    }
  }
}
