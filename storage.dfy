/** src/utils/storage.js: `StorageManager`, the settings and pick history of
    the extension. The two Chrome storage areas are fields of a class: the
    settings object under `prisma_settings` and the history list under
    `prisma_history`, each absent until first written. */
module Storage {
  import opened Js
  import opened Lists

  /** The JSON values a stored setting can hold. */
  datatype Value = Bool(b: bool) | Text(s: string) | Number(n: real) | Null

  /** `DEFAULT_SETTINGS`. */
  function DefaultSettings(): map<string, Value>
  {
    map["autoCopy" := Bool(true), "copyFormat" := Text("hex"),
        "theme" := Text("system"), "showNotifications" := Bool(true)]
  }

  /** `{ ...DEFAULT_SETTINGS, ...result[SETTINGS_KEY] }`: every stored key
      overrides its default, every other default stays, and spreading an
      absent object adds nothing. */
  function MergeSettings(stored: Option<map<string, Value>>): (s: map<string, Value>)
    ensures forall k :: k in s <==> k in DefaultSettings() || (stored.Some? && k in stored.value)
    ensures forall k :: k in s ==>
      s[k] == (if stored.Some? && k in stored.value then stored.value[k] else DefaultSettings()[k])
  {
    if stored.None? then DefaultSettings() else DefaultSettings() + stored.value
  }

  /** With nothing stored the four defaults come back. */
  lemma SettingsWhenEmpty()
    ensures var s := MergeSettings(None);
      && s.Keys == {"autoCopy", "copyFormat", "theme", "showNotifications"}
      && s["autoCopy"] == Bool(true) && s["copyFormat"] == Text("hex")
      && s["theme"] == Text("system") && s["showNotifications"] == Bool(true)
  {
  }

  /** Saving the settings just read and reading them again gives the same
      settings. */
  lemma MergeIdempotent(stored: Option<map<string, Value>>)
    ensures MergeSettings(Some(MergeSettings(stored))) == MergeSettings(stored)
  {
    var s := MergeSettings(stored);
    var t := MergeSettings(Some(s));
    assert forall k :: k in t <==> k in s;
    assert forall k :: k in t ==> t[k] == s[k];
  }

  // ------------------------------------------------------------------ history

  /** One entry of the pick history; `id` is `Date.now()` and `timestamp`
      `new Date().toISOString()` at the time of the pick. */
  datatype HistoryItem = HistoryItem(id: int, color: string, timestamp: string, pinned: bool)

  /** The cap of `addToHistory`. */
  const MaxHistory: nat := 50

  /** `result[HISTORY_KEY] || []`. */
  function HistoryOf(stored: Option<seq<HistoryItem>>): seq<HistoryItem>
  {
    if stored.Some? then stored.value else []
  }

  /** `h => h.color !== hex`. */
  function OtherColor(hex: string): HistoryItem -> bool
  {
    (h: HistoryItem) => h.color != hex
  }

  /** The history after `addToHistory(hex)` with the given clock readings:
      the entries of another colour, a new unpinned entry in front, the last
      entry dropped past 50. */
  function Added(history: seq<HistoryItem>, hex: string, id: int, timestamp: string): seq<HistoryItem>
  {
    PushCapped(HistoryItem(id, hex, timestamp, false), Filter(history, OtherColor(hex)), MaxHistory)
  }

  /** The number of entries of colour `hex`. */
  function ColorCount(history: seq<HistoryItem>, hex: string): nat
  {
    if history == [] then 0
    else (if history[0].color == hex then 1 else 0) + ColorCount(history[1..], hex)
  }

  lemma {:induction false} ColorCountNone(history: seq<HistoryItem>, hex: string)
    requires forall i :: 0 <= i < |history| ==> history[i].color != hex
    ensures ColorCount(history, hex) == 0
  {
    if history != [] {
      ColorCountNone(history[1..], hex);
    }
  }

  /** The new entry comes first, with the picked colour and unpinned. */
  lemma AddedFirst(history: seq<HistoryItem>, hex: string, id: int, timestamp: string)
    ensures var r := Added(history, hex, id, timestamp);
      r != [] && r[0] == HistoryItem(id, hex, timestamp, false)
  {
    PushCappedShape(HistoryItem(id, hex, timestamp, false), Filter(history, OtherColor(hex)), MaxHistory);
  }

  /** Exactly one entry has the picked colour: earlier picks of it are
      removed wherever they were. */
  lemma AddedUnique(history: seq<HistoryItem>, hex: string, id: int, timestamp: string)
    ensures ColorCount(Added(history, hex, id, timestamp), hex) == 1
  {
    var f := Filter(history, OtherColor(hex));
    var r := Added(history, hex, id, timestamp);
    PushCappedShape(HistoryItem(id, hex, timestamp, false), f, MaxHistory);
    assert forall i :: 0 <= i < |f| ==> f[i].color != hex by {
      forall i | 0 <= i < |f| ensures f[i].color != hex {
        assert OtherColor(hex)(f[i]);
      }
    }
    assert forall i :: 0 <= i < |r[1..]| ==> r[1..][i] == f[i];
    ColorCountNone(r[1..], hex);
  }

  /** A history within the cap stays within it, and on overflow only the
      last of the remaining entries is dropped. */
  lemma AddedCap(history: seq<HistoryItem>, hex: string, id: int, timestamp: string)
    ensures var f, r := Filter(history, OtherColor(hex)), Added(history, hex, id, timestamp);
      && (|history| <= MaxHistory ==> |r| <= MaxHistory)
      && (|f| < MaxHistory ==> r[1..] == f)
      && (|f| >= MaxHistory ==> |r| == |f| && r[1..] == f[..|f| - 1])
  {
    PushCappedShape(HistoryItem(id, hex, timestamp, false), Filter(history, OtherColor(hex)), MaxHistory);
  }

  /** The entries after the first are old entries of other colours, in
      their old order. */
  lemma AddedOrder(history: seq<HistoryItem>, hex: string, id: int, timestamp: string)
    ensures var r := Added(history, hex, id, timestamp);
      && IsSubsequence(r[1..], history)
      && forall i :: 1 <= i < |r| ==> r[i].color != hex
  {
    var f := Filter(history, OtherColor(hex));
    var r := Added(history, hex, id, timestamp);
    PushCappedShape(HistoryItem(id, hex, timestamp, false), f, MaxHistory);
    FilterIsSubsequence(history, OtherColor(hex));
    PrefixIsSubsequence(f, |r| - 1);
    assert r[1..] == f[..|r| - 1];
    SubsequenceTrans(r[1..], f, history);
    forall i | 1 <= i < |r| ensures r[i].color != hex {
      assert r[i] == f[i - 1];
      assert OtherColor(hex)(f[i - 1]);
    }
  }

  /** `history.findIndex(h => h.id === id)`. */
  function FindIndex(history: seq<HistoryItem>, id: int): (i: int)
    ensures -1 <= i < |history|
    ensures i >= 0 ==> history[i].id == id && forall j :: 0 <= j < i ==> history[j].id != id
    ensures i == -1 <==> forall j :: 0 <= j < |history| ==> history[j].id != id
  {
    if history == [] then -1
    else if history[0].id == id then 0
    else
      var k := FindIndex(history[1..], id);
      if k == -1 then -1 else k + 1
  }

  /** The history after `togglePin(id)` finds an entry with that id. */
  function Toggled(history: seq<HistoryItem>, id: int): seq<HistoryItem>
  {
    var i := FindIndex(history, id);
    if i >= 0 then history[i := history[i].(pinned := !history[i].pinned)] else history
  }

  /** Only the first entry with the id changes, and only in `pinned`. */
  lemma ToggledShape(history: seq<HistoryItem>, id: int)
    ensures var r, i := Toggled(history, id), FindIndex(history, id);
      && |r| == |history|
      && (i == -1 ==> r == history)
      && (forall j :: 0 <= j < |r| && j != i ==> r[j] == history[j])
      && (i >= 0 ==> r[i].pinned == !history[i].pinned
                     && r[i] == history[i].(pinned := r[i].pinned))
  {
  }

  /** Two histories whose ids agree place an id at the same index. */
  lemma FindIndexOfSameIds(h1: seq<HistoryItem>, h2: seq<HistoryItem>, id: int)
    requires |h1| == |h2| && forall j :: 0 <= j < |h1| ==> h1[j].id == h2[j].id
    ensures FindIndex(h1, id) == FindIndex(h2, id)
  {
  }

  /** Toggling twice restores the history. */
  lemma ToggleTwice(history: seq<HistoryItem>, id: int)
    ensures Toggled(Toggled(history, id), id) == history
  {
    var r := Toggled(history, id);
    ToggledShape(history, id);
    FindIndexOfSameIds(history, r, id);
  }

  /** The two storage areas the manager reads and writes. */
  class StorageManager {
    /** `chrome.storage.sync[SETTINGS_KEY]`. */
    var storedSettings: Option<map<string, Value>>
    /** `chrome.storage.local[HISTORY_KEY]`. */
    var storedHistory: Option<seq<HistoryItem>>

    /** Storage as first installed: nothing written yet. */
    constructor()
      ensures storedSettings.None? && storedHistory.None?
    {
      storedSettings := None;
      storedHistory := None;
    }

    /** `getSettings`. */
    method GetSettings() returns (s: map<string, Value>)
      ensures s == MergeSettings(storedSettings)
    {
      s := if storedSettings.None? then DefaultSettings() else DefaultSettings() + storedSettings.value;
    }

    /** `saveSettings`. */
    method SaveSettings(s: map<string, Value>)
      modifies this
      ensures storedSettings == Some(s) && storedHistory == old(storedHistory)
    {
      storedSettings := Some(s);
    }

    /** `getHistory`: the stored list, or `[]` when nothing is stored. */
    method GetHistory() returns (h: seq<HistoryItem>)
      ensures storedHistory.None? ==> h == []
      ensures storedHistory.Some? ==> h == storedHistory.value
    {
      h := if storedHistory.Some? then storedHistory.value else [];
    }

    /** `addToHistory(hex)`, with `Date.now()` and the ISO time passed in. */
    method AddToHistory(hex: string, id: int, timestamp: string)
      modifies this
      ensures storedHistory == Some(Added(HistoryOf(old(storedHistory)), hex, id, timestamp))
      ensures storedSettings == old(storedSettings)
    {
      var history := GetHistory();
      var newItem := HistoryItem(id, hex, timestamp, false);
      var filtered := Filter(history, OtherColor(hex));
      filtered := [newItem] + filtered;
      if |filtered| > MaxHistory {
        filtered := filtered[..|filtered| - 1];
      }
      storedHistory := Some(filtered);
    }

    /** `togglePin(id)`: nothing is written when no entry has the id. */
    method TogglePin(id: int)
      modifies this
      ensures FindIndex(HistoryOf(old(storedHistory)), id) == -1 ==> storedHistory == old(storedHistory)
      ensures FindIndex(HistoryOf(old(storedHistory)), id) >= 0 ==>
        storedHistory == Some(Toggled(HistoryOf(old(storedHistory)), id))
      ensures storedSettings == old(storedSettings)
    {
      var history := GetHistory();
      var index := FindIndex(history, id);
      if index > -1 {
        history := history[index := history[index].(pinned := !history[index].pinned)];
        storedHistory := Some(history);
      }
    }

    /** `clearHistory`. */
    method ClearHistory()
      modifies this
      ensures storedHistory == Some([]) && storedSettings == old(storedSettings)
    {
      storedHistory := Some([]);
    }
  }
}
