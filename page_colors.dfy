/** content.js: `analyzePageColors`, the ten most frequent colours of a
    page. Each element contributes its computed background colour and its
    computed text colour; transparent, white and empty values are skipped.
    The computed styles are the input, in the order `querySelectorAll('*')`
    lists the elements. */
module PageColors {

  /** The two computed-style values read from one element. */
  datatype ElementStyle = ElementStyle(backgroundColor: string, color: string)

  /** One `{ color, count }` of the result. */
  datatype Entry = Entry(color: string, count: nat)

  /** How many colours the result keeps. */
  const TopCount: nat := 10

  /** `processColor`'s test: a non-empty value that is neither transparent
      black, nor `transparent`, nor white. */
  predicate IsCounted(c: string)
  {
    c != [] && c != "rgba(0, 0, 0, 0)" && c != "transparent" && c != "rgb(255, 255, 255)"
  }

  /** The values `processColor` is called with, in order: background, then
      text colour, element by element. */
  function Values(elements: seq<ElementStyle>): seq<string>
  {
    if elements == [] then []
    else
      var last := elements[|elements| - 1];
      Values(elements[..|elements| - 1]) + [last.backgroundColor, last.color]
  }

  /** `colorCounts` after processing `vals`, with `keys` its keys in
      insertion order (the order `Object.entries` lists them): exactly the
      counted values that occur, each with its number of occurrences. */
  ghost predicate Tallied(counts: map<string, nat>, keys: seq<string>, vals: seq<string>)
  {
    && (forall c :: c in counts <==> IsCounted(c) && c in vals)
    && (forall c :: c in counts ==> counts[c] == multiset(vals)[c])
    && (forall c :: c in keys <==> c in counts)
    && (forall i, j :: 0 <= i < j < |keys| ==> keys[i] != keys[j])
  }

  /** `processColor(c)`: one more occurrence of `c` when it is counted. */
  method ProcessColor(counts: map<string, nat>, keys: seq<string>, c: string, ghost vals: seq<string>)
    returns (counts': map<string, nat>, keys': seq<string>)
    requires Tallied(counts, keys, vals)
    ensures Tallied(counts', keys', vals + [c])
    ensures IsCounted(c) ==> c in counts' && counts'[c] == multiset(vals)[c] + 1
    ensures !IsCounted(c) ==> counts' == counts && keys' == keys
  {
    assert forall x :: multiset(vals + [c])[x] == multiset(vals)[x] + (if x == c then 1 else 0);
    if IsCounted(c) {
      var before := if c in counts then counts[c] else 0;
      keys' := if c in counts then keys else keys + [c];
      counts' := counts[c := before + 1];
    } else {
      counts', keys' := counts, keys;
    }
  }

  /** The `forEach` over the elements. */
  method CountColors(elements: seq<ElementStyle>) returns (counts: map<string, nat>, keys: seq<string>)
    ensures Tallied(counts, keys, Values(elements))
  {
    counts, keys := map[], [];
    var i := 0;
    while i < |elements|
      invariant 0 <= i <= |elements|
      invariant Tallied(counts, keys, Values(elements[..i]))
    {
      var e := elements[i];
      ghost var vals := Values(elements[..i]);
      assert elements[..i + 1][..i] == elements[..i];
      assert Values(elements[..i + 1]) == vals + [e.backgroundColor] + [e.color];
      counts, keys := ProcessColor(counts, keys, e.backgroundColor, vals);
      counts, keys := ProcessColor(counts, keys, e.color, vals + [e.backgroundColor]);
      i := i + 1;
    }
    assert elements[..|elements|] == elements;
  }

  /** `Object.entries(colorCounts)`. */
  function EntriesOf(counts: map<string, nat>, keys: seq<string>): (es: seq<Entry>)
    requires forall i :: 0 <= i < |keys| ==> keys[i] in counts
    ensures |es| == |keys|
    ensures forall i :: 0 <= i < |es| ==> es[i] == Entry(keys[i], counts[keys[i]])
  {
    if keys == [] then [] else [Entry(keys[0], counts[keys[0]])] + EntriesOf(counts, keys[1..])
  }

  /** Non-increasing in count. */
  predicate SortedDesc(s: seq<Entry>)
  {
    forall i, j :: 0 <= i < j < |s| ==> s[i].count >= s[j].count
  }

  /** Insertion of `e` in front of the first entry it is not smaller than. */
  function Insert(e: Entry, s: seq<Entry>): (r: seq<Entry>)
    requires SortedDesc(s)
    ensures SortedDesc(r)
    ensures multiset(r) == multiset(s) + multiset{e}
    ensures |r| == |s| + 1
  {
    if s == [] || e.count >= s[0].count then
      ConsSorted(e, s);
      [e] + s
    else
      var t := Insert(e, s[1..]);
      InsertBelow(e, s, t);
      ConsSorted(s[0], t);
      ConsMultiset(s, t, e);
      [s[0]] + t
  }

  /** An entry no smaller than every entry of a sorted list can go in
      front. */
  lemma ConsSorted(x: Entry, t: seq<Entry>)
    requires SortedDesc(t)
    requires t == [] || x.count >= t[0].count
    ensures SortedDesc([x] + t)
  {
    var r := [x] + t;
    forall i, j | 0 <= i < j < |r| ensures r[i].count >= r[j].count {
      if i == 0 {
        assert r[j] == t[j - 1];
        assert t[0].count >= t[j - 1].count;
      } else {
        assert r[i] == t[i - 1] && r[j] == t[j - 1];
      }
    }
  }

  lemma ConsMultiset(s: seq<Entry>, t: seq<Entry>, e: Entry)
    requires s != [] && multiset(t) == multiset(s[1..]) + multiset{e}
    ensures multiset([s[0]] + t) == multiset(s) + multiset{e}
  {
    assert s == [s[0]] + s[1..];
  }

  /** The first entry of the insertion into the tail is bounded by the
      head. */
  lemma InsertBelow(e: Entry, s: seq<Entry>, t: seq<Entry>)
    requires s != [] && SortedDesc(s) && e.count < s[0].count
    requires multiset(t) == multiset(s[1..]) + multiset{e}
    ensures t == [] || s[0].count >= t[0].count
  {
    if t != [] {
      assert t[0] in multiset(t);
      if t[0] != e {
        assert t[0] in s[1..];
        var k :| 0 <= k < |s[1..]| && s[1..][k] == t[0];
        assert s[k + 1] == t[0];
      }
    }
  }

  /** `.sort((a, b) => b[1] - a[1])`: an ordering by non-increasing count
      of the same entries. Ties may come out in any order in the source; this
      ordering is one of those it may produce. */
  function SortDesc(s: seq<Entry>): (r: seq<Entry>)
    ensures SortedDesc(r)
    ensures multiset(r) == multiset(s)
    ensures |r| == |s|
  {
    if s == [] then []
    else
      assert s == [s[0]] + s[1..];
      Insert(s[0], SortDesc(s[1..]))
  }

  /** `.slice(0, 10)` of the sorted entries. */
  function Top(counts: map<string, nat>, keys: seq<string>): seq<Entry>
    requires forall i :: 0 <= i < |keys| ==> keys[i] in counts
  {
    var sorted := SortDesc(EntriesOf(counts, keys));
    if |sorted| <= TopCount then sorted else sorted[..TopCount]
  }

  /** The colours of a result. */
  function ColorsOf(result: seq<Entry>): set<string>
  {
    set i | 0 <= i < |result| :: result[i].color
  }

  /** Every entry of the sorted table is a colour of the table with its
      count. */
  lemma SortedFromTable(counts: map<string, nat>, keys: seq<string>, i: int)
    requires forall k :: 0 <= k < |keys| ==> keys[k] in counts
    requires 0 <= i < |SortDesc(EntriesOf(counts, keys))|
    ensures var e := SortDesc(EntriesOf(counts, keys))[i];
      e.color in counts && e.count == counts[e.color]
  {
    var es := EntriesOf(counts, keys);
    var e := SortDesc(es)[i];
    assert e in multiset(es);
    var k :| 0 <= k < |es| && es[k] == e;
  }

  /** Every colour of the table has its entry in the sorted table. */
  lemma TableInSorted(counts: map<string, nat>, keys: seq<string>, c: string)
    requires forall k :: 0 <= k < |keys| ==> keys[k] in counts
    requires c in keys
    ensures exists j :: (0 <= j < |SortDesc(EntriesOf(counts, keys))|
      && SortDesc(EntriesOf(counts, keys))[j] == Entry(c, counts[c]))
  {
    var es := EntriesOf(counts, keys);
    var k :| 0 <= k < |keys| && keys[k] == c;
    assert es[k] == Entry(c, counts[c]);
    assert Entry(c, counts[c]) in multiset(SortDesc(es));
  }

  /** An entry occurs at most once in a sequence of distinct entries. */
  lemma {:induction false} DistinctCount(s: seq<Entry>, e: Entry)
    requires forall i, j :: 0 <= i < j < |s| ==> s[i] != s[j]
    ensures multiset(s)[e] <= 1
  {
    if s != [] {
      assert s == [s[0]] + s[1..];
      DistinctCount(s[1..], e);
      if s[0] == e {
        assert e !in s[1..] by {
          forall k | 0 <= k < |s[1..]| ensures s[1..][k] != e {
            assert s[1..][k] == s[k + 1];
          }
        }
      }
    }
  }

  /** An entry found at two positions occurs at least twice. */
  lemma TwoPositions(s: seq<Entry>, i: int, j: int)
    requires 0 <= i < j < |s| && s[i] == s[j]
    ensures multiset(s)[s[i]] >= 2
  {
    assert s == s[..j] + s[j..];
    assert s[i] in s[..j];
    assert s[j] in s[j..];
  }

  /** The sorted table lists each colour once: its entries come from the
      table's distinct keys. */
  lemma SortedDistinct(counts: map<string, nat>, keys: seq<string>, sorted: seq<Entry>)
    requires forall k :: 0 <= k < |keys| ==> keys[k] in counts
    requires forall i, j :: 0 <= i < j < |keys| ==> keys[i] != keys[j]
    requires sorted == SortDesc(EntriesOf(counts, keys))
    ensures forall i, j :: 0 <= i < j < |sorted| ==> sorted[i].color != sorted[j].color
  {
    var es := EntriesOf(counts, keys);
    forall i, j | 0 <= i < j < |sorted| ensures sorted[i].color != sorted[j].color {
      if sorted[i].color == sorted[j].color {
        SortedFromTable(counts, keys, i);
        SortedFromTable(counts, keys, j);
        TwoPositions(sorted, i, j);
        DistinctCount(es, sorted[i]);
        assert false;
      }
    }
  }

  /** The top entries are at most ten, in non-increasing order, each taken
      from the table. */
  lemma TopFromTable(counts: map<string, nat>, keys: seq<string>)
    requires forall k :: 0 <= k < |keys| ==> keys[k] in counts
    ensures var top := Top(counts, keys);
      && |top| <= TopCount
      && SortedDesc(top)
      && forall i :: 0 <= i < |top| ==> top[i].color in counts && top[i].count == counts[top[i].color]
  {
    var sorted := SortDesc(EntriesOf(counts, keys));
    var top := Top(counts, keys);
    forall i | 0 <= i < |top|
      ensures top[i].color in counts && top[i].count == counts[top[i].color]
    {
      assert top[i] == sorted[i];
      SortedFromTable(counts, keys, i);
    }
  }

  /** The top entries name each colour once. */
  lemma TopDistinct(counts: map<string, nat>, keys: seq<string>)
    requires forall k :: 0 <= k < |keys| ==> keys[k] in counts
    requires forall i, j :: 0 <= i < j < |keys| ==> keys[i] != keys[j]
    ensures var top := Top(counts, keys);
      forall i, j :: 0 <= i < j < |top| ==> top[i].color != top[j].color
  {
    var sorted := SortDesc(EntriesOf(counts, keys));
    var top := Top(counts, keys);
    assert |top| <= |sorted| && top == sorted[..|top|];
    SortedDistinct(counts, keys, sorted);
    forall i, j | 0 <= i < j < |top| ensures top[i].color != top[j].color {
      assert top[i] == sorted[i] && top[j] == sorted[j];
    }
  }

  lemma NotAmongColors(result: seq<Entry>, c: string)
    requires c !in ColorsOf(result)
    ensures forall i :: 0 <= i < |result| ==> result[i].color != c
  {
    forall i | 0 <= i < |result| ensures result[i].color != c {
      assert result[i].color in ColorsOf(result);
    }
  }

  /** A colour of the table that is left out occurs no more often than the
      tenth entry. */
  lemma TopOmits(counts: map<string, nat>, keys: seq<string>, c: string)
    requires forall k :: 0 <= k < |keys| ==> keys[k] in counts
    requires c in keys && c !in ColorsOf(Top(counts, keys))
    ensures var top := Top(counts, keys);
      |top| == TopCount && counts[c] <= top[TopCount - 1].count
  {
    var sorted := SortDesc(EntriesOf(counts, keys));
    var top := Top(counts, keys);
    TableInSorted(counts, keys, c);
    var j :| 0 <= j < |sorted| && sorted[j] == Entry(c, counts[c]);
    NotAmongColors(top, c);
    assert forall i :: 0 <= i < |top| ==> top[i] == sorted[i];
    assert j >= |top|;
    assert sorted[TopCount - 1] == top[TopCount - 1];
  }

  /** What the top ten of a tally promise about the counted values. */
  lemma TopOfTally(counts: map<string, nat>, keys: seq<string>, vals: seq<string>)
    requires Tallied(counts, keys, vals)
    ensures var result := Top(counts, keys);
      && |result| <= TopCount
      && SortedDesc(result)
      && (forall i :: 0 <= i < |result| ==>
            IsCounted(result[i].color) && result[i].count == multiset(vals)[result[i].color]
            && result[i].count > 0)
      && (forall c :: IsCounted(c) && c in vals && c !in ColorsOf(result) ==>
            |result| == TopCount && multiset(vals)[c] <= result[TopCount - 1].count)
      && (forall i, j :: 0 <= i < j < |result| ==> result[i].color != result[j].color)
  {
    var result := Top(counts, keys);
    TopFromTable(counts, keys);
    TopDistinct(counts, keys);
    forall i | 0 <= i < |result|
      ensures IsCounted(result[i].color) && result[i].count == multiset(vals)[result[i].color]
        && result[i].count > 0
    {
      assert result[i].color in counts;
      assert result[i].color in vals;
    }
    forall c | IsCounted(c) && c in vals && c !in ColorsOf(result)
      ensures |result| == TopCount && multiset(vals)[c] <= result[TopCount - 1].count
    {
      TopOmits(counts, keys, c);
    }
  }

  /** `analyzePageColors` over the given computed styles. */
  method AnalyzePageColors(elements: seq<ElementStyle>) returns (result: seq<Entry>)
    ensures |result| <= TopCount
    ensures SortedDesc(result)
    ensures forall i :: 0 <= i < |result| ==>
      IsCounted(result[i].color) && result[i].count == multiset(Values(elements))[result[i].color]
      && result[i].count > 0
    ensures forall c :: IsCounted(c) && c in Values(elements) && c !in ColorsOf(result) ==>
      |result| == TopCount && multiset(Values(elements))[c] <= result[TopCount - 1].count
    ensures forall i, j :: 0 <= i < j < |result| ==> result[i].color != result[j].color
  {
    var counts, keys := CountColors(elements);
    result := Top(counts, keys);
    TopOfTally(counts, keys, Values(elements));
  }

  /** Transparent, white and empty values are never counted, however often
      they occur. */
  lemma SkippedNeverCounted(counts: map<string, nat>, keys: seq<string>, vals: seq<string>)
    requires Tallied(counts, keys, vals)
    ensures "rgba(0, 0, 0, 0)" !in counts && "transparent" !in counts
    ensures "rgb(255, 255, 255)" !in counts && "" !in counts
  {
  }
}
