/**
 * Filtering the option list: `showAllOptions` and `searchCallback` in
 * `src/choosin.js`, plus the option loop of `searchCallback` as a method,
 * proved to compute the filter the state transition uses.
 */
module Search {
  import opened Base
  import opened Text
  import opened OptionIndex
  import opened Widget

  /** Every entry of the index, as a set. */
  function AllEntries(options: seq<Entry>): set<Entry>
  {
    set e | e in options
  }

  /**
   * `showAllOptions()`: every list item is unhidden, the visible list
   * becomes the whole index in order, and the selection is highlighted.
   * Scrolling the selection into view dereferences it, so a missing
   * selection throws.
   */
  function ShowAllOptions(w: State): (r: Step)
    requires w.selected.Some?
    ensures r.trace == [VisibleOptionHashes, OptionHighlighted]
    ensures r.w.visible == Hashes(w.options)
    ensures forall e :: e in w.options ==> e !in r.w.hidden
    ensures r.w.hidden <= w.hidden
    ensures r.w.highlighted == w.selected
    ensures r.w.(visible := w.visible, hidden := w.hidden, highlighted := w.highlighted) == w
  {
    var unhidden := w.hidden - AllEntries(w.options);
    Step(w.(hidden := unhidden, visible := Hashes(w.options), highlighted := w.selected),
         [VisibleOptionHashes, OptionHighlighted])
  }

  /** The filter a non-empty query `q` applies: matches shown in order and
      unhidden, misses hidden, the first match highlighted, and the value
      re-checked. */
  function RunQuery(w: State, q: string): (r: Step)
    requires w.selected.Some?
    ensures r.w.visible == Hashes(MatchingEntries(w.options, q))
    ensures r.w.hidden == (w.hidden - MatchingSet(w.options, q)) + NonMatchingSet(w.options, q)
    ensures FirstMatch(w.options, q).Some? ==> r.w.highlighted == FirstMatch(w.options, q)
    ensures FirstMatch(w.options, q).None? ==> r.w.highlighted == w.highlighted
    ensures r.w.hasValidValue == ValidValue(w)
    ensures r.w.(visible := w.visible, hidden := w.hidden, highlighted := w.highlighted,
                 hasValidValue := w.hasValidValue) == w
    ensures |r.trace| >= 2 && r.trace[|r.trace| - 1] == HasValidValue
  {
    var first := FirstMatch(w.options, q);
    var highlighted := if first.Some? then w.(highlighted := first) else w;
    var filtered := highlighted.(
      visible := Hashes(MatchingEntries(w.options, q)),
      hidden := (w.hidden - MatchingSet(w.options, q)) + NonMatchingSet(w.options, q));
    var checked := CheckForValidValue(filtered);
    Step(checked.w, (if first.Some? then [OptionHighlighted] else []) + [VisibleOptionHashes] + checked.trace)
  }

  /** The two branches of a search under a new query `q`: an empty query
      shows every option and clears `hasValidValue`; any other runs the
      filter. */
  function ApplyQuery(w: State, q: string): (r: Step)
    requires w.selected.Some?
    ensures r.w.visible == Hashes(MatchingEntries(w.options, q))
    ensures |r.trace| >= 2 && r.trace[|r.trace| - 1] == HasValidValue
    ensures q == "" ==> r.w.highlighted == w.selected && !r.w.hasValidValue
    ensures q == "" ==> r.w.hidden == w.hidden - AllEntries(w.options)
    ensures q != "" ==> r == RunQuery(w, q)
    ensures r.w.(visible := w.visible, hidden := w.hidden, highlighted := w.highlighted,
                 hasValidValue := w.hasValidValue) == w
  {
    if q == "" then
      var shown := ShowAllOptions(w);
      EmptyQueryMatchesAll(w.options);
      Step(shown.w.(hasValidValue := false), shown.trace + [HasValidValue])
    else RunQuery(w, q)
  }

  /**
   * `searchCallback()`. The query is the search text trimmed and
   * lower-cased; a query equal to the previous one changes nothing.
   * Otherwise the query is recorded, and an empty query shows everything
   * and clears `hasValidValue`, while any other query runs the filter.
   * Both branches dereference the selection.
   */
  function SearchCallback(w: State): (r: Step)
    requires Normalize(w.searchText) != w.previousSearch ==> w.selected.Some?
    ensures var q := Normalize(w.searchText); q == w.previousSearch ==> r == Step(w, [])
    ensures var q := Normalize(w.searchText); q != w.previousSearch ==> r == NewQuery(w, q)
  {
    var q := Normalize(w.searchText);
    if q == w.previousSearch then Step(w, []) else NewQuery(w, q)
  }

  /** A search under a query that differs from the previous one: the query
      is recorded, then applied. */
  function NewQuery(w: State, q: string): (r: Step)
    requires w.selected.Some?
    ensures r.w.previousSearch == q
    ensures r.w.visible == Hashes(MatchingEntries(w.options, q))
    ensures |r.trace| >= 3 && r.trace[0] == PreviousSearch && r.trace[|r.trace| - 1] == HasValidValue
    ensures q == "" ==>
      && r.w.highlighted == w.selected
      && !r.w.hasValidValue
      && r.w.hidden == w.hidden - AllEntries(w.options)
    ensures q != "" ==>
      r == Step(RunQuery(w.(previousSearch := q), q).w, [PreviousSearch] + RunQuery(w.(previousSearch := q), q).trace)
    ensures r.w.(visible := w.visible, hidden := w.hidden, highlighted := w.highlighted,
                 previousSearch := w.previousSearch, hasValidValue := w.hasValidValue) == w
  {
    var recorded := w.(previousSearch := q);
    var applied := ApplyQuery(recorded, q);
    Step(applied.w, [PreviousSearch] + applied.trace)
  }

  /** What a search does to the hidden list items: under a new query, an
      indexed item is hidden exactly when it misses the query. */
  lemma SearchHidesMisses(w: State, e: Entry)
    requires Normalize(w.searchText) != w.previousSearch ==> w.selected.Some?
    requires e in w.options
    ensures var q := Normalize(w.searchText); q != w.previousSearch ==>
      (e in SearchCallback(w).w.hidden <==> !Contains(e.searchString, q))
  {
    var q := Normalize(w.searchText);
    if q != w.previousSearch {
      var r := NewQuery(w, q);
      if q == "" {
        assert e in AllEntries(w.options);
        assert r.w.hidden == w.hidden - AllEntries(w.options);
      } else {
        assert r.w.hidden == (w.hidden - MatchingSet(w.options, q)) + NonMatchingSet(w.options, q);
      }
    }
  }

  /** Appending one entry appends its hash. */
  lemma HashesSnoc(xs: seq<Entry>, e: Entry)
    ensures Hashes(xs + [e]) == Hashes(xs) + [e.hash]
  {
    assert (xs + [e])[..|xs|] == xs;
  }

  /** What the option loop has built so far: the visible hashes, the hidden
      list items and the highlighted first match. */
  datatype Scan = Scan(visible: seq<Hash>, hidden: set<Entry>, first: Option<Entry>)

  /**
   * The option loop after it has seen the entries `seen`, starting from the
   * hidden items `hidden0`: a match is unhidden, appended to the visible
   * list and highlighted if it is the first; a miss is hidden.
   */
  function ScanPrefix(seen: seq<Entry>, q: string, hidden0: set<Entry>): Scan
    decreases |seen|
  {
    if |seen| == 0 then Scan([], hidden0, None)
    else
      var before := ScanPrefix(seen[..|seen| - 1], q, hidden0);
      var e := seen[|seen| - 1];
      if Contains(e.searchString, q) then
        Scan(before.visible + [e.hash], before.hidden - {e},
             if before.first.None? then Some(e) else before.first)
      else
        Scan(before.visible, before.hidden + {e}, before.first)
  }

  /** The loop's visible list is the matching hashes of the entries seen, in order. */
  lemma {:induction false} ScanVisibleIsFilter(seen: seq<Entry>, q: string, hidden0: set<Entry>)
    ensures ScanPrefix(seen, q, hidden0).visible == Hashes(MatchingEntries(seen, q))
    decreases |seen|
  {
    if |seen| > 0 {
      var init := seen[..|seen| - 1];
      var e := seen[|seen| - 1];
      ScanVisibleIsFilter(init, q, hidden0);
      if Contains(e.searchString, q) {
        HashesSnoc(MatchingEntries(init, q), e);
      }
    }
  }

  /** The loop highlights the first match among the entries seen, if any. */
  lemma {:induction false} ScanFirstIsFilter(seen: seq<Entry>, q: string, hidden0: set<Entry>)
    ensures ScanPrefix(seen, q, hidden0).first == FirstMatch(seen, q)
    decreases |seen|
  {
    if |seen| > 0 {
      var init := seen[..|seen| - 1];
      var e := seen[|seen| - 1];
      ScanFirstIsFilter(init, q, hidden0);
      var m := MatchingEntries(init, q);
      if Contains(e.searchString, q) && |m| > 0 {
        assert (m + [e])[0] == m[0];
      }
    }
  }

  /** The loop unhides the matches and hides the misses among the entries
      seen, and leaves every other item as it was. */
  lemma {:induction false} ScanHiddenIsFilter(seen: seq<Entry>, q: string, hidden0: set<Entry>)
    ensures ScanPrefix(seen, q, hidden0).hidden
      == (hidden0 - MatchingSet(seen, q)) + NonMatchingSet(seen, q)
    decreases |seen|
  {
    if |seen| > 0 {
      var init := seen[..|seen| - 1];
      var e := seen[|seen| - 1];
      ScanHiddenIsFilter(init, q, hidden0);
      assert seen == init + [e];
      if Contains(e.searchString, q) {
        assert MatchingSet(seen, q) == MatchingSet(init, q) + {e};
        assert NonMatchingSet(seen, q) == NonMatchingSet(init, q);
      } else {
        assert MatchingSet(seen, q) == MatchingSet(init, q);
        assert NonMatchingSet(seen, q) == NonMatchingSet(init, q) + {e};
      }
    }
  }

  /**
   * The option loop of `searchCallback` (lines 437-458), statement by
   * statement: a match is unhidden, its hash appended to the visible list
   * and, if it is the first, highlighted; a miss is hidden.
   */
  method ScanOptions(options: seq<Entry>, q: string, hidden0: set<Entry>)
    returns (visible: seq<Hash>, hidden: set<Entry>, first: Option<Entry>)
    ensures visible == Hashes(MatchingEntries(options, q))
    ensures hidden == (hidden0 - MatchingSet(options, q)) + NonMatchingSet(options, q)
    ensures first == FirstMatch(options, q)
  {
    visible := [];
    hidden := hidden0;
    first := None;
    var isFirstMatch := true;
    var i := 0;
    while i < |options|
      invariant 0 <= i <= |options|
      invariant isFirstMatch <==> first.None?
      invariant Scan(visible, hidden, first) == ScanPrefix(options[..i], q, hidden0)
    {
      var e := options[i];
      assert options[..i + 1][..i] == options[..i];
      if Contains(e.searchString, q) {
        hidden := hidden - {e};
        visible := visible + [e.hash];
        if isFirstMatch {
          first := Some(e);
          isFirstMatch := false;
        }
      } else {
        hidden := hidden + {e};
      }
      i := i + 1;
    }
    assert options[..|options|] == options;
    ScanVisibleIsFilter(options, q, hidden0);
    ScanFirstIsFilter(options, q, hidden0);
    ScanHiddenIsFilter(options, q, hidden0);
  }

  /** Re-filtering the list items hidden by one query with another leaves
      exactly the second query's misses hidden. */
  lemma Refilter(options: seq<Entry>, p: string, q: string)
    ensures (NonMatchingSet(options, p) - MatchingSet(options, q)) + NonMatchingSet(options, q)
      == NonMatchingSet(options, q)
    ensures NonMatchingSet(options, p) - AllEntries(options) == NonMatchingSet(options, "")
  {
    assert NonMatchingSet(options, "") == {};
  }

  /** After a filter, an indexed option's hash is visible exactly when its
      list item is not hidden. */
  lemma VisibleIffNotHidden(w: State, e: Entry)
    requires FilterWf(w) && DistinctHashes(w.options) && e in w.options
    ensures e.hash in w.visible <==> e !in w.hidden
  {
    var m := MatchingEntries(w.options, w.previousSearch);
    if Contains(e.searchString, w.previousSearch) {
      MatchingComplete(w.options, w.previousSearch, e);
      var j :| 0 <= j < |m| && m[j] == e;
      assert Hashes(m)[j] == e.hash;
    }
  }

  /** Searching keeps a widget well formed. */
  lemma SearchKeepsWf(w: State)
    requires Wf(w)
    ensures Wf(SearchCallback(w).w)
  {
    var q := Normalize(w.searchText);
    if q != w.previousSearch {
      var r := SearchCallback(w).w;
      Refilter(w.options, w.previousSearch, q);
      if q == "" {
        EmptyQueryMatchesAll(w.options);
        assert r.hidden == NonMatchingSet(w.options, q);
      } else {
        assert r.hidden == NonMatchingSet(w.options, q);
      }
      assert FilterWf(r);
    }
  }

  /** Running the search again without editing the query does nothing. */
  lemma SearchIsIdempotent(w: State)
    requires Normalize(w.searchText) != w.previousSearch ==> w.selected.Some?
    ensures var r := SearchCallback(w); SearchCallback(r.w) == Step(r.w, [])
  {
  }
}
