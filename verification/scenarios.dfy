/**
 * Concrete runs of the widget on a small select, following the behaviour
 * the end-to-end suite in `cypress/e2e/spec.cy.js` checks: construction,
 * a search, and arrow-key navigation.
 */
module Scenarios {
  import opened Base
  import opened Text
  import opened OptionIndex
  import opened Widget
  import opened Search
  import opened Navigation
  import opened Construction
  import NativeSelect

  /** A placeholder with no value, a preselected option, two more options
      and a non-option child. "ch" is labelled "Switzerland": its label
      contains "sw" but its value does not. */
  function Countries(): seq<Child>
  {
    [ OptionElement("", "Choose a country", false),
      OptionElement("sweden", "Sweden", true),
      OptionElement("ch", "Switzerland", false),
      OptionElement("swaziland", "Eswatini", false),
      OtherElement ]
  }

  function CountryHashes(): seq<Hash>
  {
    [10, 11, 12, 13, 14]
  }

  function Sweden(): Entry { Entry(11, "sweden", "Sweden", "sweden", 1) }
  function Switzerland(): Entry { Entry(12, "ch", "Switzerland", "ch", 2) }
  function Eswatini(): Entry { Entry(13, "swaziland", "Eswatini", "swaziland", 3) }

  lemma CountriesCommitSweden()
    ensures LastCommitted(Countries(), 5) == Some(1)
    ensures NativeSelect.LastPreselected(Countries(), 5) == Some(1)
  {
    var c := Countries();
    assert LastCommitted(c, 2) == Some(1);
    assert LastCommitted(c, 5) == LastCommitted(c, 2);
    assert NativeSelect.LastPreselected(c, 2) == Some(1);
    assert NativeSelect.LastPreselected(c, 5) == NativeSelect.LastPreselected(c, 2);
  }

  lemma SwedenEntry(c: seq<Child>)
    requires c == Countries()
    ensures MakeEntry(c[1], 11, 1) == Sweden()
  {
    TrimUntouched("Sweden");
    LowerUntouched("sweden");
  }

  lemma SwitzerlandEntry(c: seq<Child>)
    requires c == Countries()
    ensures MakeEntry(c[2], 12, 2) == Switzerland()
  {
    TrimUntouched("Switzerland");
    LowerUntouched("ch");
  }

  lemma EswatiniEntry(c: seq<Child>)
    requires c == Countries()
    ensures MakeEntry(c[3], 13, 3) == Eswatini()
  {
    TrimUntouched("Eswatini");
    LowerUntouched("swaziland");
  }

  /** A select shaped like the countries one: the first and last children
      are skipped and the three in between are indexed, in order. */
  lemma {:induction false} MiddleThreeIndexed(c: seq<Child>, h: seq<Hash>)
    requires |c| == 5 && |h| == 5
    requires !Indexable(c[0]) && Indexable(c[1]) && Indexable(c[2]) && Indexable(c[3]) && !Indexable(c[4])
    ensures ProcessSelectChildren(c, h)
      == [MakeEntry(c[1], h[1], 1), MakeEntry(c[2], h[2], 2), MakeEntry(c[3], h[3], 3)]
  {
    assert BuildIndex(c, h, 1) == [];
    assert BuildIndex(c, h, 2) == [MakeEntry(c[1], h[1], 1)];
    assert BuildIndex(c, h, 3) == [MakeEntry(c[1], h[1], 1), MakeEntry(c[2], h[2], 2)];
    assert BuildIndex(c, h, 4)
      == [MakeEntry(c[1], h[1], 1), MakeEntry(c[2], h[2], 2), MakeEntry(c[3], h[3], 3)];
  }

  /** The index: the placeholder and the non-option child are skipped. */
  lemma CountriesIndex(c: seq<Child>, h: seq<Hash>)
    requires c == Countries() && h == CountryHashes()
    ensures ProcessSelectChildren(c, h) == [Sweden(), Switzerland(), Eswatini()]
  {
    assert !Indexable(c[0]) && Indexable(c[1]) && Indexable(c[2]) && Indexable(c[3]) && !Indexable(c[4]);
    MiddleThreeIndexed(c, h);
    SwedenEntry(c);
    SwitzerlandEntry(c);
    EswatiniEntry(c);
  }

  /** The select passes every check and has an option to commit. */
  lemma CountriesBuilt(c: seq<Child>, h: seq<Hash>)
    requires c == Countries() && h == CountryHashes()
    ensures CreateChoosinFromSelect(SelectElement("country", false, c), true, h).Created?
  {
    CountriesCommitSweden();
  }

  /** The placeholder and the non-option child are not indexed. */
  lemma BuiltOptions(c: seq<Child>, h: seq<Hash>, w: State)
    requires c == Countries() && h == CountryHashes()
    requires CreateChoosinFromSelect(SelectElement("country", false, c), true, h) == Created(w)
    ensures w.options == [Sweden(), Switzerland(), Eswatini()]
  {
    CountriesIndex(c, h);
  }

  /** The preselected option is selected and its label fills the search box. */
  lemma BuiltSelection(c: seq<Child>, h: seq<Hash>, w: State)
    requires c == Countries() && h == CountryHashes()
    requires CreateChoosinFromSelect(SelectElement("country", false, c), true, h) == Created(w)
    ensures w.selected == Some(Sweden()) && w.searchText == "Sweden"
  {
    CountriesCommitSweden();
    SwedenEntry(c);
    TrimUntouched("Sweden");
  }

  /** The native select shows the committed value, so the value is valid. */
  lemma BuiltValid(c: seq<Child>, h: seq<Hash>, w: State)
    requires c == Countries() && h == CountryHashes()
    requires CreateChoosinFromSelect(SelectElement("country", false, c), true, h) == Created(w)
    ensures w.hasValidValue
  {
    CountriesCommitSweden();
  }

  /** The built widget: the placeholder and the non-option child are not
      indexed, the preselected option is selected, and the value is valid. */
  lemma BuildCountries(c: seq<Child>, h: seq<Hash>)
    requires c == Countries() && h == CountryHashes()
    ensures var r := CreateChoosinFromSelect(SelectElement("country", false, c), true, h);
      && r.Created?
      && r.w.options == [Sweden(), Switzerland(), Eswatini()]
      && r.w.visible == [11, 12, 13]
      && r.w.selected == Some(Sweden())
      && r.w.searchText == "Sweden"
      && r.w.hasValidValue
  {
    CountriesBuilt(c, h);
    var w := CreateChoosinFromSelect(SelectElement("country", false, c), true, h).w;
    BuiltOptions(c, h, w);
    BuiltSelection(c, h, w);
    BuiltValid(c, h, w);
    BuiltVisible(w);
  }

  /** Every country is visible after construction. */
  lemma BuiltVisible(w: State)
    requires w.options == [Sweden(), Switzerland(), Eswatini()] && w.visible == Hashes(w.options)
    ensures w.visible == [11, 12, 13]
  {
  }

  /** The query typed in the search scenario. */
  lemma QuerySw()
    ensures Normalize("SW") == "sw"
    ensures Contains("sweden", "sw") && Contains("swaziland", "sw") && !Contains("ch", "sw")
  {
    TrimUntouched("SW");
    assert Lower("SW") == "sw";
    assert StartsWith("sweden", "sw") && StartsWith("swaziland", "sw");
    assert !StartsWith("ch", "sw") && !StartsWith("h", "sw");
    assert !Contains("", "sw");
    assert "ch"[1..] == "h" && "h"[1..] == "";
  }

  /** Filtering the three countries by "sw" keeps the two whose value, not
      label, contains it. */
  lemma FilterSw(options: seq<Entry>)
    requires options == [Sweden(), Switzerland(), Eswatini()]
    ensures MatchingEntries(options, "sw") == [Sweden(), Eswatini()]
    ensures NonMatchingSet(options, "sw") == {Switzerland()}
    ensures MatchingSet(options, "sw") == {Sweden(), Eswatini()}
  {
    QuerySw();
    assert options[..2][..1] == [Sweden()];
    assert options[..1][..0] == [];
    assert MatchingEntries(options[..1], "sw") == [Sweden()];
    assert MatchingEntries(options[..2], "sw") == [Sweden()];
  }

  /** Under "sw" the visible list names Sweden and Eswatini, in order. */
  lemma SwVisible(w: State)
    requires w.options == [Sweden(), Switzerland(), Eswatini()] && w.selected == Some(Sweden())
    requires w.hidden == {} && w.searchText == "SW"
    ensures RunQuery(w, "sw").w.visible == [11, 13]
  {
    FilterSw(w.options);
    assert Hashes([Sweden(), Eswatini()]) == [11, 13];
  }

  /** Under "sw" only Switzerland is hidden. */
  lemma SwHidden(w: State)
    requires w.options == [Sweden(), Switzerland(), Eswatini()] && w.selected == Some(Sweden())
    requires w.hidden == {} && w.searchText == "SW"
    ensures RunQuery(w, "sw").w.hidden == {Switzerland()}
  {
    FilterSw(w.options);
  }

  /** Under "sw" the first match, Sweden, is highlighted. */
  lemma SwHighlighted(w: State)
    requires w.options == [Sweden(), Switzerland(), Eswatini()] && w.selected == Some(Sweden())
    requires w.hidden == {} && w.searchText == "SW"
    ensures RunQuery(w, "sw").w.highlighted == Some(Sweden())
  {
    FilterSw(w.options);
  }

  /** The search text "SW" is not the selected label, so the value is not valid. */
  lemma SwInvalid(w: State)
    requires w.options == [Sweden(), Switzerland(), Eswatini()] && w.selected == Some(Sweden())
    requires w.hidden == {} && w.searchText == "SW"
    ensures !RunQuery(w, "sw").w.hasValidValue
  {
    TrimUntouched("Sweden");
    TrimUntouched("SW");
  }

  /**
   * Typing "SW" into the widget as built above and running the search: two
   * options stay visible, Switzerland is hidden although its label contains
   * "sw", the first match is highlighted, and the edited text makes the
   * value invalid.
   */
  lemma SearchCountries(w: State)
    requires w.options == [Sweden(), Switzerland(), Eswatini()] && w.selected == Some(Sweden())
    requires w.hidden == {} && w.previousSearch == ""
    ensures var r := SearchCallback(w.(searchText := "SW")).w;
      && r.visible == [11, 13]
      && r.hidden == {Switzerland()}
      && r.highlighted == Some(Sweden())
      && !r.hasValidValue
  {
    var typed := w.(searchText := "SW");
    var recorded := typed.(previousSearch := "sw");
    QuerySw();
    SwVisible(recorded);
    SwHidden(recorded);
    SwHighlighted(recorded);
    SwInvalid(recorded);
  }

  /**
   * Arrow-down after the "sw" search: the highlight moves from Sweden to
   * Eswatini, the next visible option, and a second press stays there.
   */
  lemma ArrowDownCountries(w: State)
    requires w.options == [Sweden(), Switzerland(), Eswatini()]
    requires w.visible == [11, 13] && w.highlighted == Some(Sweden())
    ensures CanNavigate(w, 1)
    ensures var r := NavigateOptions(w, 1).w;
      && r.highlighted == Some(Eswatini())
      && CanNavigate(r, 1)
      && NavigateOptions(r, 1).w.highlighted == Some(Eswatini())
  {
    assert HighlightIndex(w) == 0;
    assert Lookup(w.options, 13) == Some(Eswatini());
    var r := NavigateOptions(w, 1).w;
    assert HighlightIndex(r) == 1 by {
      assert r.visible[0] != 13;
    }
  }

  /** Only the placeholder is written `selected`: it has no value, so nothing
      is committed and filling the search box throws. */
  lemma PlaceholderOnlyFails(c: seq<Child>, h: seq<Hash>)
    requires c == [OptionElement("", "Choose", true), OptionElement("a", "A", false)]
    requires h == [1, 2]
    ensures CreateChoosinFromSelect(SelectElement("s", false, c), true, h) == Failed(NoIndexedSelection)
  {
    assert FirstPreselected(c, 2) == Some(0) by {
      assert FirstPreselected(c, 1) == Some(0);
    }
    assert LastCommitted(c, 2) == None by {
      assert !Committed(c, 0) && !Committed(c, 1);
    }
  }

  /** A placeholder written `selected` after a real option: the option is
      committed, but the native select shows the placeholder, so the value
      starts out invalid. */
  lemma TrailingPlaceholderIsInvalid(c: seq<Child>, h: seq<Hash>)
    requires c == [OptionElement("a", "A", true), OptionElement("", "Choose", true)]
    requires h == [1, 2]
    ensures var r := CreateChoosinFromSelect(SelectElement("s", false, c), true, h);
      && r.Created?
      && r.w.declaredValue == "a"
      && NativeValue(r.w) == ""
      && !r.w.hasValidValue
  {
    assert LastCommitted(c, 2) == Some(0) by {
      assert Committed(c, 0) && !Committed(c, 1);
    }
    assert NativeSelect.LastPreselected(c, 2) == Some(1);
  }
}
