/**
 * The state of one `Choosin` widget (`src/choosin.js`) with the DOM taken
 * away: the option index, the store fields the widget keeps in its
 * `simpleState`, and the three pieces of page state the widget reads back
 * (the search box text, its own declared value and the native select).
 *
 * Every transition returns the new state together with the store fields
 * it set, in order; a field whose subscriber changes state has that
 * subscriber's effect folded into the transition, exactly where the
 * synchronous `set` would run it.
 */
module Widget {
  import opened Base
  import opened Text
  import opened OptionIndex
  import NativeSelect

  /** `dropdownDirection`: 'none', 'up' or 'down'. */
  datatype Direction = NoDirection | Up | Down

  /** The store keys the widget sets after construction. */
  datatype Field =
    | OptionSelected
    | OptionHighlighted
    | IsOpen
    | DropdownDirection
    | PreviousSearch
    | VisibleOptionHashes
    | HasValidValue

  /**
   * The widget. `options` is `optionsMap` and `optionHashesInOrder`
   * together; `hidden` holds the entries whose list item is hidden;
   * `searchText` is the search box's value and `declaredValue` the
   * wrapper's `data-value`.
   */
  datatype State = State(
    children: seq<Child>,
    native: NativeSelect.Select,
    options: seq<Entry>,
    visible: seq<Hash>,
    hidden: set<Entry>,
    selected: Option<Entry>,
    highlighted: Option<Entry>,
    isOpen: bool,
    direction: Direction,
    previousSearch: string,
    hasValidValue: bool,
    searchText: string,
    declaredValue: string)

  /** A transition's result: the new state and the store fields set on the way. */
  datatype Step = Step(w: State, trace: seq<Field>)

  /** `$select.value`. */
  function NativeValue(w: State): string
  {
    NativeSelect.Value(w.children, w.native)
  }

  /**
   * The verdict `checkForValidValue` reaches, following its chain of
   * checks: each failed check forces the verdict to false, and only the
   * last one can turn an untouched verdict into true. The selection is
   * dereferenced unconditionally, so a missing one throws.
   */
  function ValidValue(w: State): (valid: bool)
    requires w.selected.Some?
    ensures valid <==>
      && w.declaredValue != ""
      && w.declaredValue == w.selected.value.value
      && Trim(w.searchText) == Trim(w.selected.value.labelText)
      && NativeValue(w) == w.declaredValue
  {
    var sel := w.selected.value;
    var verdict: Option<bool> := None;
    var verdict := if w.declaredValue == "" then Some(false) else verdict;
    var verdict := if w.declaredValue != sel.value then Some(false) else verdict;
    var verdict := if Trim(w.searchText) != Trim(sel.labelText) then Some(false) else verdict;
    var verdict := if NativeValue(w) != w.declaredValue then Some(false)
                   else if verdict.None? then Some(true) else verdict;
    verdict.Some? && verdict.value
  }

  /** `checkForValidValue()`: stores the verdict in `hasValidValue`. */
  function CheckForValidValue(w: State): (r: Step)
    requires w.selected.Some?
    ensures r.trace == [HasValidValue]
    ensures r.w == w.(hasValidValue := ValidValue(w))
  {
    Step(w.(hasValidValue := ValidValue(w)), [HasValidValue])
  }

  /** `state.set('optionHighlighted', h)`; its subscriber only moves a CSS class. */
  function SetHighlighted(w: State, h: Option<Entry>): Step
  {
    Step(w.(highlighted := h), [OptionHighlighted])
  }

  /** `e` is the entry of an indexable option child of the select. */
  predicate EntryFromChild(children: seq<Child>, e: Entry)
  {
    && e.native < |children|
    && children[e.native].OptionElement?
    && children[e.native].value == e.value
    && e.value != ""
  }

  /** The index describes the select's children and hands out each hash once. */
  predicate IndexWf(children: seq<Child>, options: seq<Entry>)
  {
    && DistinctHashes(options)
    && forall j :: 0 <= j < |options| ==> EntryFromChild(children, options[j])
  }

  /** The filter fields agree with the last search. */
  predicate FilterWf(w: State)
  {
    && w.visible == Hashes(MatchingEntries(w.options, w.previousSearch))
    && w.hidden == NonMatchingSet(w.options, w.previousSearch)
  }

  /**
   * What holds of every constructed widget between events: the index is
   * sound, the visible list is the filter of the last search, the selection
   * is an indexed option whose value the wrapper declares, the highlight
   * (if any) is indexed, the direction is set exactly while open, and the
   * native select has an option selected.
   */
  predicate Wf(w: State)
  {
    && IndexWf(w.children, w.options)
    && FilterWf(w)
    && w.selected.Some? && w.selected.value in w.options
    && (w.highlighted.Some? ==> w.highlighted.value in w.options)
    && w.declaredValue == w.selected.value.value
    && (w.isOpen <==> w.direction != NoDirection)
    && w.native.selected.Some?
    && w.native.selected.value < |w.children|
    && w.children[w.native.selected.value].OptionElement?
  }
}
