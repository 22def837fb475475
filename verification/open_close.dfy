/**
 * Opening and closing: `state.set('isOpen', v)` together with its
 * subscriber `isOpenCallback` (`src/choosin.js` lines 111-195).
 */
module OpenClose {
  import opened Base
  import opened Text
  import opened OptionIndex
  import opened Widget
  import opened Search

  /** The direction `setDropdownHeightAndDirection` picks: up when the widget
      sits in the lower half of the viewport. */
  function DirectionFor(lowerHalf: bool): (d: Direction)
    ensures d != NoDirection
  {
    if lowerHalf then Up else Down
  }

  /** `_open()`: pick a direction, re-run the search, then highlight the
      selection (the callback throws when there is none). */
  function Open(w: State, lowerHalf: bool): (r: Step)
    requires w.selected.Some?
    ensures r.w.isOpen && r.w.direction == DirectionFor(lowerHalf)
    ensures r.w.highlighted == w.selected
    ensures r.w.previousSearch == Normalize(w.searchText)
    ensures r.w.(isOpen := w.isOpen, direction := w.direction, highlighted := w.highlighted,
                 visible := w.visible, hidden := w.hidden, previousSearch := w.previousSearch,
                 hasValidValue := w.hasValidValue) == w
    ensures |r.trace| >= 2 && r.trace[0] == DropdownDirection && r.trace[|r.trace| - 1] == OptionHighlighted
  {
    var directed := w.(isOpen := true, direction := DirectionFor(lowerHalf));
    var searched := SearchCallback(directed);
    var highlighted := SetHighlighted(searched.w, w.selected);
    Step(highlighted.w, [DropdownDirection] + searched.trace + highlighted.trace)
  }

  /** `_close()`: drop the highlight and the direction. */
  function Close(w: State): (r: Step)
    ensures !r.w.isOpen && r.w.highlighted.None? && r.w.direction == NoDirection
    ensures r.w.(isOpen := w.isOpen, highlighted := w.highlighted, direction := w.direction) == w
    ensures r.trace == [OptionHighlighted, DropdownDirection]
  {
    var unhighlighted := SetHighlighted(w.(isOpen := false), None);
    Step(unhighlighted.w.(direction := NoDirection), unhighlighted.trace + [DropdownDirection])
  }

  /**
   * `state.set('isOpen', open)`: the value is stored, then the subscriber
   * runs. Setting the current value changes nothing else; otherwise the
   * widget opens or closes. `lowerHalf` is the viewport measurement the
   * direction is decided from.
   */
  function SetIsOpen(w: State, open: bool, lowerHalf: bool): (r: Step)
    requires open && !w.isOpen ==> w.selected.Some?
    ensures r.w.isOpen == open
    ensures open == w.isOpen ==> r == Step(w, [IsOpen])
    ensures open && !w.isOpen ==> r == Step(Open(w, lowerHalf).w, [IsOpen] + Open(w, lowerHalf).trace)
    ensures !open && w.isOpen ==> r == Step(Close(w).w, [IsOpen] + Close(w).trace)
    ensures && r.w.selected == w.selected && r.w.declaredValue == w.declaredValue
            && r.w.searchText == w.searchText && r.w.native == w.native
            && r.w.options == w.options && r.w.children == w.children
  {
    if open == w.isOpen then Step(w, [IsOpen])
    else if open then
      var opening := Open(w, lowerHalf);
      Step(opening.w, [IsOpen] + opening.trace)
    else
      var closing := Close(w);
      Step(closing.w, [IsOpen] + closing.trace)
  }

  /** A well-formed widget opens onto the filter of its current search text. */
  lemma OpenShowsCurrentFilter(w: State, lowerHalf: bool)
    requires Wf(w) && !w.isOpen
    ensures var shown := SetIsOpen(w, true, lowerHalf).w;
      && shown.visible == Hashes(MatchingEntries(w.options, Normalize(w.searchText)))
      && shown.hidden == NonMatchingSet(w.options, Normalize(w.searchText))
  {
    var directed := w.(isOpen := true, direction := DirectionFor(lowerHalf));
    SearchKeepsWf(directed);
  }

  /** Opening or closing keeps a widget well formed. */
  lemma SetIsOpenKeepsWf(w: State, open: bool, lowerHalf: bool)
    requires Wf(w)
    ensures Wf(SetIsOpen(w, open, lowerHalf).w)
  {
    if open && !w.isOpen {
      var directed := w.(isOpen := true, direction := DirectionFor(lowerHalf));
      SearchKeepsWf(directed);
      assert Wf(Open(w, lowerHalf).w);
    }
  }

  /** Open then close always ends closed, with no highlight and no direction,
      and with the selection and value untouched. */
  lemma OpenThenClose(w: State, lowerHalf: bool, lowerHalfLater: bool)
    requires !w.isOpen && w.selected.Some?
    ensures var closed := SetIsOpen(SetIsOpen(w, true, lowerHalf).w, false, lowerHalfLater).w;
      && !closed.isOpen
      && closed.highlighted.None?
      && closed.direction == NoDirection
      && closed.selected == w.selected
      && closed.declaredValue == w.declaredValue
  {
  }

  /**
   * Opening highlights the selection even when the current query hides it:
   * in a well-formed widget whose search text does not match the selected
   * option, the option highlighted after opening is a hidden one.
   */
  lemma OpenMayHighlightHiddenOption(w: State, lowerHalf: bool)
    requires Wf(w) && !w.isOpen
    requires !Contains(w.selected.value.searchString, Normalize(w.searchText))
    ensures var shown := SetIsOpen(w, true, lowerHalf).w;
      && shown.highlighted == w.selected
      && shown.highlighted.value in shown.hidden
  {
    var directed := w.(isOpen := true, direction := DirectionFor(lowerHalf));
    SearchKeepsWf(directed);
  }
}
