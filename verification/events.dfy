/**
 * The event handlers wired up in `src/choosin.js`: the wrapper's keydown
 * handler (`keyboardHandler`, lines 576-606), the toggle button (lines
 * 296-300), clicks on the search box (479-485) and the label (759-764),
 * and clicks, hovers and focus on a list item (636-648).
 */
module Events {
  import opened Base
  import opened Text
  import opened OptionIndex
  import opened Widget
  import opened OpenClose
  import opened Selection
  import opened Navigation

  /** The keys the handler distinguishes. */
  datatype Key = Escape | ArrowUp | ArrowDown | Enter | OtherKey

  /** The handler can run without throwing. */
  predicate CanHandle(w: State, key: Key)
  {
    && (key == ArrowUp ==> CanNavigate(w, -1))
    && (key == ArrowDown ==> CanNavigate(w, 1))
  }

  /**
   * `keyboardHandler(event)`. Escape closes; the arrows move the highlight
   * whether or not the widget is open; Enter, only while open and with a
   * highlight, copies the highlight's label into the search box and
   * commits it; every other key does nothing.
   */
  function KeyboardHandler(w: State, key: Key): (r: Step)
    requires CanHandle(w, key)
    ensures key == Escape ==> !r.w.isOpen && r.w.selected == w.selected
    ensures key == ArrowUp || key == ArrowDown ==> r.w == w.(highlighted := r.w.highlighted)
    ensures key == Enter && w.isOpen && w.highlighted.Some? ==>
      && r.w.selected == w.highlighted
      && (w.highlighted.value.value != "" ==> !r.w.isOpen)
      && |r.trace| > 0 && r.trace[0] == OptionSelected
    ensures key == Enter && !(w.isOpen && w.highlighted.Some?) ==> r == Step(w, [])
    ensures key == OtherKey ==> r == Step(w, [])
  {
    match key
    case Escape => SetIsOpen(w, false, false)
    case ArrowUp => NavigateOptions(w, -1)
    case ArrowDown => NavigateOptions(w, 1)
    case Enter =>
      if w.isOpen && w.highlighted.Some? then
        var h := w.highlighted.value;
        SetOptionSelected(w.(searchText := Trim(h.labelText)), h)
      else Step(w, [])
    case OtherKey => Step(w, [])
  }

  /** Every key keeps a well-formed widget well formed. */
  lemma KeyboardKeepsWf(w: State, key: Key)
    requires Wf(w)
    ensures CanHandle(w, key) && Wf(KeyboardHandler(w, key).w)
  {
    NavigateKeepsWf(w, -1);
    NavigateKeepsWf(w, 1);
    match key
    case Escape => SetIsOpenKeepsWf(w, false, false);
    case Enter =>
      if w.isOpen && w.highlighted.Some? {
        var h := w.highlighted.value;
        SetOptionSelectedKeepsWf(w.(searchText := Trim(h.labelText)), h);
      }
    case _ =>
  }

  /**
   * Enter on an open, well-formed widget commits the highlighted option:
   * the widget closes and declares the option's value, which counts as
   * valid exactly when the native select reports it. The select does so
   * when the option did not carry the `selected` attribute yet or was
   * already the selected one; otherwise the commit is lost
   * (`Selection.CommitIsLost`).
   */
  lemma EnterCommitsHighlight(w: State)
    requires Wf(w) && w.isOpen && w.highlighted.Some?
    ensures CanHandle(w, Enter)
    ensures var h := w.highlighted.value;
      var r := KeyboardHandler(w, Enter).w;
      && r.selected == w.highlighted
      && !r.isOpen
      && r.declaredValue == h.value
      && (r.hasValidValue <==> NativeValue(r) == r.declaredValue)
      && (h.native !in w.native.attrs || w.native.selected == Some(h.native) ==>
            NativeValue(r) == r.declaredValue && r.hasValidValue)
  {
    var h := w.highlighted.value;
    var typed := EditSearchText(w, Trim(h.labelText));
    EnterTypesLabel(w);
    CommitTypedLabel(w, typed, h);
  }

  /** Enter on an open widget with a highlight is the commit of that
      highlight after its label has been typed into the search box. */
  lemma EnterTypesLabel(w: State)
    requires w.isOpen && w.highlighted.Some?
    ensures CanHandle(w, Enter)
    ensures KeyboardHandler(w, Enter)
      == SetOptionSelected(EditSearchText(w, Trim(w.highlighted.value.labelText)), w.highlighted.value)
  {
  }

  /** Committing an indexed option after writing its label into the search box. */
  lemma CommitTypedLabel(w: State, typed: State, h: Entry)
    requires Wf(w) && h in w.options
    requires typed == EditSearchText(w, Trim(h.labelText))
    ensures var r := SetOptionSelected(typed, h).w;
      && !r.isOpen
      && r.declaredValue == h.value
      && (r.hasValidValue <==> NativeValue(r) == h.value)
      && (h.native !in w.native.attrs || w.native.selected == Some(h.native) ==>
            NativeValue(r) == h.value && r.hasValidValue)
  {
    assert Wf(typed) && h in typed.options by {
      EditKeepsWf(w, Trim(h.labelText));
    }
    assert Trim(typed.searchText) == Trim(h.labelText) by {
      TrimIdempotent(h.labelText);
    }
    CommitIsValid(typed, h);
  }

  /** The toggle button: `isOpen := !isOpen`. */
  function ToggleClick(w: State, lowerHalf: bool): (r: Step)
    requires !w.isOpen ==> w.selected.Some?
    ensures r.w.isOpen == !w.isOpen
    ensures r.w.selected == w.selected && r.w.declaredValue == w.declaredValue
  {
    SetIsOpen(w, !w.isOpen, lowerHalf)
  }

  /** Two clicks on the toggle of a closed widget end closed, with no
      highlight and no direction. */
  lemma ToggleTwice(w: State, lowerHalf: bool, lowerHalfLater: bool)
    requires !w.isOpen && w.selected.Some?
    ensures var r := ToggleClick(ToggleClick(w, lowerHalf).w, lowerHalfLater).w;
      !r.isOpen && r.highlighted.None? && r.direction == NoDirection
  {
    OpenThenClose(w, lowerHalf, lowerHalfLater);
  }

  /** A click on the search box or on the label always opens. */
  function OpenClick(w: State, lowerHalf: bool): (r: Step)
    requires !w.isOpen ==> w.selected.Some?
    ensures r.w.isOpen
    ensures w.isOpen ==> r == Step(w, [IsOpen])
  {
    SetIsOpen(w, true, lowerHalf)
  }

  /** A click on a list item commits it. */
  function OptionClick(w: State, e: Entry): (r: Step)
    ensures r.w.selected == Some(e)
    ensures e.value != "" ==> !r.w.isOpen
  {
    SetOptionSelected(w, e)
  }

  /** Hovering or focusing a list item highlights it. */
  function OptionHover(w: State, e: Entry): (r: Step)
    ensures r.w.highlighted == Some(e)
    ensures r.w == w.(highlighted := Some(e))
  {
    SetHighlighted(w, Some(e))
  }

  /** Typing into the search box changes its text; the search itself runs
      later, debounced, as `Search.SearchCallback`. */
  function EditSearchText(w: State, text: string): (r: State)
    ensures r.searchText == text
    ensures r.(searchText := w.searchText) == w
  {
    w.(searchText := text)
  }

  /** Editing the search text keeps a widget well formed. */
  lemma EditKeepsWf(w: State, text: string)
    requires Wf(w)
    ensures Wf(EditSearchText(w, text))
  {
  }

  /** Every event on a list item of a well-formed widget keeps it well formed. */
  lemma OptionEventsKeepWf(w: State, e: Entry, text: string, lowerHalf: bool)
    requires Wf(w) && e in w.options
    ensures Wf(OptionClick(w, e).w)
    ensures Wf(OptionHover(w, e).w)
    ensures Wf(EditSearchText(w, text))
    ensures Wf(ToggleClick(w, lowerHalf).w)
    ensures Wf(OpenClick(w, lowerHalf).w)
  {
    SetOptionSelectedKeepsWf(w, e);
    SetIsOpenKeepsWf(w, !w.isOpen, lowerHalf);
    SetIsOpenKeepsWf(w, true, lowerHalf);
  }
}
