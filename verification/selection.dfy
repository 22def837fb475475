/**
 * Committing an option: `state.set('optionSelected', e)` together with its
 * subscriber `optionSelectedCallback` (`src/choosin.js` lines 202-228).
 */
module Selection {
  import opened Base
  import opened Text
  import opened OptionIndex
  import opened Widget
  import opened OpenClose
  import NativeSelect

  /**
   * `setAttribute('selected', '')` on the native option behind `e`, when the
   * index knows its hash. Under the HTML rule the option is selected only
   * when the attribute is newly added; an option already carrying it is left
   * as it is, and so is the select.
   */
  function MarkNative(w: State, e: Entry): (r: State)
    ensures Lookup(w.options, e.hash).Some? ==>
      r.native == NativeSelect.AddSelectedAttribute(w.native, Lookup(w.options, e.hash).value.native)
    ensures Lookup(w.options, e.hash).None? ==> r == w
    ensures r.(native := w.native) == w
  {
    match Lookup(w.options, e.hash)
    case Some(x) => w.(native := NativeSelect.AddSelectedAttribute(w.native, x.native))
    case None => w
  }

  /** The marking the widget evidently intends: the native option behind `e`
      becomes the selected one, whatever attributes it carries. */
  function MarkNativeIntended(w: State, e: Entry): (r: State)
    ensures Lookup(w.options, e.hash).Some? ==>
      r.native.selected == Some(Lookup(w.options, e.hash).value.native)
    ensures Lookup(w.options, e.hash).None? ==> r == w
    ensures r.(native := w.native) == w
  {
    match Lookup(w.options, e.hash)
    case Some(x) => w.(native := NativeSelect.MarkSelected(w.native, x.native))
    case None => w
  }

  /** The first half of the callback for a non-empty value: a newly chosen
      option becomes the declared value and fills the search box with its
      label; choosing the selected option again leaves both alone. */
  function Present(w: State, e: Entry): (r: State)
    ensures r.selected == Some(e)
    ensures Some(e) != w.selected ==> r.declaredValue == e.value && r.searchText == Trim(e.labelText)
    ensures Some(e) == w.selected ==> r.declaredValue == w.declaredValue && r.searchText == w.searchText
    ensures r.(selected := w.selected, declaredValue := w.declaredValue, searchText := w.searchText) == w
  {
    var stored := w.(selected := Some(e));
    if Some(e) != w.selected then stored.(declaredValue := e.value, searchText := Trim(e.labelText))
    else stored
  }

  /** The end of the callback once the option is presented and marked:
      the value is re-checked and the widget closed. */
  function CheckAndClose(m: State): (r: Step)
    requires m.selected.Some?
    ensures !r.w.isOpen
    ensures r.w.hasValidValue == ValidValue(m)
    ensures r.w.(isOpen := m.isOpen, highlighted := m.highlighted, direction := m.direction,
                 hasValidValue := m.hasValidValue) == m
    ensures !m.isOpen ==> r.w == m.(hasValidValue := ValidValue(m))
    ensures |r.trace| >= 2 && r.trace[0] == HasValidValue && r.trace[1] == IsOpen
  {
    var checked := CheckForValidValue(m);
    var closed := SetIsOpen(checked.w, false, false);
    Step(closed.w, checked.trace + closed.trace)
  }

  /**
   * `state.set('optionSelected', e)`. The selection is stored first. An
   * option with an empty value only clears `hasValidValue` and returns.
   * Otherwise the option is presented, the native option marked by adding
   * the `selected` attribute, the value re-checked, and the widget closed,
   * even when the same option was chosen again.
   */
  function SetOptionSelected(w: State, e: Entry): (r: Step)
    ensures r.w.selected == Some(e)
    ensures |r.trace| >= 2 && r.trace[0] == OptionSelected
    ensures e.value == "" ==>
      r == Step(w.(selected := Some(e), hasValidValue := false), [OptionSelected, HasValidValue])
    ensures e.value != "" ==> var m := MarkNative(Present(w, e), e);
      && !r.w.isOpen
      && r.w.hasValidValue == ValidValue(m)
      && r.w.(isOpen := m.isOpen, highlighted := m.highlighted, direction := m.direction,
              hasValidValue := m.hasValidValue) == m
      && |r.trace| >= 3 && r.trace[1] == HasValidValue && r.trace[2] == IsOpen
    ensures e.value != "" && !w.isOpen ==> var m := MarkNative(Present(w, e), e);
      r.w == m.(hasValidValue := ValidValue(m))
  {
    if e.value == "" then
      Step(w.(selected := Some(e), hasValidValue := false), [OptionSelected, HasValidValue])
    else
      var m := MarkNative(Present(w, e), e);
      var done := CheckAndClose(m);
      var trace := [OptionSelected] + done.trace;
      assert trace[1] == done.trace[0] && trace[2] == done.trace[1];
      Step(done.w, trace)
  }

  /** The commit as evidently intended: the same callback, with the native
      option selected outright instead of by adding its attribute. */
  function SetOptionSelectedIntended(w: State, e: Entry): (r: Step)
    ensures r.w.selected == Some(e)
    ensures e.value == "" ==> r == SetOptionSelected(w, e)
    ensures e.value != "" ==> var m := MarkNativeIntended(Present(w, e), e);
      && !r.w.isOpen
      && r.w.hasValidValue == ValidValue(m)
      && r.w.(isOpen := m.isOpen, highlighted := m.highlighted, direction := m.direction,
              hasValidValue := m.hasValidValue) == m
  {
    if e.value == "" then
      Step(w.(selected := Some(e), hasValidValue := false), [OptionSelected, HasValidValue])
    else
      var done := CheckAndClose(MarkNativeIntended(Present(w, e), e));
      Step(done.w, [OptionSelected] + done.trace)
  }

  /** Committing an indexed option keeps a widget well formed. */
  lemma SetOptionSelectedKeepsWf(w: State, e: Entry)
    requires Wf(w) && e in w.options
    ensures Wf(SetOptionSelected(w, e).w)
  {
    LookupFinds(w.options, e);
  }

  /** What presenting an indexed option does to the validity check: the
      declared value becomes the option's value and the trimmed search text
      matches its label, so only the native select is left to agree. */
  lemma PresentedIsDeclared(w: State, e: Entry)
    requires Wf(w) && e in w.options
    requires Some(e) == w.selected ==> Trim(w.searchText) == Trim(e.labelText)
    ensures Lookup(w.options, e.hash) == Some(e)
    ensures EntryFromChild(w.children, e)
    ensures var p := Present(w, e);
      && p.declaredValue == e.value
      && Trim(p.searchText) == Trim(e.labelText)
  {
    LookupFinds(w.options, e);
    assert EntryFromChild(w.children, e) by {
      var j :| 0 <= j < |w.options| && w.options[j] == e;
    }
    if Some(e) != w.selected {
      TrimIdempotent(e.labelText);
    }
  }

  /**
   * Committing an indexed option from a well-formed widget leaves it closed
   * and declaring that option's value. The value counts as valid exactly
   * when the native select reports it, and the native select does so when
   * the option did not carry the `selected` attribute yet or was already
   * the selected one. The exception is the same option chosen again after
   * the search text was edited away from its label.
   */
  lemma CommitIsValid(w: State, e: Entry)
    requires Wf(w) && e in w.options
    requires Some(e) == w.selected ==> Trim(w.searchText) == Trim(e.labelText)
    ensures var r := SetOptionSelected(w, e).w;
      && !r.isOpen
      && r.declaredValue == e.value
      && (r.hasValidValue <==> NativeValue(r) == e.value)
      && (e.native !in w.native.attrs || w.native.selected == Some(e.native) ==>
            NativeValue(r) == e.value && r.hasValidValue)
  {
    PresentedIsDeclared(w, e);
    var p := Present(w, e);
    var m := MarkNative(p, e);
    var r := SetOptionSelected(w, e).w;
    assert r.native == m.native == NativeSelect.AddSelectedAttribute(w.native, e.native);
    assert r.children == w.children && r.declaredValue == e.value;
    if e.native !in w.native.attrs || w.native.selected == Some(e.native) {
      NativeSelect.AddAgreesWithMarkOnFreshOptions(w.native, e.native);
      NativeSelect.MarkSelectedValue(w.children, w.native, e.native);
    }
  }

  /**
   * The lost commit: an indexed option that already carries the `selected`
   * attribute, committed while the native select reports another value,
   * leaves the native select as it was, so the widget declares one value,
   * the select reports another, and `hasValidValue` is false.
   */
  lemma CommitIsLost(w: State, e: Entry)
    requires Wf(w) && e in w.options
    requires e.native in w.native.attrs && NativeValue(w) != e.value
    ensures var r := SetOptionSelected(w, e).w;
      && r.native == w.native
      && r.declaredValue == e.value
      && NativeValue(r) != r.declaredValue
      && !r.hasValidValue
  {
    LookupFinds(w.options, e);
    if Some(e) == w.selected {
      assert EntryFromChild(w.children, e) by {
        var j :| 0 <= j < |w.options| && w.options[j] == e;
      }
    }
  }

  /**
   * Committing option `b`, which the page did not mark, and then the
   * preselected option `a` ends with the native select still on `b`: the
   * second commit is lost and the widget is left invalid.
   */
  lemma PreselectedRecommitIsLost(w: State, a: Entry, b: Entry)
    requires Wf(w) && a in w.options && b in w.options
    requires a.native in w.native.attrs && b.native !in w.native.attrs
    requires a.value != b.value
    requires Some(b) == w.selected ==> Trim(w.searchText) == Trim(b.labelText)
    ensures var r := SetOptionSelected(SetOptionSelected(w, b).w, a).w;
      && r.declaredValue == a.value
      && NativeValue(r) == b.value
      && !r.hasValidValue
  {
    var first := SetOptionSelected(w, b).w;
    CommitIsValid(w, b);
    SetOptionSelectedKeepsWf(w, b);
    assert a.native in first.native.attrs;
    CommitIsLost(first, a);
  }

  /** Under the intended marking, committing an indexed option always leaves
      the native select reporting its value, and the widget valid unless the
      selected option is chosen again after an edit. */
  lemma CommitIsValidIntended(w: State, e: Entry)
    requires Wf(w) && e in w.options
    requires Some(e) == w.selected ==> Trim(w.searchText) == Trim(e.labelText)
    ensures var r := SetOptionSelectedIntended(w, e).w;
      && !r.isOpen
      && r.declaredValue == e.value
      && NativeValue(r) == e.value
      && r.hasValidValue
  {
    PresentedIsDeclared(w, e);
    var m := MarkNativeIntended(Present(w, e), e);
    NativeSelect.MarkSelectedValue(w.children, Present(w, e).native, e.native);
    assert NativeValue(m) == e.value;
  }

  /** Choosing the selected option again after editing the search text
      closes the widget but leaves `hasValidValue` false. */
  lemma ReselectAfterEditIsInvalid(w: State)
    requires Wf(w)
    requires Trim(w.searchText) != Trim(w.selected.value.labelText)
    ensures var r := SetOptionSelected(w, w.selected.value).w;
      && !r.isOpen
      && r.searchText == w.searchText
      && !r.hasValidValue
  {
    assert EntryFromChild(w.children, w.selected.value) by {
      var j :| 0 <= j < |w.options| && w.options[j] == w.selected.value;
    }
  }
}
