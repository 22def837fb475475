/**
 * Building a widget from a native `<select>`: `createChoosinFromSelect` in
 * `src/choosin.js` (lines 703-872), with `processSelectChildren` and
 * `processOption` (lines 613-696) and the part of `setupSearch` that fills
 * the search box and the visible list (lines 469-511).
 *
 * Each preselected option is committed while its list item is being made,
 * before the index is stored, so those commits cannot find the native
 * option by hash and leave the native select as the page parsed it.
 */
module Construction {
  import opened Base
  import opened Text
  import opened OptionIndex
  import opened Widget
  import opened Selection
  import NativeSelect

  /** The select handed to the constructor: its `id`, whether it already
      carries the `choosin--hide` class, and its children. */
  datatype SelectElement = SelectElement(id: string, processed: bool, children: seq<Child>)

  /** Why no widget was made. The first three are logged early returns and
      the last two exceptions thrown by dereferencing `null`; either way
      the constructor then has no widget and throws when it reads the
      missing widget's `dataset` (`src/choosin.js` line 56). */
  datatype Failure =
    | AlreadyProcessed
    | MissingId
    | MissingLabel
    | NoPreselectedOption
    | NoIndexedSelection

  datatype Creation = Created(w: State) | Failed(why: Failure)

  /** `querySelector('option[selected]')`: the first preselected option among
      the first `n` children. */
  function FirstPreselected(children: seq<Child>, n: nat): (r: Option<nat>)
    requires n <= |children|
    ensures r.Some? ==> r.value < n && NativeSelect.Preselected(children, r.value)
    ensures r.Some? ==> forall j :: 0 <= j < r.value ==> !NativeSelect.Preselected(children, j)
    ensures r.None? ==> forall j :: 0 <= j < n ==> !NativeSelect.Preselected(children, j)
  {
    if n == 0 then None
    else
      var before := FirstPreselected(children, n - 1);
      if before.Some? then before
      else if NativeSelect.Preselected(children, n - 1) then Some(n - 1)
      else None
  }

  /** Child `i` is committed by `processOption`: a preselected option that
      is indexed, so it has a list item to commit. */
  predicate Committed(children: seq<Child>, i: nat)
  {
    i < |children| && Indexable(children[i]) && children[i].preselected
  }

  /** The last child among the first `n` that `processOption` commits. */
  function LastCommitted(children: seq<Child>, n: nat): (r: Option<nat>)
    requires n <= |children|
    ensures r.Some? ==> r.value < n && Committed(children, r.value)
    ensures r.Some? ==> forall j :: r.value < j < n ==> !Committed(children, j)
    ensures r.None? ==> forall j :: 0 <= j < n ==> !Committed(children, j)
  {
    if n == 0 then None
    else if Committed(children, n - 1) then Some(n - 1)
    else LastCommitted(children, n - 1)
  }

  /** The widget as the default state leaves it, with the wrapper declaring
      `declared` and the native select as parsed. */
  function Blank(children: seq<Child>, declared: string): State
  {
    State(children, NativeSelect.FromChildren(children), [], [], {}, None, None,
          false, NoDirection, "", false, "", declared)
  }

  /** The widget once child `p` is the last option committed: `p` selected
      and declared, its label in the search box, and `hasValidValue` saying
      whether the native select, as parsed, shows the same value. */
  function AfterCommit(children: seq<Child>, hashes: seq<Hash>, declared: string, p: nat): State
    requires |hashes| == |children| && p < |children| && children[p].OptionElement?
  {
    Blank(children, declared).(
      selected := Some(MakeEntry(children[p], hashes[p], p)),
      declaredValue := children[p].value,
      searchText := Trim(children[p].text),
      hasValidValue := NativeSelect.Value(children, NativeSelect.FromChildren(children)) == children[p].value)
  }

  /** `AfterCommit` differs from `Blank` only in the fields a commit sets,
      and the selection it holds is child `p`. */
  lemma AfterCommitIsBlankBut(children: seq<Child>, hashes: seq<Hash>, declared: string, p: nat)
    requires |hashes| == |children| && p < |children| && children[p].OptionElement?
    ensures var w := AfterCommit(children, hashes, declared, p);
      && w.(selected := None, declaredValue := declared, searchText := "", hasValidValue := false)
           == Blank(children, declared)
      && w.selected == Some(MakeEntry(children[p], hashes[p], p))
  {
  }

  /** `w` is what the first `n` children leave: the widget after the last
      committed one, or the blank widget when none was committed. */
  predicate Processed(children: seq<Child>, hashes: seq<Hash>, declared: string, n: nat, w: State)
    requires |hashes| == |children| && n <= |children|
  {
    match LastCommitted(children, n)
    case None => w == Blank(children, declared)
    case Some(p) => w == AfterCommit(children, hashes, declared, p)
  }

  /**
   * The commits `processOption` makes for the first `n` children, starting
   * from `Blank`: only the last committed option leaves a trace, as
   * `AfterCommit` describes, and with none committed the widget stays blank.
   */
  function ProcessOptions(children: seq<Child>, hashes: seq<Hash>, declared: string, n: nat): (w: State)
    requires |hashes| == |children| && n <= |children|
    ensures Processed(children, hashes, declared, n, w)
    decreases n
  {
    if n == 0 then Blank(children, declared)
    else ProcessOption(children, hashes, declared, ProcessOptions(children, hashes, declared, n - 1), n - 1)
  }

  /** `processOption` for child `p`, on the widget the earlier children
      left: it commits the child when it is a preselected option with a
      value, and otherwise leaves the widget alone. */
  function ProcessOption(children: seq<Child>, hashes: seq<Hash>, declared: string, w: State, p: nat): (r: State)
    requires |hashes| == |children| && p < |children|
    requires Processed(children, hashes, declared, p, w)
    ensures Processed(children, hashes, declared, p + 1, r)
  {
    if Committed(children, p) then
      var last := LastCommitted(children, p);
      assert w.(selected := None, declaredValue := declared, searchText := "", hasValidValue := false)
        == Blank(children, declared) && (w.selected.Some? ==> w.selected.value.native < p) by {
        if last.Some? {
          AfterCommitIsBlankBut(children, hashes, declared, last.value);
        }
      }
      CommitNext(children, hashes, declared, w, p)
    else
      w
  }

  /** `processOption` committing child `p` onto a widget that differs from
      `Blank` only in what earlier children committed gives `AfterCommit`
      for `p`: each commit overwrites everything the previous one set. */
  function CommitNext(children: seq<Child>, hashes: seq<Hash>, declared: string, w: State, p: nat): (r: State)
    requires |hashes| == |children| && p < |children| && Committed(children, p)
    requires w.(selected := None, declaredValue := declared, searchText := "", hasValidValue := false)
      == Blank(children, declared)
    requires w.selected.Some? ==> w.selected.value.native < p
    ensures r == AfterCommit(children, hashes, declared, p)
  {
    var e := MakeEntry(children[p], hashes[p], p);
    TrimIdempotent(children[p].text);
    assert w.children == children && w.native == NativeSelect.FromChildren(children);
    CommitBeforeIndexing(w, e)
  }

  /** `state.set('optionSelected', e)` while the index is still empty and
      the widget closed: the option is selected, declared and shown in the
      search box, and the value counts as valid exactly when the native
      select already shows it. */
  function CommitBeforeIndexing(w: State, e: Entry): (r: State)
    requires w.options == [] && !w.isOpen
    requires e.value != "" && Some(e) != w.selected
    ensures r == w.(selected := Some(e), declaredValue := e.value, searchText := Trim(e.labelText),
                    hasValidValue := NativeValue(w) == e.value)
  {
    var presented := Present(w, e);
    assert presented == w.(selected := Some(e), declaredValue := e.value, searchText := Trim(e.labelText));
    assert Lookup(presented.options, e.hash).None?;
    var m := MarkNative(presented, e);
    assert m == presented;
    assert ValidValue(m) == (NativeValue(w) == e.value) by {
      TrimIdempotent(e.labelText);
    }
    SetOptionSelected(w, e).w
  }

  /**
   * `createChoosinFromSelect($select)`, with `hasLabel` saying whether a
   * label points at the select and `hashes[i]` the fresh hash handed to
   * child `i`. After the checks, the wrapper declares the first
   * preselected option's value, the options are processed and indexed, and
   * the search box shows the committed option's label with every option
   * visible.
   */
  function CreateChoosinFromSelect(select: SelectElement, hasLabel: bool, hashes: seq<Hash>): (r: Creation)
    requires |hashes| == |select.children|
    ensures select.processed ==> r == Failed(AlreadyProcessed)
    ensures !select.processed && select.id == "" ==> r == Failed(MissingId)
    ensures !select.processed && select.id != "" && !hasLabel ==> r == Failed(MissingLabel)
    ensures r.Created? <==>
      && !select.processed && select.id != "" && hasLabel
      && LastCommitted(select.children, |select.children|).Some?
    ensures !select.processed && select.id != "" && hasLabel ==>
      && (FirstPreselected(select.children, |select.children|).None? ==> r == Failed(NoPreselectedOption))
      && (&& FirstPreselected(select.children, |select.children|).Some?
          && LastCommitted(select.children, |select.children|).None?
          ==> r == Failed(NoIndexedSelection))
    ensures r.Created? ==>
      var children := select.children;
      var p := LastCommitted(children, |children|).value;
      && r.w.children == children
      && r.w.native == NativeSelect.FromChildren(children)
      && r.w.options == ProcessSelectChildren(children, hashes)
      && r.w.visible == Hashes(r.w.options)
      && r.w.hidden == {}
      && r.w.selected == Some(MakeEntry(children[p], hashes[p], p))
      && r.w.highlighted.None?
      && !r.w.isOpen && r.w.direction == NoDirection
      && r.w.previousSearch == ""
      && r.w.declaredValue == children[p].value
      && r.w.searchText == Trim(children[p].text)
      && (r.w.hasValidValue <==> NativeValue(r.w) == r.w.declaredValue)
  {
    var children := select.children;
    if select.processed then Failed(AlreadyProcessed)
    else if select.id == "" then Failed(MissingId)
    else if !hasLabel then Failed(MissingLabel)
    else
      match FirstPreselected(children, |children|)
      case None =>
        var last := LastCommitted(children, |children|);
        assert last.Some? ==> NativeSelect.Preselected(children, last.value);
        Failed(NoPreselectedOption)
      case Some(first) =>
        var processed := ProcessOptions(children, hashes, children[first].value, |children|);
        if processed.selected.None? then Failed(NoIndexedSelection)
        else
          var options := ProcessSelectChildren(children, hashes);
          TrimIdempotent(processed.selected.value.labelText);
          Created(processed.(options := options,
                             searchText := Trim(processed.selected.value.labelText),
                             visible := Hashes(options)))
  }

  /** A widget built with distinct hashes is well formed from the start. */
  lemma CreatedIsWf(select: SelectElement, hasLabel: bool, hashes: seq<Hash>)
    requires |hashes| == |select.children|
    requires forall i1, i2 :: 0 <= i1 < i2 < |hashes| ==> hashes[i1] != hashes[i2]
    requires CreateChoosinFromSelect(select, hasLabel, hashes).Created?
    ensures Wf(CreateChoosinFromSelect(select, hasLabel, hashes).w)
  {
    var children := select.children;
    var w := CreateChoosinFromSelect(select, hasLabel, hashes).w;
    var p := LastCommitted(children, |children|).value;
    IndexHashesDistinct(children, hashes);
    BuildIndexComplete(children, hashes, |children|, p);
    EmptyQueryMatchesAll(w.options);
    assert IndexWf(children, w.options) by {
      forall j | 0 <= j < |w.options|
        ensures EntryFromChild(children, w.options[j])
      {
        assert EntryOf(children, hashes, w.options[j]);
      }
    }
    assert NativeSelect.Preselected(children, p);
  }
}
