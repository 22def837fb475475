/**
 * The hidden native `<select>` behind a choosin, as far as its value goes:
 * which children carry the `selected` content attribute and which option
 * the select currently has selected.
 *
 * The widget marks an option by adding the `selected` attribute
 * (`src/choosin.js` line 225). In HTML an option becomes selected when
 * that attribute is added to it, not when an attribute it already has is
 * set again; `AddSelectedAttribute` models that rule, the widget commits
 * through it, and the lemmas at the end show the commit it loses.
 * `MarkSelected` is the evidently intended effect (select that option);
 * `Selection.SetOptionSelectedIntended` commits through it.
 */
module NativeSelect {
  import opened Base
  import opened OptionIndex

  /** `attrs`: positions of the children carrying the `selected` attribute;
      `selected`: the position of the option the select has selected. */
  datatype Select = Select(attrs: set<nat>, selected: Option<nat>)

  /** Child `i` is an option written with the `selected` attribute. */
  predicate Preselected(children: seq<Child>, i: nat)
  {
    i < |children| && children[i].OptionElement? && children[i].preselected
  }

  /** The last preselected option among the first `n` children. */
  function LastPreselected(children: seq<Child>, n: nat): (r: Option<nat>)
    requires n <= |children|
    ensures r.Some? ==> r.value < n && Preselected(children, r.value)
    ensures r.Some? ==> forall j :: r.value < j < n ==> !Preselected(children, j)
    ensures r.None? ==> forall j :: 0 <= j < n ==> !Preselected(children, j)
  {
    if n == 0 then None
    else if Preselected(children, n - 1) then Some(n - 1)
    else LastPreselected(children, n - 1)
  }

  /** The select as parsed: when several options are written `selected`,
      a single-choice select ends up with the last of them. */
  function FromChildren(children: seq<Child>): (s: Select)
    ensures forall i :: i in s.attrs <==> Preselected(children, i)
    ensures s.selected == LastPreselected(children, |children|)
  {
    var attrs := set i: nat | i < |children| && Preselected(children, i);
    Select(attrs, LastPreselected(children, |children|))
  }

  /** `$select.value`: the value of the selected option, or `""` when none is. */
  function Value(children: seq<Child>, s: Select): string
  {
    if s.selected.Some? && s.selected.value < |children| && children[s.selected.value].OptionElement?
    then children[s.selected.value].value
    else ""
  }

  /**
   * `setAttribute('selected', '')` on the option at `pos`, as HTML defines
   * it for an option nobody has changed by hand: adding the attribute
   * selects the option (and so deselects the others), setting an attribute
   * the option already has changes nothing.
   */
  function AddSelectedAttribute(s: Select, pos: nat): (r: Select)
    ensures pos in r.attrs && r.attrs == s.attrs + {pos}
    ensures pos !in s.attrs ==> r.selected == Some(pos)
    ensures pos in s.attrs ==> r == s
  {
    if pos in s.attrs then s else Select(s.attrs + {pos}, Some(pos))
  }

  /** Selecting the option at `pos` outright, which is what the widget means
      to do when it commits an option. */
  function MarkSelected(s: Select, pos: nat): (r: Select)
    ensures r.selected == Some(pos)
    ensures r.attrs == s.attrs + {pos}
  {
    Select(s.attrs + {pos}, Some(pos))
  }

  /** Marking an option makes the select report that option's value. */
  lemma MarkSelectedValue(children: seq<Child>, s: Select, pos: nat)
    requires pos < |children| && children[pos].OptionElement?
    ensures Value(children, MarkSelected(s, pos)) == children[pos].value
  {
  }

  /** The two agree exactly when the option does not carry the attribute yet
      or is already the selected one. */
  lemma AddAgreesWithMarkOnFreshOptions(s: Select, pos: nat)
    ensures AddSelectedAttribute(s, pos) == MarkSelected(s, pos) <==> pos !in s.attrs || s.selected == Some(pos)
  {
  }

  /**
   * Two options, the first written `selected`. Commit the second, then the
   * first again: under the attribute rule the select stays on the second
   * option, so its value no longer matches the option just committed.
   */
  lemma ReselectingPreselectedOptionIsLost()
    ensures var children := [OptionElement("a", "A", true), OptionElement("b", "B", false)];
      var s := AddSelectedAttribute(AddSelectedAttribute(FromChildren(children), 1), 0);
      && s.selected == Some(1)
      && Value(children, s) == "b"
      && Value(children, MarkSelected(MarkSelected(FromChildren(children), 1), 0)) == "a"
  {
    var children := [OptionElement("a", "A", true), OptionElement("b", "B", false)];
    var s0 := FromChildren(children);
    assert Preselected(children, 0) && !Preselected(children, 1);
    assert 0 in s0.attrs && 1 !in s0.attrs;
  }
}
