/**
 * Moving the highlight through the visible options: `navigateOptions` in
 * `src/choosin.js` (lines 534-570).
 */
module Navigation {
  import opened Base
  import opened OptionIndex
  import opened Widget

  /** `xs.indexOf(h)`: the first position holding `h`, or -1. */
  function IndexOf(xs: seq<Hash>, h: Hash): (i: int)
    ensures -1 <= i < |xs|
    ensures i >= 0 ==> xs[i] == h && forall j :: 0 <= j < i ==> xs[j] != h
    ensures i < 0 ==> h !in xs
  {
    if |xs| == 0 then -1
    else if xs[0] == h then 0
    else
      var rest := IndexOf(xs[1..], h);
      if rest < 0 then -1 else rest + 1
  }

  /** The position `offset` steps from `idx`, held inside `0..len-1`: past
      either end the first or last position is taken, with no wrap-around. */
  function NewIndex(idx: int, offset: int, len: nat): (n: int)
    requires 0 <= idx < len
    ensures 0 <= n < len
    ensures idx + offset < 0 ==> n == 0
    ensures idx + offset >= len ==> n == len - 1
    ensures 0 <= idx + offset < len ==> n == idx + offset
  {
    var n := offset + idx;
    if n < 0 then 0
    else if n + 1 > len then len - 1
    else n
  }

  /** Where the highlight of `w` sits in the visible list, or -1. */
  function HighlightIndex(w: State): int
    requires w.highlighted.Some?
  {
    IndexOf(w.visible, w.highlighted.value.hash)
  }

  /** The option the source dereferences by hash is indexed. */
  predicate CanNavigate(w: State, offset: int)
  {
    w.highlighted.Some? && HighlightIndex(w) >= 0 ==>
      Lookup(w.options, w.visible[NewIndex(HighlightIndex(w), offset, |w.visible|)]).Some?
  }

  /**
   * `navigateOptions(offset)`. With nothing highlighted, the first list
   * item is highlighted and the offset ignored. A highlight that is not in
   * the visible list changes nothing. Otherwise the visible option
   * `offset` steps away, held at the ends, is highlighted.
   */
  function NavigateOptions(w: State, offset: int): (r: Step)
    requires CanNavigate(w, offset)
    ensures w.highlighted.None? ==>
      r == Step(w.(highlighted := if |w.options| > 0 then Some(w.options[0]) else None), [OptionHighlighted])
    ensures w.highlighted.Some? && HighlightIndex(w) < 0 ==> r == Step(w, [])
    ensures w.highlighted.Some? && HighlightIndex(w) >= 0 ==>
      && r.trace == [OptionHighlighted]
      && r.w.highlighted.Some?
      && r.w.highlighted.value.hash == w.visible[NewIndex(HighlightIndex(w), offset, |w.visible|)]
      && r.w.highlighted.value in w.options
      && r.w == w.(highlighted := r.w.highlighted)
  {
    if w.highlighted.None? then
      SetHighlighted(w, if |w.options| > 0 then Some(w.options[0]) else None)
    else
      var idx := HighlightIndex(w);
      if idx < 0 then Step(w, [])
      else
        var target := w.visible[NewIndex(idx, offset, |w.visible|)];
        SetHighlighted(w, Lookup(w.options, target))
  }

  /** The visible list of a well-formed widget names indexed options, each once. */
  lemma VisibleIsIndexed(w: State)
    requires Wf(w)
    ensures VisibleIndexed(w)
  {
    var m := MatchingEntries(w.options, w.previousSearch);
    forall i | 0 <= i < |w.visible|
      ensures Lookup(w.options, w.visible[i]).Some?
    {
      assert w.visible[i] == m[i].hash;
      LookupFinds(w.options, m[i]);
    }
    forall i, j | 0 <= i < j < |w.visible|
      ensures w.visible[i] != w.visible[j]
    {
      MatchingIsSubsequence(w.options, w.previousSearch);
      SubsequenceKeepsOrder(m, w.options, i, j);
    }
  }

  /** Two different positions of a subsequence come from two different
      positions of the sequence, in the same order. */
  lemma {:induction false} SubsequenceKeepsOrder(xs: seq<Entry>, ys: seq<Entry>, i: nat, j: nat)
    requires Subsequence(xs, ys) && i < j < |xs|
    requires DistinctHashes(ys)
    ensures xs[i].hash != xs[j].hash
    decreases |ys|
  {
    var xl := xs[..|xs| - 1];
    var yl := ys[..|ys| - 1];
    assert DistinctHashes(yl);
    if |xs| > 0 && |ys| > 0 && xs[|xs| - 1] == ys[|ys| - 1] && Subsequence(xl, yl) {
      if j < |xs| - 1 {
        SubsequenceKeepsOrder(xl, yl, i, j);
      } else {
        SubsequenceMembers(xl, yl, i);
      }
    } else {
      SubsequenceKeepsOrder(xs, yl, i, j);
    }
  }

  /** Every element of a subsequence comes from the sequence. */
  lemma {:induction false} SubsequenceMembers(xs: seq<Entry>, ys: seq<Entry>, i: nat)
    requires Subsequence(xs, ys) && i < |xs|
    ensures exists k :: 0 <= k < |ys| && ys[k] == xs[i]
    decreases |ys|
  {
    var xl := xs[..|xs| - 1];
    var yl := ys[..|ys| - 1];
    if xs[|xs| - 1] == ys[|ys| - 1] && Subsequence(xl, yl) {
      if i < |xs| - 1 {
        SubsequenceMembers(xl, yl, i);
        var k :| 0 <= k < |yl| && yl[k] == xl[i];
        assert ys[k] == xs[i];
      } else {
        assert ys[|ys| - 1] == xs[i];
      }
    } else {
      SubsequenceMembers(xs, yl, i);
      var k :| 0 <= k < |yl| && yl[k] == xs[i];
      assert ys[k] == xs[i];
    }
  }

  /** The visible list names indexed options, each hash once: all that
      navigation needs. */
  predicate VisibleIndexed(w: State)
  {
    && (forall i :: 0 <= i < |w.visible| ==> Lookup(w.options, w.visible[i]).Some?)
    && (forall i, j :: 0 <= i < j < |w.visible| ==> w.visible[i] != w.visible[j])
  }

  /** A widget whose visible list is indexed can always navigate. */
  lemma IndexedCanNavigate(w: State, offset: int)
    requires VisibleIndexed(w)
    ensures CanNavigate(w, offset)
  {
  }

  /** Navigation keeps a widget well formed. */
  lemma NavigateKeepsWf(w: State, offset: int)
    requires Wf(w)
    ensures CanNavigate(w, offset) && Wf(NavigateOptions(w, offset).w)
  {
    VisibleIsIndexed(w);
  }

  /** From a visible highlight, the highlight moves to position
      `NewIndex(idx, offset, len)` of the visible list. */
  lemma NavigateMovesTo(w: State, offset: int)
    requires VisibleIndexed(w) && w.highlighted.Some? && HighlightIndex(w) >= 0
    ensures CanNavigate(w, offset)
    ensures var r := NavigateOptions(w, offset).w;
      r.highlighted.Some? && HighlightIndex(r) == NewIndex(HighlightIndex(w), offset, |w.visible|)
  {
    var n := NewIndex(HighlightIndex(w), offset, |w.visible|);
    var r := NavigateOptions(w, offset).w;
    var k := IndexOf(w.visible, r.highlighted.value.hash);
    assert k >= 0 && w.visible[k] == w.visible[n];
  }

  /** `k` presses of the same arrow key. */
  function Presses(w: State, offset: int, k: nat): (r: State)
    requires VisibleIndexed(w)
    ensures VisibleIndexed(r)
    ensures r.(highlighted := w.highlighted) == w
    decreases k
  {
    if k == 0 then w
    else
      IndexedCanNavigate(w, offset);
      Presses(NavigateOptions(w, offset).w, offset, k - 1)
  }

  /** One held step followed by `k - 1` more is `k` held steps. */
  lemma ClampSteps(i0: int, i1: int, ir: int, offset: int, k: nat, len: nat)
    requires offset == 1 || offset == -1
    requires 0 <= i0 < len && k > 0
    requires i1 == NewIndex(i0, offset, len)
    requires offset == 1 ==> ir == if i1 + (k - 1) < len then i1 + (k - 1) else len - 1
    requires offset == -1 ==> ir == if i1 - (k - 1) >= 0 then i1 - (k - 1) else 0
    ensures offset == 1 ==> ir == if i0 + k < len then i0 + k else len - 1
    ensures offset == -1 ==> ir == if i0 - k >= 0 then i0 - k else 0
  {
  }

  /** Pressing the down arrow `k` times from a visible highlight at `idx`
      lands on `idx + k`, stopping at the last visible option. */
  lemma {:induction false} PressesDown(w: State, k: nat)
    requires VisibleIndexed(w) && w.highlighted.Some? && HighlightIndex(w) >= 0
    ensures var r := Presses(w, 1, k);
      && r.highlighted.Some?
      && HighlightIndex(r) == if HighlightIndex(w) + k < |w.visible| then HighlightIndex(w) + k else |w.visible| - 1
    decreases k
  {
    if k > 0 {
      NavigateMovesTo(w, 1);
      var next := NavigateOptions(w, 1).w;
      assert next.visible == w.visible;
      assert Presses(w, 1, k) == Presses(next, 1, k - 1);
      PressesDown(next, k - 1);
      var r := Presses(next, 1, k - 1);
      var i0 := HighlightIndex(w);
      var i1 := HighlightIndex(next);
      assert i1 == NewIndex(i0, 1, |w.visible|);
      ClampSteps(i0, i1, HighlightIndex(r), 1, k, |w.visible|);
    } else {
      assert Presses(w, 1, k) == w;
    }
  }

  /** Pressing the up arrow `k` times from a visible highlight at `idx`
      lands on `idx - k`, stopping at the first visible option. */
  lemma {:induction false} PressesUp(w: State, k: nat)
    requires VisibleIndexed(w) && w.highlighted.Some? && HighlightIndex(w) >= 0
    ensures var r := Presses(w, -1, k);
      && r.highlighted.Some?
      && HighlightIndex(r) == if HighlightIndex(w) - k >= 0 then HighlightIndex(w) - k else 0
    decreases k
  {
    if k > 0 {
      NavigateMovesTo(w, -1);
      var next := NavigateOptions(w, -1).w;
      assert next.visible == w.visible;
      assert Presses(w, -1, k) == Presses(next, -1, k - 1);
      PressesUp(next, k - 1);
      var r := Presses(next, -1, k - 1);
      var i0 := HighlightIndex(w);
      var i1 := HighlightIndex(next);
      assert i1 == NewIndex(i0, -1, |w.visible|);
      ClampSteps(i0, i1, HighlightIndex(r), -1, k, |w.visible|);
    } else {
      assert Presses(w, -1, k) == w;
    }
  }
}
