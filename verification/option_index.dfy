/**
 * The option index the widget builds from the native select
 * (`processSelectChildren` / `processOption` in `src/choosin.js`) and the
 * substring filter the search runs over it.
 */
module OptionIndex {
  import opened Base
  import opened Text

  /** The opaque id shared by a native option and the list item made from it. */
  type Hash = nat

  /** A child element of the native select. `value` is the option's value
      property and `preselected` its `selected` content attribute. */
  datatype Child =
    | OptionElement(value: string, text: string, preselected: bool)
    | OtherElement

  /**
   * One indexed option: the `optionsMap[hash]` record (value, search string,
   * link to the native option by its position among the select's children)
   * together with the generated list item it describes (hash, value,
   * trimmed label text).
   */
  datatype Entry = Entry(hash: Hash, value: string, labelText: string, searchString: string, native: nat)

  /** Only `<option>` children with a non-empty value are indexed. */
  predicate Indexable(c: Child)
  {
    c.OptionElement? && c.value != ""
  }

  /** `processOption` plus the `optionsMap` record for child number `position`:
      the search string is the lower-cased value, not the label. */
  function MakeEntry(c: Child, hash: Hash, position: nat): Entry
    requires c.OptionElement?
  {
    Entry(hash, c.value, Trim(c.text), Lower(c.value), position)
  }

  /** `e` is the entry made from an indexable child at `e.native`. */
  predicate EntryOf(children: seq<Child>, hashes: seq<Hash>, e: Entry)
    requires |hashes| == |children|
  {
    && e.native < |children|
    && Indexable(children[e.native])
    && e == MakeEntry(children[e.native], hashes[e.native], e.native)
  }

  /**
   * The index built from the first `n` children: one entry per indexable
   * child, in document order, with no filtering of repeated values.
   * `hashes[i]` is the fresh hash handed to child `i`.
   */
  function BuildIndex(children: seq<Child>, hashes: seq<Hash>, n: nat): (index: seq<Entry>)
    requires n <= |children| && |hashes| == |children|
    ensures forall j :: 0 <= j < |index| ==> index[j].native < n && EntryOf(children, hashes, index[j])
    ensures forall j1, j2 :: 0 <= j1 < j2 < |index| ==> index[j1].native < index[j2].native
  {
    if n == 0 then []
    else
      var prefix := BuildIndex(children, hashes, n - 1);
      var c := children[n - 1];
      if Indexable(c) then
        prefix + [MakeEntry(c, hashes[n - 1], n - 1)]
      else prefix
  }

  /** Every indexable child among the first `n` has its entry. */
  lemma {:induction false} BuildIndexComplete(children: seq<Child>, hashes: seq<Hash>, n: nat, i: nat)
    requires n <= |children| && |hashes| == |children|
    requires i < n && Indexable(children[i])
    ensures MakeEntry(children[i], hashes[i], i) in BuildIndex(children, hashes, n)
  {
    var prefix := BuildIndex(children, hashes, n - 1);
    var e := MakeEntry(children[i], hashes[i], i);
    var extra := if Indexable(children[n - 1]) then [MakeEntry(children[n - 1], hashes[n - 1], n - 1)] else [];
    assert BuildIndex(children, hashes, n) == prefix + extra;
    if i < n - 1 {
      BuildIndexComplete(children, hashes, n - 1, i);
    }
  }

  /** The index of the whole select. */
  function ProcessSelectChildren(children: seq<Child>, hashes: seq<Hash>): seq<Entry>
    requires |hashes| == |children|
  {
    BuildIndex(children, hashes, |children|)
  }

  /** No two entries share a hash. */
  predicate DistinctHashes(options: seq<Entry>)
  {
    forall j1, j2 :: 0 <= j1 < j2 < |options| ==> options[j1].hash != options[j2].hash
  }

  /** Fresh hashes make distinct index hashes. */
  lemma IndexHashesDistinct(children: seq<Child>, hashes: seq<Hash>)
    requires |hashes| == |children|
    requires forall i1, i2 :: 0 <= i1 < i2 < |hashes| ==> hashes[i1] != hashes[i2]
    ensures DistinctHashes(ProcessSelectChildren(children, hashes))
  {
    var index := ProcessSelectChildren(children, hashes);
    forall j1, j2 | 0 <= j1 < j2 < |index|
      ensures index[j1].hash != index[j2].hash
    {
      assert EntryOf(children, hashes, index[j1]) && EntryOf(children, hashes, index[j2]);
    }
  }

  /** `optionHashesInOrder`. */
  function Hashes(options: seq<Entry>): (hs: seq<Hash>)
    ensures |hs| == |options|
    ensures forall i :: 0 <= i < |options| ==> hs[i] == options[i].hash
  {
    if |options| == 0 then [] else Hashes(options[..|options| - 1]) + [options[|options| - 1].hash]
  }

  /** The entry with hash `h` (`optionsMap[h]`), if there is one. */
  function Lookup(options: seq<Entry>, h: Hash): (r: Option<Entry>)
    ensures r.Some? ==> r.value in options && r.value.hash == h
    ensures r.None? ==> forall e :: e in options ==> e.hash != h
  {
    if |options| == 0 then None
    else if options[0].hash == h then Some(options[0])
    else Lookup(options[1..], h)
  }

  /** With distinct hashes, looking up an entry's hash finds that entry. */
  lemma LookupFinds(options: seq<Entry>, e: Entry)
    requires DistinctHashes(options) && e in options
    ensures Lookup(options, e.hash) == Some(e)
  {
    var r := Lookup(options, e.hash);
    var j :| 0 <= j < |options| && options[j] == r.value;
    var k :| 0 <= k < |options| && options[k] == e;
    assert j == k;
  }

  /** The entries whose search string contains `q`, in index order. */
  function MatchingEntries(options: seq<Entry>, q: string): (r: seq<Entry>)
    ensures |r| <= |options|
    ensures forall i :: 0 <= i < |r| ==> r[i] in options && Contains(r[i].searchString, q)
  {
    if |options| == 0 then []
    else
      var last := options[|options| - 1];
      var init := options[..|options| - 1];
      assert options == init + [last];
      MatchingEntries(init, q) + (if Contains(last.searchString, q) then [last] else [])
  }

  /** Every matching entry makes it through the filter. */
  lemma {:induction false} MatchingComplete(options: seq<Entry>, q: string, e: Entry)
    requires e in options && Contains(e.searchString, q)
    ensures e in MatchingEntries(options, q)
  {
    var init := options[..|options| - 1];
    assert options == init + [options[|options| - 1]];
    if e != options[|options| - 1] {
      MatchingComplete(init, q, e);
    }
  }

  /** `xs` is `ys` with some elements left out, order kept. */
  predicate Subsequence<X(==)>(xs: seq<X>, ys: seq<X>)
    decreases |ys|
  {
    || |xs| == 0
    || (&& |ys| > 0
        && ((&& |xs| > 0 && xs[|xs| - 1] == ys[|ys| - 1]
             && Subsequence(xs[..|xs| - 1], ys[..|ys| - 1]))
            || Subsequence(xs, ys[..|ys| - 1])))
  }

  /** Filtering keeps the relative order of the index. */
  lemma {:induction false} MatchingIsSubsequence(options: seq<Entry>, q: string)
    ensures Subsequence(MatchingEntries(options, q), options)
  {
    if |options| > 0 {
      var init := options[..|options| - 1];
      MatchingIsSubsequence(init, q);
      var r := MatchingEntries(options, q);
      assert options[..|options| - 1] == init;
      if Contains(options[|options| - 1].searchString, q) {
        assert r == MatchingEntries(init, q) + [options[|options| - 1]];
        assert r[..|r| - 1] == MatchingEntries(init, q);
        assert r[|r| - 1] == options[|options| - 1];
      } else {
        assert r == MatchingEntries(init, q);
        assert Subsequence(r, options[..|options| - 1]);
      }
    }
  }

  /** The empty query matches every entry. */
  lemma {:induction false} EmptyQueryMatchesAll(options: seq<Entry>)
    ensures MatchingEntries(options, "") == options
  {
    if |options| > 0 {
      EmptyQueryMatchesAll(options[..|options| - 1]);
      assert options == options[..|options| - 1] + [options[|options| - 1]];
    }
  }

  /** The entries that match `q`, as a set. */
  function MatchingSet(options: seq<Entry>, q: string): set<Entry>
  {
    set e | e in options && Contains(e.searchString, q)
  }

  /** The entries that do not match `q`, as a set. */
  function NonMatchingSet(options: seq<Entry>, q: string): set<Entry>
  {
    set e | e in options && !Contains(e.searchString, q)
  }

  /** The first entry in index order that matches `q`. */
  function FirstMatch(options: seq<Entry>, q: string): Option<Entry>
  {
    var m := MatchingEntries(options, q);
    if |m| > 0 then Some(m[0]) else None
  }
}
