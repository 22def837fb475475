/**
 * The earlier prototype in `choosin.js`: the `pubSubState` store and the
 * open/close helpers behind the trigger button.
 *
 * The prototype store differs from `SimpleState` in three ways that the
 * lemmas at the end make precise: `get` hides falsy values, every
 * subscription gets the id -1, and `set` never reaches a subscriber.
 */
module PubSubState {
  import opened Base
  import SimpleState

  type Key = string

  /** The subscriber bag `{lastSubscriberIndex: -1}` with callbacks stored under ids. */
  datatype ProtoBag<T> = ProtoBag(lastSubscriberIndex: int, entries: map<int, T>)

  datatype ProtoStore<T> = ProtoStore(data: map<Key, JsValue>, subscribers: map<Key, ProtoBag<T>>)

  /** One invocation `callback(data)`; the prototype passes no old value. */
  datatype ProtoCall<T> = ProtoCall(callback: T, value: JsValue)

  datatype ProtoSubscribed<T> = ProtoSubscribed(store: ProtoStore<T>, id: Option<int>)
  datatype ProtoUnsubscribed<T> = ProtoUnsubscribed(store: ProtoStore<T>, outcome: Outcome)
  datatype ProtoPublished<T> = ProtoPublished(store: ProtoStore<T>, calls: seq<ProtoCall<T>>)

  /** What every reachable prototype store looks like: no bag ever moves off -1. */
  predicate ProtoValid<T>(s: ProtoStore<T>)
  {
    forall k :: k in s.subscribers ==>
      && s.subscribers[k].lastSubscriberIndex == -1
      && forall id :: id in s.subscribers[k].entries ==> id == -1
  }

  /** The bag of `k`, or the one `subscribe` would create. */
  function BagOf<T>(s: ProtoStore<T>, k: Key): ProtoBag<T>
  {
    if k in s.subscribers then s.subscribers[k] else ProtoBag(-1, map[])
  }

  /** `new pubSubState(initialData)`; `None` is an initial value that is not an object. */
  function Create<T>(initialData: Option<map<Key, JsValue>>): (s: ProtoStore<T>)
    ensures ProtoValid(s) && s.subscribers == map[]
    ensures initialData.Some? ==> s.data == initialData.value
    ensures initialData.None? ==> s.data == map[]
  {
    ProtoStore(if initialData.Some? then initialData.value else map[], map[])
  }

  /** `get(dataKey)`: only a truthy stored value comes back; anything else reads as `undefined`. */
  function Get<T>(s: ProtoStore<T>, k: Key): (v: JsValue)
    ensures v != Undefined <==> k in s.data && Truthy(s.data[k])
    ensures v != Undefined ==> v == s.data[k]
  {
    if k in s.data && Truthy(s.data[k]) then s.data[k] else Undefined
  }

  /**
   * `subscribe(dataKey, callback)`. The id is read with a post-increment
   * (`lastSubscriberIndex++` yields the value before the bump) and then
   * written back, which undoes the bump: the counter never moves.
   */
  function Subscribe<T>(s: ProtoStore<T>, k: Key, callback: Option<T>): (r: ProtoSubscribed<T>)
    ensures k == "" || callback.None? ==> r == ProtoSubscribed(s, None)
    ensures k != "" && callback.Some? ==>
      && r.id == Some(BagOf(s, k).lastSubscriberIndex)
      && r.store.data == s.data
      && k in r.store.subscribers
      && r.store.subscribers[k].lastSubscriberIndex == BagOf(s, k).lastSubscriberIndex
      && r.store.subscribers[k].entries == BagOf(s, k).entries[r.id.value := callback.value]
    ensures ProtoValid(s) ==> ProtoValid(r.store)
  {
    if k == "" || callback.None? then ProtoSubscribed(s, None)
    else
      var bag := BagOf(s, k);
      var next := bag.lastSubscriberIndex;
      var bumped := bag.(lastSubscriberIndex := bag.lastSubscriberIndex + 1);
      var restored := bumped.(lastSubscriberIndex := next);
      var added := restored.(entries := restored.entries[next := callback.value]);
      ProtoSubscribed(s.(subscribers := s.subscribers[k := added]), Some(next))
  }

  /**
   * `unsubscribe(dataKey, subscriberId)`: a falsy key, a key with no bag or
   * a falsy id (0) is refused; an id the bag does not hold is reported but
   * the (harmless) delete still runs.
   */
  function Unsubscribe<T>(s: ProtoStore<T>, k: Key, id: int): (r: ProtoUnsubscribed<T>)
    ensures k == "" || k !in s.subscribers || id == 0 ==> r == ProtoUnsubscribed(s, Rejected)
    ensures k != "" && k in s.subscribers && id != 0 ==>
      && r.store.data == s.data
      && k in r.store.subscribers
      && r.store.subscribers[k].entries == s.subscribers[k].entries - {id}
      && r.store.subscribers[k].lastSubscriberIndex == s.subscribers[k].lastSubscriberIndex
      && r.store.subscribers.Keys == s.subscribers.Keys
      && (forall k' :: k' != k && k' in s.subscribers ==> r.store.subscribers[k'] == s.subscribers[k'])
      && (r.outcome == Done <==> id in s.subscribers[k].entries)
      && (r.outcome == DoneDespiteError <==> id !in s.subscribers[k].entries)
    ensures ProtoValid(s) ==> ProtoValid(r.store)
  {
    if k == "" || k !in s.subscribers || id == 0 then ProtoUnsubscribed(s, Rejected)
    else
      var bag := s.subscribers[k];
      var outcome := if id in bag.entries then Done else DoneDespiteError;
      ProtoUnsubscribed(s.(subscribers := s.subscribers[k := bag.(entries := bag.entries - {id})]), outcome)
  }

  /** The value of `bag.length`: the bag is a plain object literal, not an
      array, and none of its properties is called `length`. */
  function LengthOf<T>(bag: ProtoBag<T>): JsValue
  {
    Undefined
  }

  /** The calls the loop over `0..n-1` would make, skipping ids the bag lacks. */
  function CallsBelow<T>(bag: ProtoBag<T>, n: int, v: JsValue): seq<ProtoCall<T>>
    decreases n
  {
    if n <= 0 then []
    else CallsBelow(bag, n - 1, v) + (if n - 1 in bag.entries then [ProtoCall(bag.entries[n - 1], v)] else [])
  }

  /** The loop at lines 102-105, which only runs when `bag.length` is a
      non-zero number. */
  function Notify<T>(bag: ProtoBag<T>, v: JsValue): seq<ProtoCall<T>>
  {
    match LengthOf(bag)
    case Num(n) => if n != 0 then CallsBelow(bag, n, v) else []
    case _ => []
  }

  /**
   * `set(dataKey, data)`: a falsy key or an `undefined` value is refused;
   * otherwise the value is stored. The subscribers are only visited when
   * the bag has a truthy `length`, which it never has.
   */
  function Set<T>(s: ProtoStore<T>, k: Key, v: JsValue): (r: ProtoPublished<T>)
    ensures k == "" || v == Undefined ==> r.store == s
    ensures k != "" && v != Undefined ==> r.store == ProtoStore(s.data[k := v], s.subscribers)
    ensures r.calls == []
  {
    if k == "" || v == Undefined then ProtoPublished(s, [])
    else
      var store := ProtoStore(s.data[k := v], s.subscribers);
      ProtoPublished(store, if k in s.subscribers then Notify(s.subscribers[k], v) else [])
  }

  // ---------------------------------------------------------------------
  // The trigger toggle
  // ---------------------------------------------------------------------

  /** The widget's outer element: its classes and its `open` attribute. */
  datatype Element = Element(classes: set<string>, open: bool)

  /** The result of acting on an element. */
  datatype Effect = Applied(element: Element) | Refused | Crashed

  /** `isChoosinElement($choosin)`: despite its name, true when the argument
      is missing or lacks the `choosin` class. */
  function IsChoosinElement(el: Option<Element>): bool
  {
    el.None? || "choosin" !in el.value.classes
  }

  /** `openChoosin`: a bad element is reported but opened anyway; a missing
      one makes `setAttribute` throw. */
  function OpenChoosin(el: Option<Element>): (r: Effect)
    ensures el.None? <==> r.Crashed?
    ensures el.Some? ==> r == Applied(el.value.(open := true))
  {
    if el.None? then Crashed else Applied(el.value.(open := true))
  }

  /** `closeChoosin`: what `isChoosinElement` flags is refused. */
  function CloseChoosin(el: Option<Element>): (r: Effect)
    ensures r.Refused? <==> el.None? || "choosin" !in el.value.classes
    ensures !r.Refused? ==> r == Applied(el.value.(open := false))
  {
    if IsChoosinElement(el) then Refused else Applied(el.value.(open := false))
  }

  /** The trigger's click handler: close when open, open otherwise. */
  function TriggerClick(e: Element): Effect
  {
    if e.open then CloseChoosin(Some(e)) else OpenChoosin(Some(e))
  }

  /** On a genuine choosin the trigger flips `open`, and two clicks restore it. */
  lemma TriggerToggles(e: Element)
    requires "choosin" in e.classes
    ensures TriggerClick(e) == Applied(e.(open := !e.open))
    ensures TriggerClick(TriggerClick(e).element) == Applied(e)
  {
  }

  /** The inverted check makes the helpers lopsided: an element without the
      `choosin` class opens but can never be closed again. */
  lemma BadElementOpensButNeverCloses(e: Element)
    requires "choosin" !in e.classes
    ensures IsChoosinElement(Some(e))
    ensures TriggerClick(e.(open := false)) == Applied(e.(open := true))
    ensures TriggerClick(e.(open := true)) == Refused
  {
  }

  // ---------------------------------------------------------------------
  // The prototype against SimpleState
  // ---------------------------------------------------------------------

  /** In a valid prototype store every subscription gets the id -1, and a
      second callback on a key replaces the first. */
  lemma SubscriptionsOverwrite<T>(s: ProtoStore<T>, k: Key, a: T, b: T)
    requires ProtoValid(s) && k != ""
    ensures Subscribe(s, k, Some(a)).id == Some(-1)
    ensures var s1 := Subscribe(s, k, Some(a)).store;
      && Subscribe(s1, k, Some(b)).id == Some(-1)
      && Subscribe(s1, k, Some(b)).store.subscribers[k].entries == map[-1 := b]
  {
    var bag := BagOf(s, k);
    forall id | id in bag.entries ensures id == -1 {
      if k in s.subscribers {
        assert bag == s.subscribers[k];
      }
    }
    assert bag.entries[-1 := a].Keys == {-1};
    var s1 := Subscribe(s, k, Some(a)).store;
    assert s1.subscribers[k].entries == map[-1 := a];
    assert s1.subscribers[k].entries[-1 := b] == map[-1 := b];
  }

  /** A stored falsy value (`null`, `false`, `0`, `''`) reads back from
      `SimpleState` but reads as `undefined` from the prototype. */
  lemma FalsyValuesDiffer<T>(k: Key, v: JsValue)
    requires k != "" && v != Undefined && !Truthy(v)
    ensures SimpleState.Get(SimpleState.Set(SimpleState.Create<T>(None), k, v).store, k) == v
    ensures Get(Set(Create<T>(None), k, v).store, k) == Undefined
  {
  }

  /** After one subscription and one `set`, `SimpleState` calls the
      subscriber with `(new, old)` while the prototype calls nobody. */
  lemma OnlySimpleStateNotifies<T>(k: Key, v: JsValue, c: T)
    requires k != "" && v != Undefined
    ensures var s := SimpleState.Subscribe(SimpleState.Create<T>(None), k, Some(c)).store;
      SimpleState.Set(s, k, v).calls == [SimpleState.Call(0, c, v, Undefined)]
    ensures var p := Subscribe(Create<T>(None), k, Some(c)).store;
      Set(p, k, v).calls == []
  {
    var s := SimpleState.Subscribe(SimpleState.Create<T>(None), k, Some(c)).store;
    assert s.subscribers[k] == SimpleState.Bag(0, map[0 := c]);
    assert SimpleState.IdsBetween(map[0 := c], 1, 1) == [];
    assert SimpleState.LiveIds(s.subscribers[k]) == [0];
  }
}
