/**
 * The keyed publish/subscribe store of `src/modules/SimpleState.js`.
 *
 * The store keeps a key/value map and, per key, a bag of subscriber
 * callbacks indexed by integer ids that count up from 0. Callbacks are
 * opaque tags of type `T`; `Set` returns the ordered list of the calls it
 * makes instead of making them.
 */
module SimpleState {
  import opened Base

  type Key = string

  /** The subscriber bag of one key: `lastSubscriberIndex` and the callbacks by id. */
  datatype Bag<T> = Bag(last: int, subs: map<int, T>)

  datatype Store<T> = Store(data: map<Key, JsValue>, subscribers: map<Key, Bag<T>>)

  /** One callback invocation `callback(newValue, oldValue)` of subscriber `id`. */
  datatype Call<T> = Call(id: int, callback: T, newValue: JsValue, oldValue: JsValue)

  datatype Subscribed<T> = Subscribed(store: Store<T>, id: Option<int>)
  datatype Unsubscribed<T> = Unsubscribed(store: Store<T>, outcome: Outcome)
  datatype Published<T> = Published(store: Store<T>, calls: seq<Call<T>>)

  /** Every id in a bag was handed out: it lies between 0 and `lastSubscriberIndex`. */
  predicate BagValid<T>(b: Bag<T>)
  {
    b.last >= -1 && forall id :: id in b.subs ==> 0 <= id <= b.last
  }

  /** The invariant every reachable store keeps. */
  predicate Valid<T>(s: Store<T>)
  {
    forall k :: k in s.subscribers ==> BagValid(s.subscribers[k])
  }

  /** The bag of `k`, or the one `subscribe` would create. */
  function BagOf<T>(s: Store<T>, k: Key): Bag<T>
  {
    if k in s.subscribers then s.subscribers[k] else Bag(-1, map[])
  }

  /** `new simpleState(initialData)`; `None` is an initial value that is not an object. */
  function Create<T>(initialData: Option<map<Key, JsValue>>): (s: Store<T>)
    ensures Valid(s) && s.subscribers == map[]
    ensures initialData.Some? ==> s.data == initialData.value
    ensures initialData.None? ==> s.data == map[]
  {
    Store(if initialData.Some? then initialData.value else map[], map[])
  }

  /** `get(dataKey)`: the stored value, whatever it is, or `undefined` when unset. */
  function Get<T>(s: Store<T>, k: Key): (v: JsValue)
    ensures v != Undefined <==> k in s.data && s.data[k] != Undefined
    ensures k in s.data ==> v == s.data[k]
  {
    if k in s.data && s.data[k] != Undefined then s.data[k] else Undefined
  }

  /** `getKeys()`, as a set: the enumeration order is not modelled. */
  function GetKeys<T>(s: Store<T>): (keys: set<Key>)
    ensures forall k :: k in keys <==> k in s.data
  {
    s.data.Keys
  }

  /** The ids of `subs` in `[lo, hi)`, in ascending order. */
  function IdsBetween<T>(subs: map<int, T>, lo: int, hi: int): (ids: seq<int>)
    ensures forall i :: 0 <= i < |ids| ==> ids[i] in subs && lo <= ids[i] < hi
    ensures forall i, j :: 0 <= i < j < |ids| ==> ids[i] < ids[j]
    decreases hi - lo
  {
    if lo >= hi then []
    else (if lo in subs then [lo] else []) + IdsBetween(subs, lo + 1, hi)
  }

  /** Every id of `subs` in `[lo, hi)` is listed. */
  lemma {:induction false} IdsBetweenComplete<T>(subs: map<int, T>, lo: int, hi: int, id: int)
    requires id in subs && lo <= id < hi
    ensures id in IdsBetween(subs, lo, hi)
    decreases hi - lo
  {
    if id > lo {
      IdsBetweenComplete(subs, lo + 1, hi, id);
    }
  }

  /** The ids `Object.values` visits in a bag: array-index keys come in ascending order. */
  function LiveIds<T>(b: Bag<T>): seq<int>
  {
    IdsBetween(b.subs, 0, b.last + 1)
  }

  /** The calls made for the ids `ids`, each with `(newValue, oldValue)`. */
  function CallsFor<T>(b: Bag<T>, ids: seq<int>, newValue: JsValue, oldValue: JsValue): (calls: seq<Call<T>>)
    requires forall i :: 0 <= i < |ids| ==> ids[i] in b.subs
    ensures |calls| == |ids|
    ensures forall i :: 0 <= i < |ids| ==>
      calls[i] == Call(ids[i], b.subs[ids[i]], newValue, oldValue)
  {
    if |ids| == 0 then []
    else [Call(ids[0], b.subs[ids[0]], newValue, oldValue)] + CallsFor(b, ids[1..], newValue, oldValue)
  }

  /**
   * `set(dataKey, newValue)`: a falsy key or an `undefined` value is refused;
   * otherwise the value is stored and every subscriber of that key is called
   * with `(newValue, oldValue)`, in ascending id order, whether or not the
   * value changed.
   */
  function Set<T>(s: Store<T>, k: Key, v: JsValue): (r: Published<T>)
    ensures k == "" || v == Undefined ==> r == Published(s, [])
    ensures k != "" && v != Undefined ==>
      r.store == Store(s.data[k := v], s.subscribers)
    ensures forall i :: 0 <= i < |r.calls| ==>
      && k in s.subscribers
      && r.calls[i].id in s.subscribers[k].subs
      && r.calls[i].callback == s.subscribers[k].subs[r.calls[i].id]
      && r.calls[i].newValue == v
      && r.calls[i].oldValue == Get(s, k)
    ensures forall i, j :: 0 <= i < j < |r.calls| ==> r.calls[i].id < r.calls[j].id
  {
    if k == "" || v == Undefined then Published(s, [])
    else
      var oldValue := if k in s.data then s.data[k] else Undefined;
      var bag := BagOf(s, k);
      var ids := if k in s.subscribers then LiveIds(bag) else [];
      Published(Store(s.data[k := v], s.subscribers), CallsFor(bag, ids, v, oldValue))
  }

  /**
   * `subscribe(dataKey, callback)`: a falsy key, or a callback that is not a
   * function (`None`), registers nothing and returns `undefined`; otherwise
   * the callback is stored under the next id of that key's bag, which is
   * returned.
   */
  function Subscribe<T>(s: Store<T>, k: Key, callback: Option<T>): (r: Subscribed<T>)
    ensures k == "" || callback.None? ==> r == Subscribed(s, None)
    ensures k != "" && callback.Some? ==>
      && r.id == Some(BagOf(s, k).last + 1)
      && r.store.data == s.data
      && k in r.store.subscribers
      && r.store.subscribers[k] == Bag(BagOf(s, k).last + 1, BagOf(s, k).subs[BagOf(s, k).last + 1 := callback.value])
      && (forall k' :: k' != k ==> (k' in r.store.subscribers <==> k' in s.subscribers))
      && (forall k' :: k' != k && k' in s.subscribers ==> r.store.subscribers[k'] == s.subscribers[k'])
    ensures Valid(s) ==> Valid(r.store)
  {
    if k == "" || callback.None? then Subscribed(s, None)
    else
      var bag := BagOf(s, k);
      var id := bag.last + 1;
      Subscribed(s.(subscribers := s.subscribers[k := Bag(id, bag.subs[id := callback.value])]), Some(id))
  }

  /**
   * `unsubscribe(dataKey, subscriberId)`: a falsy key, or an id the key's
   * bag does not hold, is refused; a key that never had a subscriber makes
   * the error report itself throw (`Object.keys(undefined)`); otherwise
   * exactly that subscriber is removed.
   */
  function Unsubscribe<T>(s: Store<T>, k: Key, id: int): (r: Unsubscribed<T>)
    ensures k == "" ==> r == Unsubscribed(s, Rejected)
    ensures k != "" && k !in s.subscribers ==> r == Unsubscribed(s, Threw)
    ensures k != "" && k in s.subscribers && id !in s.subscribers[k].subs ==> r == Unsubscribed(s, Rejected)
    ensures k != "" && k in s.subscribers && id in s.subscribers[k].subs ==>
      && r.outcome == Done
      && r.store.data == s.data
      && r.store.subscribers.Keys == s.subscribers.Keys
      && r.store.subscribers[k].last == s.subscribers[k].last
      && r.store.subscribers[k].subs == s.subscribers[k].subs - {id}
      && forall k' :: k' != k && k' in s.subscribers ==> r.store.subscribers[k'] == s.subscribers[k']
    ensures Valid(s) ==> Valid(r.store)
  {
    if k == "" then Unsubscribed(s, Rejected)
    else if k !in s.subscribers then Unsubscribed(s, Threw)
    else if id !in s.subscribers[k].subs then Unsubscribed(s, Rejected)
    else
      var bag := s.subscribers[k];
      Unsubscribed(s.(subscribers := s.subscribers[k := bag.(subs := bag.subs - {id})]), Done)
  }

  // ---------------------------------------------------------------------
  // Properties relating several operations
  // ---------------------------------------------------------------------

  /** Whatever `set` accepts, `get` gives back, including `null`, `false`, `0` and `''`. */
  lemma GetAfterSet<T>(s: Store<T>, k: Key, v: JsValue, other: Key)
    requires k != "" && v != Undefined
    ensures Get(Set(s, k, v).store, k) == v
    ensures other != k ==> Get(Set(s, k, v).store, other) == Get(s, other)
    ensures GetKeys(Set(s, k, v).store) == GetKeys(s) + {k}
  {
  }

  /** The ids called by a valid store's `set`, as a set. */
  function CalledIds<T>(calls: seq<Call<T>>): set<int>
  {
    set i | 0 <= i < |calls| :: calls[i].id
  }

  /** Notifying a valid bag reaches every subscriber it holds. */
  lemma NotifyReachesAll<T>(bag: Bag<T>, v: JsValue, oldValue: JsValue)
    requires BagValid(bag)
    ensures bag.subs.Keys <= CalledIds(CallsFor(bag, LiveIds(bag), v, oldValue))
  {
    var ids := LiveIds(bag);
    var calls := CallsFor(bag, ids, v, oldValue);
    forall id | id in bag.subs
      ensures id in CalledIds(calls)
    {
      IdsBetweenComplete(bag.subs, 0, bag.last + 1, id);
      var i :| 0 <= i < |ids| && ids[i] == id;
      assert calls[i].id == id;
    }
  }

  /** Notifying a valid bag calls each of its subscribers exactly once. */
  lemma NotifyCallsEachOnce<T>(bag: Bag<T>, v: JsValue, oldValue: JsValue)
    requires BagValid(bag)
    ensures CalledIds(CallsFor(bag, LiveIds(bag), v, oldValue)) == bag.subs.Keys
    ensures |CallsFor(bag, LiveIds(bag), v, oldValue)| == |bag.subs|
  {
    var ids := LiveIds(bag);
    var calls := CallsFor(bag, ids, v, oldValue);
    NotifyReachesAll(bag, v, oldValue);
    CallsAscend(bag, v, oldValue);
    InjectiveCount(calls);
    SameCount(calls, bag.subs);
  }

  /** The calls of a notification go out in strictly ascending id order. */
  lemma CallsAscend<T>(bag: Bag<T>, v: JsValue, oldValue: JsValue)
    requires BagValid(bag)
    ensures var calls := CallsFor(bag, LiveIds(bag), v, oldValue);
      forall i, j :: 0 <= i < j < |calls| ==> calls[i].id < calls[j].id
  {
    var ids := LiveIds(bag);
    var calls := CallsFor(bag, ids, v, oldValue);
    forall i, j | 0 <= i < j < |calls| ensures calls[i].id < calls[j].id {
      assert calls[i].id == ids[i] && calls[j].id == ids[j];
    }
  }

  /** Calls with distinct ids, one per key of `m`, number as many as `m`'s entries. */
  lemma SameCount<T>(calls: seq<Call<T>>, m: map<int, T>)
    requires CalledIds(calls) == m.Keys
    requires |CalledIds(calls)| == |calls|
    ensures |calls| == |m|
  {
  }

  /** In a valid store `set` calls every live subscriber of the key, each exactly once. */
  lemma SetCallsEverySubscriber<T>(s: Store<T>, k: Key, v: JsValue)
    requires Valid(s) && k != "" && v != Undefined && k in s.subscribers
    ensures CalledIds(Set(s, k, v).calls) == s.subscribers[k].subs.Keys
    ensures |Set(s, k, v).calls| == |s.subscribers[k].subs|
  {
    var bag := s.subscribers[k];
    assert Set(s, k, v).calls == CallsFor(bag, LiveIds(bag), v, Get(s, k));
    NotifyCallsEachOnce(bag, v, Get(s, k));
  }

  /** Setting a key to the value it already holds still calls each of its subscribers once. */
  lemma SetNotifiesEvenWhenUnchanged<T>(s: Store<T>, k: Key, v: JsValue)
    requires Valid(s) && k != "" && v != Undefined && Get(s, k) == v
    requires k in s.subscribers
    ensures |Set(s, k, v).calls| == |s.subscribers[k].subs|
    ensures forall i :: 0 <= i < |Set(s, k, v).calls| ==>
      Set(s, k, v).calls[i].newValue == Set(s, k, v).calls[i].oldValue == v
  {
    SetCallsEverySubscriber(s, k, v);
  }

  /** Strictly ascending ids are pairwise distinct, so there are as many calls as ids. */
  lemma {:induction false} InjectiveCount<T>(calls: seq<Call<T>>)
    requires forall i, j :: 0 <= i < j < |calls| ==> calls[i].id < calls[j].id
    ensures |CalledIds(calls)| == |calls|
  {
    if |calls| > 0 {
      var rest := calls[1..];
      InjectiveCount(rest);
      CalledIdsCons(calls);
      assert calls[0].id !in CalledIds(rest) by {
        forall x | x in CalledIds(rest) ensures x != calls[0].id {
          var i :| 0 <= i < |rest| && rest[i].id == x;
          assert rest[i] == calls[i + 1];
        }
      }
    }
  }

  /** The ids of a non-empty call list: the first one and those of the rest. */
  lemma CalledIdsCons<T>(calls: seq<Call<T>>)
    requires |calls| > 0
    ensures CalledIds(calls) == {calls[0].id} + CalledIds(calls[1..])
  {
    var rest := calls[1..];
    forall x | x in CalledIds(calls) ensures x in {calls[0].id} + CalledIds(rest) {
      var i :| 0 <= i < |calls| && calls[i].id == x;
      if i > 0 { assert rest[i - 1].id == x; }
    }
    forall x | x in CalledIds(rest) ensures x in CalledIds(calls) {
      var i :| 0 <= i < |rest| && rest[i].id == x;
      assert calls[i + 1].id == x;
    }
  }

  /** Subscriber ids of a key count up from 0: the first two subscriptions get 0 and 1. */
  lemma IdsCountFromZero<T>(s: Store<T>, k: Key, a: T, b: T)
    requires k != "" && k !in s.subscribers
    ensures Subscribe(s, k, Some(a)).id == Some(0)
    ensures Subscribe(Subscribe(s, k, Some(a)).store, k, Some(b)).id == Some(1)
  {
  }

  /** A fresh id exceeds every id the bag holds, so an id is never handed out twice,
      not even after it has been unsubscribed. */
  lemma IdsNeverReused<T>(s: Store<T>, k: Key, id: int, c: T)
    requires Valid(s) && k != ""
    ensures var u := Unsubscribe(s, k, id).store;
      Subscribe(u, k, Some(c)).id.value > id || id !in BagOf(s, k).subs
    ensures forall prior :: prior in BagOf(s, k).subs ==> Subscribe(s, k, Some(c)).id.value > prior
  {
  }

  /** Subscribing and then unsubscribing the returned id leaves the same live
      subscribers and the same data. */
  lemma SubscribeThenUnsubscribe<T>(s: Store<T>, k: Key, c: T)
    requires Valid(s) && k != ""
    ensures var sub := Subscribe(s, k, Some(c));
      var un := Unsubscribe(sub.store, k, sub.id.value);
      && un.outcome == Done
      && un.store.data == s.data
      && un.store.subscribers[k].subs == BagOf(s, k).subs
  {
    var bag := BagOf(s, k);
    assert bag.last + 1 !in bag.subs;
    assert bag.subs[bag.last + 1 := c] - {bag.last + 1} == bag.subs;
  }

  /** `lastSubscriberIndex` never goes down, whatever the operation. */
  lemma LastNeverDecreases<T>(s: Store<T>, k: Key, v: JsValue, c: Option<T>, id: int, key: Key)
    requires Valid(s)
    ensures BagOf(Set(s, k, v).store, key).last == BagOf(s, key).last
    ensures BagOf(Subscribe(s, k, c).store, key).last >= BagOf(s, key).last
    ensures BagOf(Unsubscribe(s, k, id).store, key).last == BagOf(s, key).last
  {
  }
}
