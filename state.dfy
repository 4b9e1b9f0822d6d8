/**
 * The editor's keyed store: a key/value map and a list of subscribers,
 * each registered for one key with one callback.  A callback is known by
 * its identity only; calling it is modelled by reporting which callback
 * was invoked, in order.
 */
module Store {
  import opened Wrappers

  /** A JavaScript value as far as subscribe() inspects it: a string, a function (by identity) or anything else. */
  datatype JsValue = JsString(s: string) | JsFunction(fn: nat) | JsOther

  /** One entry of the subscriber list. */
  datatype Subscriber = Subscriber(key: string, callback: nat)

  /** The outcome of subscribe(): it returns normally or throws an Error with a message. */
  datatype Outcome = Done | Failed(message: string)

  const KeyNotString := "The key must be a string"
  const CallbackNotFunction := "The callback must be a function"

  /** No (key, callback) pair appears twice in the list. */
  predicate NoDuplicates(subs: seq<Subscriber>)
  {
    forall i, j :: 0 <= i < j < |subs| ==> subs[i] != subs[j]
  }

  /** The list after subscribing `key` with `callback`: unchanged when the pair is present, else the pair appended. */
  function AfterSubscribe(subs: seq<Subscriber>, key: string, callback: nat): seq<Subscriber>
  {
    if Subscriber(key, callback) in subs then subs else subs + [Subscriber(key, callback)]
  }

  /** The list with every entry for `callback` removed, the rest in order. */
  function Without(subs: seq<Subscriber>, callback: nat): seq<Subscriber>
  {
    if |subs| == 0 then []
    else
      var last := subs[|subs| - 1];
      Without(subs[..|subs| - 1], callback) + (if last.callback != callback then [last] else [])
  }

  /**
   * The position of the first subscriber registered for `key`, if any:
   * what Array.prototype.find locates.
   */
  function FirstFor(subs: seq<Subscriber>, key: string): (r: Option<nat>)
    ensures r.Some? ==> r.value < |subs| && subs[r.value].key == key
    ensures r.Some? ==> forall j :: 0 <= j < r.value ==> subs[j].key != key
    ensures r.None? <==> forall j :: 0 <= j < |subs| ==> subs[j].key != key
  {
    if |subs| == 0 then None
    else if subs[0].key == key then Some(0)
    else
      match FirstFor(subs[1..], key)
      case None => None
      case Some(i) => Some(i + 1)
  }

  /** The callback notifySubscriber(key) invokes: that of the first subscriber for the key. */
  function FirstCallback(subs: seq<Subscriber>, key: string): Option<nat>
  {
    match FirstFor(subs, key)
    case None => None
    case Some(i) => Some(subs[i].callback)
  }

  /**
   * The store's data.  A stored value is opaque text; None is a stored
   * `undefined`, which reads back like a missing key.
   */
  type Data = map<string, Option<string>>

  /** this.data[key] !== undefined: the key holds a defined value. */
  predicate HasValue(data: Data, key: string)
  {
    key in data && data[key].Some?
  }

  /** The callbacks notifySubscribers() invokes, in list order: those whose key holds a defined value. */
  function Notified(subs: seq<Subscriber>, data: Data): seq<nat>
  {
    if |subs| == 0 then []
    else
      var last := subs[|subs| - 1];
      Notified(subs[..|subs| - 1], data) + (if HasValue(data, last.key) then [last.callback] else [])
  }

  // ------------------------------------------------------------ properties

  /** Subscribing keeps the list free of duplicate pairs. */
  lemma SubscribeKeepsNoDuplicates(subs: seq<Subscriber>, key: string, callback: nat)
    requires NoDuplicates(subs)
    ensures NoDuplicates(AfterSubscribe(subs, key, callback))
  {
    var s := Subscriber(key, callback);
    if s !in subs {
      var r := subs + [s];
      forall i, j | 0 <= i < j < |r|
        ensures r[i] != r[j]
      {
        if j == |subs| {
          assert r[i] == subs[i];
        }
      }
    }
  }

  /** Subscribing twice with the same pair is the same as subscribing once. */
  lemma SubscribeIdempotent(subs: seq<Subscriber>, key: string, callback: nat)
    ensures AfterSubscribe(AfterSubscribe(subs, key, callback), key, callback) == AfterSubscribe(subs, key, callback)
  {
    var s := Subscriber(key, callback);
    if s !in subs {
      assert (subs + [s])[|subs|] == s;
    }
  }

  /** A new pair lands at the end; every earlier entry stays where it was. */
  lemma SubscribeAppends(subs: seq<Subscriber>, key: string, callback: nat)
    requires Subscriber(key, callback) !in subs
    ensures |AfterSubscribe(subs, key, callback)| == |subs| + 1
    ensures AfterSubscribe(subs, key, callback)[|subs|] == Subscriber(key, callback)
    ensures AfterSubscribe(subs, key, callback)[..|subs|] == subs
  {
  }

  /** Unsubscribing keeps exactly the entries whose callback differs. */
  lemma {:induction false} WithoutMembers(subs: seq<Subscriber>, callback: nat)
    ensures forall s :: s in Without(subs, callback) <==> s in subs && s.callback != callback
  {
    if |subs| > 0 {
      var init := subs[..|subs| - 1];
      WithoutMembers(init, callback);
      assert subs == init + [subs[|subs| - 1]];
    }
  }

  /** Unsubscribing distributes over concatenation, so the kept entries keep their relative order. */
  lemma {:induction false} WithoutAppend(a: seq<Subscriber>, b: seq<Subscriber>, callback: nat)
    ensures Without(a + b, callback) == Without(a, callback) + Without(b, callback)
  {
    if |b| > 0 {
      var bi := b[..|b| - 1];
      assert (a + b)[..|a + b| - 1] == a + bi;
      WithoutAppend(a, bi, callback);
    } else {
      assert a + b == a;
    }
  }

  /** Unsubscribing a callback nobody registered leaves the list as it is. */
  lemma {:induction false} WithoutAbsent(subs: seq<Subscriber>, callback: nat)
    requires forall i :: 0 <= i < |subs| ==> subs[i].callback != callback
    ensures Without(subs, callback) == subs
  {
    if |subs| > 0 {
      WithoutAbsent(subs[..|subs| - 1], callback);
    }
  }

  /** Unsubscribing twice is the same as unsubscribing once. */
  lemma WithoutIdempotent(subs: seq<Subscriber>, callback: nat)
    ensures Without(Without(subs, callback), callback) == Without(subs, callback)
  {
    var w := Without(subs, callback);
    WithoutMembers(subs, callback);
    forall i | 0 <= i < |w|
      ensures w[i].callback != callback
    {
      assert w[i] in w;
    }
    WithoutAbsent(w, callback);
  }

  /** When every subscribed key holds a defined value, every subscriber is notified, in list order. */
  lemma {:induction false} AllKeysSetNotifiesAll(subs: seq<Subscriber>, data: Data)
    requires forall i :: 0 <= i < |subs| ==> HasValue(data, subs[i].key)
    ensures |Notified(subs, data)| == |subs|
    ensures forall i :: 0 <= i < |subs| ==> Notified(subs, data)[i] == subs[i].callback
  {
    if |subs| > 0 {
      AllKeysSetNotifiesAll(subs[..|subs| - 1], data);
    }
  }

  /** With no value set, notifySubscribers() invokes nobody. */
  lemma {:induction false} EmptyDataNotifiesNobody(subs: seq<Subscriber>)
    ensures Notified(subs, map[]) == []
  {
    if |subs| > 0 {
      EmptyDataNotifiesNobody(subs[..|subs| - 1]);
    }
  }

  /** A callback invoked by notifySubscribers() belongs to a subscriber whose key holds a defined value. */
  lemma {:induction false} NotifiedAreSubscribed(subs: seq<Subscriber>, data: Data, cb: nat)
    requires cb in Notified(subs, data)
    ensures exists i :: 0 <= i < |subs| && subs[i].callback == cb && HasValue(data, subs[i].key)
  {
    var init := subs[..|subs| - 1];
    var last := subs[|subs| - 1];
    if cb in Notified(init, data) {
      NotifiedAreSubscribed(init, data, cb);
      var i :| 0 <= i < |init| && init[i].callback == cb && HasValue(data, init[i].key);
      assert subs[i] == init[i];
    } else {
      assert subs[|subs| - 1].callback == cb && HasValue(data, last.key);
    }
  }

  /** A key holding `undefined` notifies exactly as if the key were missing. */
  lemma {:induction false} UndefinedIsLikeMissing(subs: seq<Subscriber>, data: Data, key: string)
    ensures Notified(subs, data[key := None]) == Notified(subs, data - {key})
  {
    if |subs| > 0 {
      UndefinedIsLikeMissing(subs[..|subs| - 1], data, key);
      var k := subs[|subs| - 1].key;
      assert HasValue(data[key := None], k) == HasValue(data - {key}, k);
    }
  }

  // ------------------------------------------------------------ the store

  class State {
    var data: Data
    var subscribers: seq<Subscriber>

    constructor()
      ensures data == map[] && subscribers == []
    {
      data := map[];
      subscribers := [];
    }

    /** getValue(): the value stored under the key; undefined for a missing key or a stored undefined. */
    function GetValue(key: string): (r: Option<string>)
      reads this
      ensures r.Some? <==> HasValue(data, key)
      ensures HasValue(data, key) ==> r == data[key]
    {
      if key in data then data[key] else None
    }

    /**
     * setValue(): store the value and notify the first subscriber for the
     * key, reporting the callback invoked.
     */
    method SetValue(key: string, value: Option<string>) returns (invoked: Option<nat>)
      modifies this
      ensures data == old(data)[key := value]
      ensures subscribers == old(subscribers)
      ensures GetValue(key) == value
      ensures forall k :: k != key ==> GetValue(k) == old(GetValue(k))
      ensures invoked == FirstCallback(subscribers, key)
    {
      data := data[key := value];
      invoked := NotifySubscriber(key);
    }

    /**
     * subscribe(): reject a key that is not a string or a callback that is
     * not a function; register a new pair at the end; ignore a pair
     * already registered.
     */
    method Subscribe(key: JsValue, callback: JsValue) returns (outcome: Outcome)
      modifies this
      ensures data == old(data)
      ensures !key.JsString? ==> outcome == Failed(KeyNotString) && subscribers == old(subscribers)
      ensures key.JsString? && !callback.JsFunction? ==>
        outcome == Failed(CallbackNotFunction) && subscribers == old(subscribers)
      ensures key.JsString? && callback.JsFunction? ==>
        outcome == Done && subscribers == AfterSubscribe(old(subscribers), key.s, callback.fn)
    {
      if !key.JsString? {
        return Failed(KeyNotString);
      }
      if !callback.JsFunction? {
        return Failed(CallbackNotFunction);
      }
      var entry := Subscriber(key.s, callback.fn);
      var i := 0;
      while i < |subscribers| && subscribers[i] != entry
        invariant 0 <= i <= |subscribers|
        invariant forall j :: 0 <= j < i ==> subscribers[j] != entry
      {
        i := i + 1;
      }
      if i == |subscribers| {
        subscribers := subscribers + [entry];
      }
      outcome := Done;
    }

    /** unsubscribe(): keep only the entries whose callback is not the given one. */
    method Unsubscribe(callback: nat)
      modifies this
      ensures data == old(data)
      ensures subscribers == Without(old(subscribers), callback)
    {
      var kept := [];
      var i := 0;
      while i < |subscribers|
        invariant 0 <= i <= |subscribers|
        invariant kept == Without(subscribers[..i], callback)
      {
        assert subscribers[..i + 1][..i] == subscribers[..i];
        if subscribers[i].callback != callback {
          kept := kept + [subscribers[i]];
        }
        i := i + 1;
      }
      assert subscribers[..i] == subscribers;
      subscribers := kept;
    }

    /** notifySubscriber(): invoke the first subscriber for the key, if there is one. */
    method NotifySubscriber(key: string) returns (invoked: Option<nat>)
      ensures invoked == FirstCallback(subscribers, key)
    {
      var i := 0;
      while i < |subscribers| && subscribers[i].key != key
        invariant 0 <= i <= |subscribers|
        invariant forall j :: 0 <= j < i ==> subscribers[j].key != key
      {
        i := i + 1;
      }
      if i < |subscribers| {
        invoked := Some(subscribers[i].callback);
      } else {
        invoked := None;
      }
    }

    /** notifySubscribers(): invoke, in list order, every subscriber whose key holds a defined value. */
    method NotifySubscribers() returns (invoked: seq<nat>)
      ensures invoked == Notified(subscribers, data)
    {
      invoked := [];
      var i := 0;
      while i < |subscribers|
        invariant 0 <= i <= |subscribers|
        invariant invoked == Notified(subscribers[..i], data)
      {
        assert subscribers[..i + 1][..i] == subscribers[..i];
        if subscribers[i].key in data && data[subscribers[i].key] != None {
          invoked := invoked + [subscribers[i].callback];
        }
        i := i + 1;
      }
      assert subscribers[..i] == subscribers;
    }
  }
}
