/**
 * The publish/subscribe registry of src/lib/pubsub.js: a dictionary from
 * event name to the ordered list of callbacks subscribed to it.
 */
module Events {

  import opened Wrappers

  /**
   * A subscriber callback. Callbacks are only stored, compared by position
   * and called, so an identifier stands for the function value.
   */
  type Callback = nat

  type Registry = map<string, seq<Callback>>

  /** The list registered under `name`, or the empty list when there is none. */
  function Listeners(events: Registry, name: string): seq<Callback>
  {
    if name in events then events[name] else []
  }

  /** One step of `subscribe`'s `forEach`: create the list if missing, then push. */
  function Push(events: Registry, name: string, cb: Callback): (r: Registry)
    ensures r.Keys == events.Keys + {name}
  {
    events[name := Listeners(events, name) + [cb]]
  }

  /** The registry after subscribing `cb` to each of `names`, in order. */
  function Subscribed(events: Registry, names: seq<string>, cb: Callback): Registry
    decreases |names|
  {
    if names == [] then events
    else Push(Subscribed(events, names[..|names| - 1], cb), names[|names| - 1], cb)
  }

  /** How many times `name` occurs in `names`. */
  function Count(names: seq<string>, name: string): (n: nat)
    ensures n <= |names|
    ensures n == 0 <==> name !in names
    decreases |names|
  {
    if names == [] then 0
    else Count(names[..|names| - 1], name) + (if names[|names| - 1] == name then 1 else 0)
  }

  /** `k` copies of `cb`. */
  function Repeat(cb: Callback, k: nat): (r: seq<Callback>)
    ensures |r| == k && forall i :: 0 <= i < k ==> r[i] == cb
  {
    if k == 0 then [] else Repeat(cb, k - 1) + [cb]
  }

  /**
   * After `subscribe(names, cb)`, a name has a list exactly when it had one
   * before or is listed.
   */
  lemma {:induction false} SubscribedKeys(events: Registry, names: seq<string>, cb: Callback, name: string)
    ensures name in Subscribed(events, names, cb) <==> name in events || name in names
    decreases |names|
  {
    if names != [] {
      var init, last := names[..|names| - 1], names[|names| - 1];
      assert names == init + [last];
      SubscribedKeys(events, init, cb, name);
      PushListeners(Subscribed(events, init, cb), last, cb, name);
    }
  }

  /**
   * After `subscribe(names, cb)`, a name's list is the old one (or the
   * empty list) followed by one copy of `cb` per occurrence of the name in
   * `names`: lists of unlisted names are untouched and duplicates are kept.
   */
  lemma {:induction false} SubscribedLists(events: Registry, names: seq<string>, cb: Callback, name: string)
    ensures Listeners(Subscribed(events, names, cb), name)
         == Listeners(events, name) + Repeat(cb, Count(names, name))
    decreases |names|
  {
    if names != [] {
      var init, last := names[..|names| - 1], names[|names| - 1];
      SubscribedLists(events, init, cb, name);
      PushListeners(Subscribed(events, init, cb), last, cb, name);
      var before := Listeners(events, name);
      var k := Count(init, name);
      if last == name {
        assert Repeat(cb, k + 1) == Repeat(cb, k) + [cb];
        assert before + Repeat(cb, k) + [cb] == before + (Repeat(cb, k) + [cb]);
      }
    }
  }

  /** One push adds `cb` to the list of its own name only. */
  lemma PushListeners(events: Registry, pushed: string, cb: Callback, name: string)
    ensures name in Push(events, pushed, cb) <==> name in events || name == pushed
    ensures Listeners(Push(events, pushed, cb), name)
         == Listeners(events, name) + (if name == pushed then [cb] else [])
  {
  }

  /** Subscribing with an empty list of names leaves the registry as it was. */
  lemma SubscribeNothing(events: Registry, cb: Callback)
    ensures Subscribed(events, [], cb) == events
  {
  }

  /**
   * A name listed twice gets the callback twice, and subscribing the same
   * callback again adds it once more.
   */
  lemma {:induction false} DuplicatesKept(events: Registry, name: string, cb: Callback)
    ensures Listeners(Subscribed(events, [name, name], cb), name) == Listeners(events, name) + [cb, cb]
    ensures Listeners(Subscribed(Subscribed(events, [name], cb), [name], cb), name)
         == Listeners(events, name) + [cb, cb]
  {
    SubscribedLists(events, [name, name], cb, name);
    assert [name, name][..1] == [name];
    assert Count([name, name], name) == 2;
    assert Repeat(cb, 2) == [cb, cb];
    SubscribedLists(events, [name], cb, name);
    SubscribedLists(Subscribed(events, [name], cb), [name], cb, name);
    assert Count([name], name) == 1;
  }

  class PubSub {

    var events: Registry

    /** A registry with no event. */
    constructor ()
      ensures events == map[]
    {
      events := map[];
    }

    /**
     * Appends `callback` to the list of every name in `names`, in order,
     * creating the lists that are missing.
     */
    method Subscribe(names: seq<string>, callback: Callback)
      modifies this
      ensures events == Subscribed(old(events), names, callback)
    {
      if |names| > 0 {
        var i := 0;
        while i < |names|
          invariant 0 <= i <= |names|
          invariant events == Subscribed(old(events), names[..i], callback)
        {
          assert names[..i + 1][..i] == names[..i];
          events := Push(events, names[i], callback);
          i := i + 1;
        }
        assert names[..|names|] == names;
      }
    }

    /**
     * Calls every callback registered under `name` once, in registration
     * order, all on the same `data` (`run` is what calling a callback
     * returns), and gives back their results; `None` (the source's
     * `undefined`) when the name has no list. The registry is not changed.
     */
    method Publish<D, R>(name: string, data: D, run: (Callback, D) -> R) returns (results: Option<seq<R>>)
      ensures results.None? <==> name !in events
      ensures results.Some? ==>
        |results.value| == |events[name]|
        && forall i :: 0 <= i < |results.value| ==> results.value[i] == run(events[name][i], data)
    {
      if name !in events {
        return None;
      }
      var cbs := events[name];
      var out: seq<R> := [];
      var i := 0;
      while i < |cbs|
        invariant 0 <= i <= |cbs|
        invariant |out| == i && forall j :: 0 <= j < i ==> out[j] == run(cbs[j], data)
      {
        out := out + [run(cbs[i], data)];
        i := i + 1;
      }
      return Some(out);
    }
  }
}
