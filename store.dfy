/**
 * The central store of src/lib/store.js: a state object behind a write trap,
 * tables of actions and mutations, a `status` flag driven by `dispatch`,
 * `commit` and the trap, and a PubSub registry notified after each commit.
 */
module StateStore {

  import opened Wrappers
  import opened ColorSpace
  import Events

  /** The `status` field: `'resting'`, `'action'` or `'mutation'`. */
  datatype Status = Resting | InAction | InMutation

  /** A top-level value of the colour picker's state object. */
  datatype Value =
    | RgbValue(rgb: Rgb)
    | HsvValue(hsv: Hsv)
    | Number(x: real)
    | Text(s: string)

  /** The state object: top-level property name to value. */
  type State = map<string, Value>

  /**
   * An action function `(context, payload) => context.commit(mutation, payload)`:
   * the only shape the actions of the colour picker take.
   */
  datatype Action = Commits(mutation: string)

  /**
   * A mutation function `(state, payload) => { state.k1 = payload; ... }`:
   * it assigns the payload to the listed top-level keys, in order.
   */
  datatype Mutation = Assigns(keys: seq<string>)

  /**
   * What the store makes observable: the diagnostics it writes to the
   * console, and each `publish` with the callbacks it invokes and the
   * state they see.
   */
  datatype Effect =
    | UseAMutation(key: string)
    | NoSuchAction(action: string)
    | NoSuchMutation(mutation: string)
    | Notified(event: string, callbacks: seq<Events.Callback>, seen: State)

  /** Everything `dispatch`, `commit` and the trap read or write. */
  datatype Snapshot = Snapshot(
    actions: map<string, Action>,
    mutations: map<string, Mutation>,
    state: State,
    status: Status,
    subscribers: Events.Registry,
    trace: seq<Effect>)

  // ------------------------------------------------------------------ //
  //                      The operations, as values                      //
  // ------------------------------------------------------------------ //

  /**
   * The Proxy `set` trap: store the value, warn unless a mutation is in
   * progress, and go back to resting.
   */
  function Trap(m: Snapshot, key: string, value: Value): Snapshot
  {
    m.(state := m.state[key := value],
       status := Resting,
       trace := m.trace + (if m.status != InMutation then [UseAMutation(key)] else []))
  }

  /** The trapped writes a mutation makes, in order. */
  function WriteAll(m: Snapshot, keys: seq<string>, value: Value): Snapshot
    decreases |keys|
  {
    if keys == [] then m
    else Trap(WriteAll(m, keys[..|keys| - 1], value), keys[|keys| - 1], value)
  }

  /**
   * `commit(key, payload)`: an unknown mutation is reported and `false`
   * returned; a known one runs with `status = 'mutation'`, then the event
   * of its name is published once and `true` returned.
   */
  function CommitStep(m: Snapshot, key: string, payload: Value): (Snapshot, bool)
  {
    if key !in m.mutations then
      (m.(trace := m.trace + [NoSuchMutation(key)]), false)
    else
      var w := WriteAll(m.(status := InMutation), m.mutations[key].keys, payload);
      (w.(trace := w.trace + [Notified(key, Events.Listeners(m.subscribers, key), w.state)]), true)
  }

  /**
   * `dispatch(key, payload)`: an unknown action is reported and `false`
   * returned; a known one runs with `status = 'action'` and `true` is
   * returned whatever its commit returned.
   */
  function DispatchStep(m: Snapshot, key: string, payload: Value): (Snapshot, bool)
  {
    if key !in m.actions then
      (m.(trace := m.trace + [NoSuchAction(key)]), false)
    else
      ((CommitStep(m.(status := InAction), m.actions[key].mutation, payload)).0, true)
  }

  // ------------------------------------------------------------------ //
  //                        What the operations keep                     //
  // ------------------------------------------------------------------ //

  /**
   * The trap never blocks a write: the value is stored, other keys keep
   * theirs, the status ends resting, and a warning is raised exactly when
   * no mutation was in progress.
   */
  lemma TrapStores(m: Snapshot, key: string, value: Value)
    ensures var t := Trap(m, key, value);
      && t.state[key] == value
      && (forall k :: k in m.state && k != key ==> k in t.state && t.state[k] == m.state[k])
      && t.status == Resting
      && (t.trace == m.trace + [UseAMutation(key)] <==> m.status != InMutation)
      && (t.trace == m.trace <==> m.status == InMutation)
      && t.actions == m.actions && t.mutations == m.mutations && t.subscribers == m.subscribers
  {
  }

  /**
   * A mutation's writes store the payload under each of its keys and leave
   * every other key alone; tables and subscribers do not change.
   */
  lemma {:induction false} WriteAllStores(m: Snapshot, keys: seq<string>, value: Value)
    ensures var w := WriteAll(m, keys, value);
      && (forall k :: k in w.state <==> k in m.state || k in keys)
      && (forall k :: k in keys ==> k in w.state && w.state[k] == value)
      && (forall k :: k in m.state && k !in keys ==> k in w.state && w.state[k] == m.state[k])
      && w.actions == m.actions && w.mutations == m.mutations && w.subscribers == m.subscribers
    decreases |keys|
  {
    if keys != [] {
      var init := keys[..|keys| - 1];
      assert keys == init + [keys[|keys| - 1]];
      WriteAllStores(m, init, value);
    }
  }

  /**
   * Because the trap goes back to resting after every write, a mutation
   * that assigns two top-level keys gets the second write flagged, even
   * though it runs inside `commit`.
   */
  lemma SecondWriteFlagged(m: Snapshot, k1: string, k2: string, value: Value)
    requires m.status == InMutation
    ensures WriteAll(m, [k1, k2], value).trace == m.trace + [UseAMutation(k2)]
  {
    assert [k1, k2][..1] == [k1];
    assert [k1][..0] == [];
    assert WriteAll(m, [k1], value) == Trap(m, k1, value);
  }

  /**
   * A mutation that makes exactly one top-level write ends resting and
   * raises no warning.
   */
  lemma SingleWriteQuiet(m: Snapshot, key: string, value: Value)
    requires m.status == InMutation
    ensures var w := WriteAll(m, [key], value);
      w.trace == m.trace && w.status == Resting && w.state == m.state[key := value]
  {
    assert [key][..0] == [];
  }

  /**
   * An unknown action returns `false` and changes neither the state nor
   * the status; only the error is reported.
   */
  lemma UnknownAction(m: Snapshot, key: string, payload: Value)
    requires key !in m.actions
    ensures var (n, ok) := DispatchStep(m, key, payload);
      !ok && n.state == m.state && n.status == m.status && n.trace == m.trace + [NoSuchAction(key)]
  {
  }

  /**
   * A known action returns `true` even when the mutation it commits does
   * not exist; then the state is unchanged and the status stays `'action'`.
   */
  lemma KnownActionSucceeds(m: Snapshot, key: string, payload: Value)
    requires key in m.actions
    ensures DispatchStep(m, key, payload).1
    ensures m.actions[key].mutation !in m.mutations ==>
      var n := DispatchStep(m, key, payload).0;
      n.state == m.state && n.status == InAction
      && n.trace == m.trace + [NoSuchMutation(m.actions[key].mutation)]
  {
  }

  /**
   * An unknown mutation returns `false`, applies and publishes nothing and
   * leaves the status as it was.
   */
  lemma UnknownMutation(m: Snapshot, key: string, payload: Value)
    requires key !in m.mutations
    ensures var (n, ok) := CommitStep(m, key, payload);
      !ok && n.state == m.state && n.status == m.status && n.trace == m.trace + [NoSuchMutation(key)]
  {
  }

  /**
   * A known mutation returns `true`, and the event of its name is published
   * exactly once, after all of the mutation's writes: the subscribers see
   * the payload under every key the mutation assigns.
   */
  lemma {:induction false} CommitPublishesAfter(m: Snapshot, key: string, payload: Value)
    requires key in m.mutations
    ensures var (n, ok) := CommitStep(m, key, payload);
      && ok
      && |n.trace| >= |m.trace| + 1
      && n.trace[..|n.trace| - 1] == WriteAll(m.(status := InMutation), m.mutations[key].keys, payload).trace
      && n.trace[|n.trace| - 1] == Notified(key, Events.Listeners(m.subscribers, key), n.state)
      && forall k :: k in m.mutations[key].keys ==> k in n.state && n.state[k] == payload
  {
    var w := WriteAll(m.(status := InMutation), m.mutations[key].keys, payload);
    WriteAllStores(m.(status := InMutation), m.mutations[key].keys, payload);
    WriteAllGrows(m.(status := InMutation), m.mutations[key].keys, payload);
    assert (w.trace + [Notified(key, Events.Listeners(m.subscribers, key), w.state)])[..|w.trace|] == w.trace;
  }

  /** The writes only append to the trace. */
  lemma {:induction false} WriteAllGrows(m: Snapshot, keys: seq<string>, value: Value)
    ensures |WriteAll(m, keys, value).trace| >= |m.trace|
    decreases |keys|
  {
    if keys != [] {
      WriteAllGrows(m, keys[..|keys| - 1], value);
    }
  }

  // ------------------------------------------------------------------ //
  //                              The class                              //
  // ------------------------------------------------------------------ //

  /** The constructor's `params`; a missing property is `None`. */
  datatype Params = Params(
    actions: Option<map<string, Action>>,
    mutations: Option<map<string, Mutation>>,
    state: Option<State>)

  class Store {

    var actions: map<string, Action>
    var mutations: map<string, Mutation>
    var state: State
    var status: Status
    var trace: seq<Effect>
    const events: Events.PubSub

    /** The store as a value, for the specification functions above. */
    function Current(): Snapshot
      reads this, events
    {
      Snapshot(actions, mutations, state, status, events.events, trace)
    }

    /**
     * Starts resting, with an empty registry, the supplied tables or empty
     * ones, and the supplied state or an empty one.
     */
    constructor (params: Params)
      ensures status == Resting && trace == []
      ensures actions == (if params.actions.Some? then params.actions.value else map[])
      ensures mutations == (if params.mutations.Some? then params.mutations.value else map[])
      ensures state == (if params.state.Some? then params.state.value else map[])
      ensures fresh(events) && events.events == map[]
    {
      actions := if params.actions.Some? then params.actions.value else map[];
      mutations := if params.mutations.Some? then params.mutations.value else map[];
      state := if params.state.Some? then params.state.value else map[];
      status := Resting;
      trace := [];
      events := new Events.PubSub();
    }

    /** A top-level write `store.state[key] = value`, which goes through the trap. */
    method Set(key: string, value: Value)
      modifies this`state, this`status, this`trace
      ensures Current() == Trap(old(Current()), key, value)
    {
      state := state[key := value];
      if status != InMutation {
        trace := trace + [UseAMutation(key)];
      }
      status := Resting;
    }

    /** `commit(key, payload)`. */
    method Commit(key: string, payload: Value) returns (ok: bool)
      modifies this`state, this`status, this`trace
      ensures (Current(), ok) == CommitStep(old(Current()), key, payload)
    {
      if key !in mutations {
        trace := trace + [NoSuchMutation(key)];
        return false;
      }
      status := InMutation;
      ghost var start := Current();
      var keys := mutations[key].keys;
      var i := 0;
      while i < |keys|
        invariant 0 <= i <= |keys|
        invariant mutations == old(mutations) && actions == old(actions)
        invariant Current() == WriteAll(start, keys[..i], payload)
      {
        assert keys[..i + 1][..i] == keys[..i];
        Set(keys[i], payload);
        i := i + 1;
      }
      assert keys[..|keys|] == keys;
      var called := events.Publish(key, (), (cb: Events.Callback, data: ()) => cb);
      var callbacks := if called.Some? then called.value else [];
      assert callbacks == Events.Listeners(events.events, key);
      trace := trace + [Notified(key, callbacks, state)];
      return true;
    }

    /** `dispatch(key, payload)`. */
    method Dispatch(key: string, payload: Value) returns (ok: bool)
      modifies this`state, this`status, this`trace
      ensures (Current(), ok) == DispatchStep(old(Current()), key, payload)
    {
      if key !in actions {
        trace := trace + [NoSuchAction(key)];
        return false;
      }
      status := InAction;
      var _ := Commit(actions[key].mutation, payload);
      return true;
    }
  }
}
