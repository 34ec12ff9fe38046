/**
 * The colour picker's own store (src/lib/state.js): four actions, each
 * committing the mutation of the same name, four mutations, each assigning
 * one top-level field, and the default state.
 */
module AppState {

  import opened Wrappers
  import opened ColorSpace
  import opened StateStore
  import Events

  /** The names of the four actions (and of the four mutations). */
  predicate IsActionName(name: string)
  {
    name == "set_rgb" || name == "set_hsv" || name == "set_alpha" || name == "set_dragging"
  }

  /** The top-level field the mutation `name` assigns. */
  function FieldOf(name: string): string
    requires IsActionName(name)
  {
    if name == "set_rgb" then "rgb"
    else if name == "set_hsv" then "hsv"
    else if name == "set_alpha" then "alpha"
    else "dragging"
  }

  /** The `actions` table: `set_X` commits `set_X` with the payload unchanged. */
  function Actions(): map<string, Action>
  {
    map["set_rgb" := Commits("set_rgb"),
        "set_hsv" := Commits("set_hsv"),
        "set_alpha" := Commits("set_alpha"),
        "set_dragging" := Commits("set_dragging")]
  }

  /** The `mutations` table: `set_X` assigns the payload to `state.X`. */
  function Mutations(): map<string, Mutation>
  {
    map["set_rgb" := Assigns(["rgb"]),
        "set_hsv" := Assigns(["hsv"]),
        "set_alpha" := Assigns(["alpha"]),
        "set_dragging" := Assigns(["dragging"])]
  }

  /** `defaultState`: black in both spaces, alpha 0, nothing dragged. */
  function DefaultState(): State
  {
    map["rgb" := RgbValue(Rgb(0, 0, 0)),
        "hsv" := HsvValue(Hsv(0.0, 0.0, 0.0)),
        "alpha" := Number(0.0),
        "dragging" := Text("")]
  }

  /**
   * The two tables hold exactly the four names; each action commits the
   * mutation of its own name, and each mutation assigns exactly one field.
   */
  lemma Tables(name: string)
    ensures name in Actions() <==> IsActionName(name)
    ensures name in Mutations() <==> IsActionName(name)
    ensures IsActionName(name) ==>
      Actions()[name] == Commits(name) && Mutations()[name] == Assigns([FieldOf(name)])
  {
  }

  /**
   * Dispatching any of the four actions on a store built from these tables
   * returns `true`, replaces exactly the action's field with the payload,
   * ends resting whatever the status was, raises no warning, and publishes
   * the action's name once, to subscribers that see the new value.
   */
  lemma AppDispatch(m: Snapshot, name: string, payload: Value)
    requires m.actions == Actions() && m.mutations == Mutations()
    requires IsActionName(name)
    ensures var (n, ok) := DispatchStep(m, name, payload);
      && ok
      && n.state == m.state[FieldOf(name) := payload]
      && n.status == Resting
      && n.trace == m.trace + [Notified(name, Events.Listeners(m.subscribers, name), n.state)]
      && n.actions == m.actions && n.mutations == m.mutations && n.subscribers == m.subscribers
  {
    Tables(name);
    SingleWriteQuiet(m.(status := InMutation), FieldOf(name), payload);
  }

  /**
   * The `store` instance: created from the two tables and the default
   * state, resting, with no subscriber yet.
   */
  method CreateStore() returns (store: Store)
    ensures fresh(store) && fresh(store.events)
    ensures store.actions == Actions() && store.mutations == Mutations()
    ensures store.state == DefaultState()
    ensures store.status == Resting && store.trace == [] && store.events.events == map[]
  {
    store := new Store(Params(Some(Actions()), Some(Mutations()), Some(DefaultState())));
  }
}
