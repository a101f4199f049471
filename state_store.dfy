/**
 * The menu's reactive store, reduced to what the views use of it: a keyed
 * map of current values, `setState` writes and plain `useState([k])` reads.
 */
module StateStore {
  import opened Wrappers

  /** A stored value: the views store strings (`view`, `transition`) and a
      boolean (`transitionInProgress`). */
  datatype Value = Text(text: string) | Flag(flag: bool)

  const ViewKey := "view"
  const TransitionKey := "transition"
  const InProgressKey := "transitionInProgress"

  /** A read of one key; a key never written reads as absent. */
  function Lookup(state: map<string, Value>, key: string): (r: Option<Value>)
    ensures r.Some? <==> key in state
    ensures r.Some? ==> r.value == state[key]
  {
    if key in state then Some(state[key]) else None
  }

  /** `setState(writes)`: each listed key takes its new value (last write
      wins); every other key keeps its value. */
  function Write(state: map<string, Value>, writes: map<string, Value>): (r: map<string, Value>)
    ensures r.Keys == state.Keys + writes.Keys
    ensures forall k :: k in writes ==> Lookup(r, k) == Some(writes[k])
    ensures forall k :: k !in writes ==> Lookup(r, k) == Lookup(state, k)
  {
    state + writes
  }

  class Store {
    var state: map<string, Value>

    constructor (initial: map<string, Value>)
      ensures state == initial
    {
      state := initial;
    }

    /** `useState([key])` without a callback: the current value. */
    function Read(key: string): (r: Option<Value>)
      reads this
      ensures r.Some? <==> key in state
      ensures r.Some? ==> r.value == state[key]
    {
      Lookup(state, key)
    }

    method SetState(writes: map<string, Value>)
      modifies this
      ensures state == Write(old(state), writes)
    {
      state := state + writes;
    }
  }
}
