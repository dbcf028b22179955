/** The analyzer's state object as the oracle uses it: a node id, an
    instruction address and a mapping from locations to cell lists, all
    updated in place by the oracle's helpers. */
module AbstractState {
  import opened Domain

  /** The contents of a state at one moment. */
  datatype Snapshot = Snapshot(nodeId: string, address: int, mapping: Mapping)

  class State {
    var nodeId: string
    var address: int
    var mapping: Mapping

    constructor (nodeId: string, address: int, mapping: Mapping)
      ensures this.nodeId == nodeId && this.address == address && this.mapping == mapping
    {
      this.nodeId := nodeId;
      this.address := address;
      this.mapping := mapping;
    }

    function Snap(): Snapshot
      reads this
    {
      Snapshot(nodeId, address, mapping)
    }
  }

  /** The outcome r of a builder method is what the specification spec
      predicts: the same error, or a state holding the predicted contents. */
  ghost predicate Realizes(r: Result<State>, spec: Result<Snapshot>)
    reads if r.Ok? then {r.value} else {}
  {
    match r
    case Ok(st) => spec.Ok? && st.Snap() == spec.value
    case Err(e) => spec == Err(e)
  }

  /** The same for a builder whose prediction may be "no successor" (None). */
  ghost predicate RealizesStep(r: Result<Option<State>>, spec: Result<Option<Snapshot>>)
    reads if r.Ok? && r.value.Some? then {r.value.value} else {}
  {
    match r
    case Ok(None) => spec == Ok(None)
    case Ok(Some(st)) => spec.Ok? && spec.value.Some? && st.Snap() == spec.value.value
    case Err(e) => spec == Err(e)
  }
}
