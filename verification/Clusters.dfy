/** A cluster that processes act on, one protocol step at a time. */
module Clusters {
  import opened Lifecycle

  class Cluster {
    const c: Config
    var state: State

    constructor (c: Config, state: State)
      ensures this.c == c && this.state == state
    {
      this.c := c;
      this.state := state;
    }

    /** Take one step, and extend the path that led from s to here by it. */
    method Perform(a: Action, ghost s: State, ghost acts: seq<Action>) returns (ghost acts': seq<Action>)
      requires Enabled(state, a) && Path(c, s, acts, state)
      modifies this`state
      ensures state == Apply(c, old(state), a)
      ensures Path(c, s, acts', state)
    {
      PathSnoc(c, s, acts, state, a);
      state := Apply(c, state, a);
      acts' := acts + [a];
    }
  }
}
