/** The outcome types of the model.

    The solver signals every dead end by throwing `Error('backtrack')`; the
    model returns `Backtrack` instead and every caller checks it explicitly.
    The generator's oracle running dry is the only `None`. */
module Outcomes {

  /** The outcome of a propagation or search step: a new state, or a dead end. */
  datatype Result<+T> = Ok(value: T) | Backtrack

  datatype Option<+T> = None | Some(value: T)
}
