/** The optional result of an action-selection query, and the `-inf` seed of a running maximum. */
module Options {

  /** `None` stands for Python's `None` (no legal action) and, in a running maximum, for the `-math.inf`
      seed that no value has replaced yet. */
  datatype Option<T> = None | Some(value: T)
}
