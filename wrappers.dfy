/** Optional values and the parameter errors `set_status` raises. */
module Wrappers {
  datatype Option<T> = None | Some(value: T)

  function OrElse<T>(o: Option<T>, default: T): (r: T)
    ensures o.Some? ==> r == o.value
    ensures o.None? ==> r == default
  {
    if o.Some? then o.value else default
  }

  /** The `BadProperty` exceptions thrown by the synapses' `set_status`. */
  datatype BadProperty =
    | NonPositiveTau         // "The synaptic time constant tau must be greater than zero."
    | NonPositiveInterval    // "The synaptic update interval must be greater than zero."
    | WminSignMismatch       // "Weight and Wmin must have same sign."
    | WmaxSignMismatch       // "Weight and Wmax must have same sign."
}
