/** Python's `None`-or-value, and the outcome of an indexing that may raise IndexError. */
module Options {

  datatype Option<+T> = None | Some(value: T)

  /** Python `xs[i]` for a non-negative index: None stands for the IndexError. */
  function Element<T>(xs: seq<T>, i: nat): (r: Option<T>)
    ensures r.Some? <==> i < |xs|
    ensures r.Some? ==> r.value == xs[i]
  {
    if i < |xs| then Some(xs[i]) else None
  }
}
