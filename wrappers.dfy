/** The optional value that Python code expresses as "a value or None". */
module Wrappers {

  datatype Option<+T> = None | Some(value: T)

  /** Regular-expression alternation: the first alternative that succeeds wins. */
  function OrElse<T>(first: Option<T>, second: Option<T>): (r: Option<T>)
    ensures r.Some? <==> first.Some? || second.Some?
    ensures first.Some? ==> r == first
  {
    if first.Some? then first else second
  }
}
