/** SQL NULL and Python None: a nullable value. */
module Wrappers {

  datatype Option<+T> = None | Some(value: T)

  /** SQL COALESCE of two nullable values: the first one that is not NULL. */
  function Coalesce<T>(a: Option<T>, b: Option<T>): (r: Option<T>)
    ensures r.Some? <==> a.Some? || b.Some?
    ensures a.Some? ==> r == a
    ensures a.None? ==> r == b
  {
    if a.Some? then a else b
  }
}
