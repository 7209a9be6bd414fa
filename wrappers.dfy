/** Option, standing in for the nullable references of the C# program. */
module Wrappers {

  datatype Option<+T> = None | Some(value: T)

  /** The set holding the value of an Option, empty for None. */
  function Elements<T>(o: Option<T>): (r: set<T>)
    ensures |r| <= 1
    ensures o.None? ==> r == {}
    ensures o.Some? ==> o.value in r
  {
    match o
    case None => {}
    case Some(v) => {v}
  }
}
