/** The result of a cache lookup: the stored value, or nothing. Both sources
    encode `None` as the integer -1 (see `NotFound`). */
module Wrappers {

  datatype Option<+T> = None | Some(value: T)

  /** The sentinel both sources return from `get` for a missing key. */
  const NotFound: int := -1

  /** The integer the source's `get` hands back for a lookup result. A
      stored value of -1 is reported exactly like a missing key. */
  function Reported(r: Option<int>): (n: int)
    ensures r.None? ==> n == NotFound
    ensures r.Some? ==> n == r.value
    ensures n == NotFound <==> r == None || r == Some(NotFound)
  {
    match r
    case None => NotFound
    case Some(v) => v
  }
}
