/** Optional values and the bounds-checked subscript the view models use. */
module Support {

  /** Swift's `Optional`: a value that may be absent. */
  datatype Option<+T> = None | Some(value: T) {

    /** `??`: the value when present, else the fallback. */
    function GetOr(fallback: T): T {
      match this
      case Some(v) => v
      case None => fallback
    }
  }

  /** The `[safe:]` subscript: the element at `i` when `i` is a valid index, else nothing. */
  function SafeGet<T>(s: seq<T>, i: int): (r: Option<T>)
    ensures r.Some? <==> 0 <= i < |s|
    ensures r.Some? ==> r.value == s[i]
  {
    if 0 <= i < |s| then Some(s[i]) else None
  }
}
