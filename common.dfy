/** Small shared vocabulary: optional values (JavaScript's `undefined`/`null`
    fields) and duplicate-free sequences. */
module Common {

  /** A field that may be absent from a record. */
  datatype Option<+T> = None | Some(value: T) {

    /** The value, or `default` when absent (JavaScript's `x || default`
        for fields whose present values are never falsy). */
    function GetOr(default: T): (r: T)
      ensures Some? ==> r == value
      ensures None? ==> r == default
    {
      match this
      case Some(v) => v
      case None => default
    }
  }

  /** No element occurs twice: the list is used as a set. */
  predicate NoDuplicates<T(==)>(s: seq<T>) {
    forall i, j :: 0 <= i < j < |s| ==> s[i] != s[j]
  }
}
