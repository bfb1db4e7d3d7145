/** Optional values: JavaScript's `undefined`/`null` next to a present value. */
module Base {

  datatype Option<+T> = None | Some(value: T) {

    /** The value when present, otherwise the fallback (the `??` operator). */
    function GetOr(fallback: T): T {
      match this
      case Some(v) => v
      case None => fallback
    }
  }
}
