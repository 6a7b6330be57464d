/** Kotlin's nullable types, modelled as an explicit option. */
module Wrappers {

  /** `None` stands for Kotlin's `null`, `Some(v)` for a non-null `v`. */
  datatype Option<+T> = None | Some(value: T) {

    /** Kotlin's elvis operator `this ?: default`. */
    function OrElse(default: Option<T>): (r: Option<T>)
      ensures Some? ==> r == this
      ensures None? ==> r == default
    {
      match this
      case Some(_) => this
      case None => default
    }
  }
}
