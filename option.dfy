/** Values that may be absent. `Option` is the outcome of a regular-expression
    match or of an optional capture group. `Nullable` is a JavaScript value typed
    `string | null` that can also be `undefined`. The operator page compares such
    values strictly (`!==`, `===`) in some places and loosely (`!= null`) in
    others, so the two absent values are kept apart. */
module Optional {

  datatype Option<T> = None | Some(value: T)

  datatype Nullable<T> = Null | Undefined | Value(value: T) {

    /** `x == null` with JavaScript's loose equality: true of `null` and `undefined`. */
    predicate IsNullish()
    {
      !Value?
    }
  }
}
