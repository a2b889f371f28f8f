/** An optional value: a missing JSON field, an undefined variable, NaN
    from `parseInt`, or a search that found nothing. */
module Options {
  datatype Option<T> = None | Some(value: T)
}
