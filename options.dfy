/** The optional value used wherever the viewer either produces something or
    silently does nothing: a handler that may request no index, a click that
    may emit no viewpoint, an optional-chaining read that may be undefined. */
module Options {

  datatype Option<+T> = None | Some(value: T)
}
