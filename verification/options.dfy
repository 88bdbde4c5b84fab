/**
 * A value that may be absent. The source uses `null` for "no difficulty
 * chosen" and a loop that finds nothing for "no hidden letter"; both
 * become `None` here.
 */
module Options {

  datatype Option<T> = None | Some(value: T)
}
