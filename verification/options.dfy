/** An optional value: a grid cell's label, or the outcome of trying to merge two rectangles. */
module Options {
  datatype Option<+T> = None | Some(value: T)
}
