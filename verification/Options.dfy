/** Success or rejection of a step that the search may simply skip. */
module Options {
  datatype Option<+T> = None | Some(value: T)
}
