/** An optional result, used where a fuel bound can run out before the source's loop would stop. */
module Maybe {
  datatype Option<+T> = None | Some(value: T)
}
