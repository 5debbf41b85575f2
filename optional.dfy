/** A value that may be absent: a missing request field, a lookup that found nothing. */
module Optional {

  datatype Option<+T> = None | Some(value: T)
}
