/** The optional value: an absent request field, a null document field, a lookup that found nothing. */
module Wrappers {

  datatype Option<+T> = None | Some(value: T)
}
