/** A C pointer value: NULL, or a reference to something. */
module Pointers {
  datatype Ptr<+T> = Null | Ref(value: T)
}
