/** Raw storage with explicit object lifetimes. */
module Storage {
  /** A slot holds no object, an object, or an object whose value was moved out
      and that still has to be destroyed. */
  datatype Slot<T> = Raw | Live(value: T) | MovedFrom
}
