/** Small helpers shared by the models. */
module Common {

  datatype Option<+T> = None | Some(value: T)

  /** The next element of a hash table's iteration: any element that is left. */
  method NextOf<T(==)>(rest: set<T>) returns (x: T)
    requires rest != {}
    ensures x in rest
  {
    x :| x in rest;
  }
}
