/*
 * The out-parameters of the C entry points of the host libraries: a
 * pointer to a caller's variable, which the entry point writes through.
 * A null pointer is a null `Cell`.
 */
module OutParam {
  class Cell<T> {
    var value: T

    constructor(v: T)
      ensures value == v
    {
      value := v;
    }
  }
}
