/** The optional value the model uses where JavaScript would produce NaN,
    and the minimum of two counts. */
module Wrappers {

  datatype Option<+T> = None | Some(value: T)

  function Min(a: nat, b: nat): nat {
    if a <= b then a else b
  }
}
