/** A minimal optional value. In this model `None` also stands for the two
    JavaScript "no value" results the gate meets: an `undefined` property and
    a NaN time value. */
module Wrappers {

  datatype Option<+T> = None | Some(value: T)

}
