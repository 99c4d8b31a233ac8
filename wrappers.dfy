/** The optional value shared by both cores. `None` stands for JavaScript's
    `undefined` and for Qt's null `QString`. */
module Wrappers {

  datatype Option<+T> = None | Some(value: T)

}
