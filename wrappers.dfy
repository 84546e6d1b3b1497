/** The optional value used for JavaScript's `undefined` and for absent AST nodes. */
module Wrappers {

  datatype Option<+T> = None | Some(value: T)

}
