/** The optional result used throughout the model: `None` stands for a composition
    the source rejects (a trait implementation that does not exist, so the program
    does not compile, or a panic at run time). */
module Wrappers {

  datatype Option<+T> = None | Some(value: T)

}
