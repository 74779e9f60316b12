/** The Option datatype shared by the other modules: `None` stands for a
    JavaScript NaN or for input a decoder refuses. */
module Wrappers {

  datatype Option<+T> = None | Some(value: T)
}
