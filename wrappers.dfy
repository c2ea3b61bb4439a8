/** A nullable cell of a data frame: `None` stands for SQL NULL / pandas None. */
module Wrappers {

  datatype Option<+T> = None | Some(value: T)

}
