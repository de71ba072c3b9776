/** The optional-value datatype shared by the parsers and the queries of the model. */
module Wrappers {

  /** Either nothing (a failed parse, an empty query result) or one value. */
  datatype Option<+T> = None | Some(value: T)
}
