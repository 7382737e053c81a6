/** The optional-value datatype used for search results and composed slots. */
module Wrappers {

  /** `None` stands for JavaScript's "nothing here" (no result, an undefined slot). */
  datatype Option<+T> = None | Some(value: T)
}
