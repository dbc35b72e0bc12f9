/** The optional-value datatype shared by the modules of the router model. */
module Wrappers {

  /** `None` stands for the source's "not found" results (`std::string::npos`,
      a map iterator equal to `end()`, a failed file operation). */
  datatype Option<+T> = None | Some(value: T)
}
