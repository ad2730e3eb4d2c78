/** The optional value used wherever the filter or a raddec may lack a property. */
module Wrappers {

  /** `None` stands for an own property the JavaScript object does not have. */
  datatype Option<+T> = None | Some(value: T)
}
