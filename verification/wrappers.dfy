/** The optional value used where the C++ code has a sentinel (`std::string::npos`)
    or where a message produces nothing to send. */
module Wrappers {

  datatype Option<+T> = None | Some(value: T)

}
