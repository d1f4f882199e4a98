/** The optional value: the C functions return 0 and leave their out-parameter alone (`None`),
    or return 1 and set it (`Some`). */
module Wrappers {

  datatype Option<+T> = None | Some(value: T)
}
