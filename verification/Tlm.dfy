/** The parts of the TLM-2.0 interface that the targets share. */
module Tlm {

  datatype Option<T> = None | Some(value: T)

  /** `ErrorReport` stands for an access refused with an error report instead of a status. */
  datatype Response = Incomplete | Ok | AddressError | CommandError | GenericError | ErrorReport
}
