// Values that may be absent, and outcomes that may be one of the repository's errors.
module Wrappers {

  datatype Option<+T> = None | Some(value: T)

  // The error classes of src/errors.js and of relay-contract/src/errors.js that the
  // modelled code can raise.
  datatype Error =
    | InvalidRequest
    | StoreAccess
    | StoreIntegrity
    | RelayProtocol
    | RelayAuthentication
    | RelayAdmission

  datatype Result<+T> = Ok(value: T) | Err(error: Error)
}
