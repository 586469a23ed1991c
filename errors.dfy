/**
  The error taxonomy of the ledger, the workflow engine and the peer layer,
  and the two result shapes the operations return: an `Outcome` for
  operations that only succeed or fail, a `Result<T>` for those that also
  hand back a value.
 */
module Errors {

  datatype Error =
    // validateContract, in the order the fields are checked
    | MissingEntityCode
    | MissingEntityName
    | MissingDescription
    | NonPositiveAmount
    | MissingCreator
    // workflow
    | ContractNotFound
    | StepMismatch(current: int, requested: int)
    | StepOutOfRange
    | IndexOutOfRange      // the Go code indexes ValidationSteps[-1] here and panics
    | RoleNotAuthorized
    // ledger and replication
    | InvalidBlock
    | ChainTooShort
    | ChainInvalid
    // peer directory
    | PeerAlreadyExists(id: string)
    | PeerNotFound(id: string)
    | NoPeersAvailable
    | FetchFailed          // transport or decoding failure of a registry pull

  datatype Outcome = Pass | Fail(error: Error)

  datatype Option<T> = None | Some(value: T)

  datatype Result<T> = Ok(value: T) | Err(error: Error)
}
