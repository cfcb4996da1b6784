/** Error codes and results. The compressor returns either a length or an error
    code in one 32-bit number; here the two are told apart by a constructor. */
module Errors {
  datatype CmpError =
    | Generic
    | SmallBuffer
    | DataValueTooLarge
    | ParGeneric
    | ParSpecific
    | ParNoModel
    | ChunkTooLarge
    | ChunkSizeInconsistent
    | ChunkSubserviceInconsistent
    | ColSubserviceUnsupported
    | ColSizeInconsistent
    | EntityHeaderError
    | IntDecoder
    | IntDataTypeUnsupported
    | IntCmpColTooLarge

  datatype Outcome<+T> = Ok(value: T) | Err(error: CmpError)
}
