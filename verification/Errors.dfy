/** The stable error codes of the original library that this model distinguishes. */
module Errors {
  datatype Error =
    | InvalidKind
    | InvalidMid
    | InvalidUuidVersion
    | InvalidPid
    | InvalidPublicPrefix
    | DuplicatePublicPrefix
    | UnknownNamespace
    | InvalidNamespaceDefinition
    | InvalidRef
    | InvalidRefPrefix
    | DuplicateRefPrefix
    | AmbiguousRefPrefix
    | InvalidRefLength
    | InvalidRefSymbol
    | InvalidChecksum
    | InvalidRandomSource
    | InvalidAllocationPolicy
    | AllocationConflict
    | AllocationExhausted
    | SequenceOverflow
}
