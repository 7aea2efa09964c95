/** The status codes of wink_status.h that the modelled operations return. */
module Status {

  datatype Status =
    | Ok
    | InvalidArg
    | Timeout
    | Disconnected
    | Io
    | Busy
    | ChecksumError
    | Permission
    | ResourceExhausted
    | NotInitialized
    | AlreadyInitialized
    | Hardware
    | NoMem
    | Empty
    | Full
    | InvalidState
    | ConfigCorruptDegraded
}
