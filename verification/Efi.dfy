/** The status codes and the optional values shared by the firmware models. */
module Efi {

  datatype Option<+T> = None | Some(value: T)

  datatype Status =
    | Success
    | InvalidParameter
    | Unsupported
    | BadBufferSize
    | BufferTooSmall
    | NotFound
    | OutOfResources
    | Aborted
    | CompromisedData
    | Other(code: nat)
}
