/**
 * The error taxonomy of the crate (the `Error` enum of src/lib.rs).
 * Every variant carries its message; `Io` carries the text of the
 * underlying I/O error. The enum has no behaviour of its own.
 */
module Errors {

  datatype Error =
    | ShellDetection(message: string)
    | HistoryRead(message: string)
    | HistoryParse(message: string)
    | Ui(message: string)
    | Io(message: string)
    | Other(message: string)
}
