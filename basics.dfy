/** Shared vocabulary: bytes, optional values, and the errors the extraction engine reports. */
module Basics {

  /** One byte of a Go string or of a source file. */
  newtype Byte = b: int | 0 <= b < 0x100

  /** The newline byte appended after every import declaration. */
  const Newline: Byte := 0x0A

  datatype Option<+T> = None | Some(value: T)

  /** One constructor per `fmt.Errorf` site of the engine; the wrapped cause is kept where Go wraps one with %w. */
  datatype Error =
    | EmptyName                                          // "name cannot be empty"
    | InvalidName(name: string)                          // "invalid name: %s"
    | NotAsciiStart(name: string)                        // "name %s must started with an ASCII letter"
    | NotLowerStart(name: string)                        // "name %s must started with a lower ASCII letter"
    | CannotOpen(filename: string)                       // "cannot read file %s"
    | CannotReadPosition(filename: string, start: nat, end: nat) // "cannot read file %s in position [%d, %d)"
    | CannotReadRange(filename: string, start: nat, end: nat) // "cannot read file %s in [%d, %d)"
    | InvalidStructName(name: string)                    // "struct name %s is invalid"
    | ShortNameFailed(name: string, cause: Error)        // "cannot get shortName for %s"
    | MissingPackageName                                 // "missing package name (gopackage config)"
    | BuildFailed                                        // "cannot build from package"
    | FileNotInPackage(filename: string)                 // "cannot find provided filename %s"
    | ParseFailed(filename: string)                      // "cannot parse file %s"
    | FileStructsFailed(filename: string, cause: Error)  // "cannot get structs from file %s"
    | StructNotFound(name: string)                       // "cannot get struct %s from package"

  /** A Go `(value, error)` pair: exactly one of the two is meaningful. */
  datatype Result<+T> = Ok(value: T) | Err(error: Error)
}
