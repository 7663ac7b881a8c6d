/** Shared value types of the application (src/types/index.ts). */
module Types {

  /** A value that may be absent: `T | null` or an optional property. */
  datatype Option<+T> = None | Some(value: T)

  /** The outcome of a validation: `{ valid, error? }`. */
  datatype ValidationResult = ValidationResult(valid: bool, error: Option<string>)

  /** What the application remembers of the loaded file. */
  datatype FileInfo = FileInfo(name: string)
}
