/**
 * Shared vocabulary of the WAD decoder: the fixed-width integers of the wire
 * format, the error kinds a decode can end in, and the failure-compatible
 * result type used with `:-` in place of Rust's `?`.
 */
module WadTypes {

  type u8 = x: int | 0 <= x < 0x100
  type u16 = x: int | 0 <= x < 0x1_0000
  type u32 = x: int | 0 <= x < 0x1_0000_0000
  type u64 = x: int | 0 <= x < 0x1_0000_0000_0000_0000
  type i32 = x: int | -0x8000_0000 <= x < 0x8000_0000

  /** The error kinds of a WAD decode. Every one of them ends the decode. */
  datatype WadError =
      /** The byte source ran out before a read was complete. */
    | IoError
      /** The two magic bytes were not "RW"; carries the bytes that were found. */
    | InvalidSignature(magic: seq<u8>)
      /** The major version is above 3. */
    | UnsupportedVersion(major: u8, minor: u8)
      /** Two directory records carry the same path hash. */
    | DuplicateEntry(hash: u64)
      /** A record's format byte is not one of the five known discriminants. */
    | UnknownEntryDataFormat(format: u8)
      /** A version 2 signature length byte above 83 (see README, Findings). */
    | InvalidSignatureLength(length: u8)

  datatype Result<+T> = Ok(value: T) | Err(error: WadError)
  {
    predicate IsFailure() { Err? }

    function PropagateFailure<U>(): Result<U>
      requires Err?
    {
      Err(error)
    }

    function Extract(): T
      requires Ok?
    {
      value
    }
  }

  /** A value read from the byte source together with the cursor position after it. */
  datatype Parsed<+T> = Parsed(value: T, next: nat)
}
