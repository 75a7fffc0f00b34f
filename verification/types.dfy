/** Shared vocabulary of the downloader model: optional values, fallible
    results and bytes. */
module Types {

  /** An octet, the unit the partial files and the network deliver. */
  newtype byte = x: int | 0 <= x < 256

  datatype Option<+T> = None | Some(value: T)

  /** The shape of Rust's `Result<T, String>`: the success value or an error message. */
  datatype Result<+T> = Ok(value: T) | Err(error: string)

  /** The concatenation of a sequence of byte strings, first element first. */
  function Flatten(parts: seq<seq<byte>>): seq<byte>
  {
    if |parts| == 0 then [] else parts[0] + Flatten(parts[1..])
  }
}
