/** Shared vocabulary of the model: error-carrying results, bytes, digests and
    the pluggable record codec. */
module Common {

  datatype Option<+T> = None | Some(value: T)

  datatype Result<+T, +E> = Ok(value: T) | Err(error: E)

  /** One byte of file content. */
  type Byte = b: int | 0 <= b < 256

  type Bytes = seq<Byte>

  /** Size in bytes of a SHA-256 sum (Go's `sha256.Size`). */
  const DigestSize: nat := 32

  /** A SHA-256 sum: the Go type `[32]byte`. */
  type Digest = s: Bytes | |s| == DigestSize witness seq(32, i => 0)

  /** The record encoding, supplied from outside the engine: `marshal` turns a
      value into bytes, `unmarshal` decodes bytes into a pre-filled value (as Go's
      `yaml.Unmarshal(b, &s)` does) or fails. */
  datatype Codec<!T> = Codec(marshal: T -> Bytes, unmarshal: (Bytes, T) -> Option<T>)
}
