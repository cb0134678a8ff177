/**
 * The values shared by the RLP encoder and decoder: bytes, the wire-level
 * item tree the decoder produces, the closed set of inputs the encoder
 * accepts, and the error results that stand for the Go code's returned
 * errors and panics.
 */
module RlpTypes {

  /** An 8-bit byte, as Go's `byte`. */
  type byte = b: int | 0 <= b < 256

  /** 2^64: the encoder refuses any length at or above it ("input too long"). */
  const TwoTo64: nat := 0x1_0000_0000_0000_0000

  /**
   * What the decoder returns: a byte-string (Go `[]byte`) or a list of
   * items (Go `[]any`). RLP carries no other type on the wire.
   */
  datatype Item = Bytes(data: seq<byte>) | List(items: seq<Item>)

  /**
   * What the encoder accepts. A Go string is a sequence of bytes, so
   * `Text` holds its bytes; `Slice` is any Go slice other than `[]byte`,
   * its elements encoded one by one; `Integer` is any Go integer kind.
   */
  datatype Input =
    | Text(text: seq<byte>)
    | Blob(blob: seq<byte>)
    | Slice(elems: seq<Input>)
    | Integer(n: int)

  /** One constructor per error and panic reachable from the closed `Input` type. */
  datatype Error =
    // decoder
    | EmptyInput
    | ShortStringTooShort
    | LongStringPrefixTooShort
    | LongStringTooShort
    | ShortListTooShort
    | LongListPrefixTooShort
    | LongListTooShort
    // encoder
    | InputTooLong
    | NegativeInteger

  datatype Result<T> = Ok(value: T) | Err(error: Error)

  /** A successfully decoded item with the number of bytes it took up. */
  datatype Decoded = Decoded(item: Item, consumed: nat)
}
