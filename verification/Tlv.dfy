/** Types shared by every part of the model: bytes, C integer widths, result codes. */
module Tlv {

  type byte = x: int | 0 <= x < 256
  type bytes = seq<byte>

  const U64_MAX: nat := 0xFFFF_FFFF_FFFF_FFFF

  type NativeLimit = n: nat | 0xFFFF_FFFF <= n <= U64_MAX witness U64_MAX

  /** The platform's largest size_t: 32 to 64 bits and otherwise unspecified, so results hold for every platform. */
  const SIZE_MAX: NativeLimit

  type size_t = n: nat | n <= SIZE_MAX
  type u64 = n: nat | n <= U64_MAX

  type IntLimit = n: nat | 0x7FFF_FFFF <= n <= SIZE_MAX witness 0x7FFF_FFFF

  /** The largest Go int, no wider than size_t and otherwise unspecified too. */
  const MAX_INT: IntLimit

  /** tlv_result_t; Unknown stands for any integer outside the enumeration. */
  datatype Status =
    | Ok | End | NeedMoreData
    | ErrTruncated | ErrInvalidTag | ErrInvalidTagSize | ErrInvalidLength | ErrInvalidValue
    | ErrSyntax | ErrSchema
    | ErrNullArg | ErrInvalidArg | ErrInvalidState | ErrInvalidSchema
    | ErrBufferTooShort | ErrLimit | ErrOverflow | ErrNativeSize | ErrOutOfMemory
    | ErrUnsupported | ErrVisitor | ErrCallback
    | Unknown(code: int)

  datatype Option<+T> = None | Some(value: T)

  /** A semantic identifier. A NULL pointer (no identifier) differs from an empty identifier. */
  datatype Tag = Absent | Present(data: bytes) {
    function Bytes(): bytes {
      if Absent? then [] else data
    }
  }

  datatype Element = Element(tag: Tag, value: bytes)
}
