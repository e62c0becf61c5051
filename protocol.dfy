/**
 * Types shared by the ZRLE decoder and the client helpers: bytes and the
 * unsigned integer widths of the wire protocol, the RFB pixel format, a
 * rectangle, and the error values the decoder reports.
 *
 * Integer overflow follows the semantics of a debug build of the original
 * program: a shift by at least the operand width, a slice out of range, an
 * index out of bounds and an `unwrap` of nothing all abort, which the model
 * reports as a `Panic` error value instead of stopping.
 */
module Protocol {

  /** An octet of the byte stream (`u8` in the original). */
  type byte = bv8

  /** Unsigned integers of the protocol's fixed widths. */
  type U8 = x: int | 0 <= x < 0x100
  type U16 = x: int | 0 <= x < 0x1_0000
  type U32 = x: int | 0 <= x < 0x1_0000_0000

  /** The RFB pixel format record (bits per pixel, depth, byte order, true-colour flag and the
      maximum value and shift of each colour channel). */
  datatype PixelFormat = PixelFormat(
    bitsPerPixel: U8,
    depth: U8,
    bigEndian: bool,
    trueColour: bool,
    redMax: U16,
    greenMax: U16,
    blueMax: U16,
    redShift: U8,
    greenShift: U8,
    blueShift: U8)

  /** A rectangle of the framebuffer: its top-left corner and its size. */
  datatype Rect = Rect(left: nat, top: nat, width: nat, height: nat)
  {
    /** The pixel `(x, y)` lies inside this rectangle. */
    predicate Contains(x: int, y: int) {
      left <= x < left + width && top <= y < top + height
    }
  }

  /** Why a debug build of the original program would abort. */
  datatype PanicReason =
    | UnwrapNone        // `Option::unwrap` on `None`
    | UnwrapErr         // `Result::unwrap` on an error
    | NoAlphaFormat     // the cursor's pixel format has no counterpart with an alpha channel
    | ValueTooWide      // an integer written in fewer bytes than it needs
    | ShiftOverflow     // a shift by at least the bit width of its operand
    | SliceOutOfRange   // a slice `a[i..j]` outside the array
    | IndexOutOfBounds  // an index `a[i]` outside the vector
    | ArithmeticOverflow // an integer sum or product past the largest value of its type

  datatype Error =
    | UnexpectedEof       // the decompressed stream ran out in the middle of a read
    | UnalignedBitRead    // a bit read that would straddle a byte boundary
    | UnalignedByteRead   // a byte read while some bits of the current byte are unread
    | LeftoverBitData     // the bit reader still holds unread bits at the end of a rectangle
    | LeftoverByteData    // decompressed data is left over at the end of a rectangle
    | BadSubencoding      // a tile header naming no ZRLE sub-encoding
    | Panic(reason: PanicReason)
    | Callback(code: nat) // an error returned by the consumer of decoded tiles

  /** A value or the error that prevented computing it (`Result<T>` in the original). */
  datatype Result<+T> = Ok(value: T) | Err(error: Error)
  {
    predicate IsFailure() {
      Err?
    }

    function PropagateFailure<U>(): Result<U>
      requires Err?
    {
      Err(error)
    }

    function Extract(): T
      requires Ok?
    {
      value
    }
  }

  datatype Option<+T> = None | Some(value: T)
}
