/** Types and constants shared by all parts of the model. */
module Basics {

  // An unsigned 8-bit element. Pixels, SIMD byte lanes and buffer cells are bytes.
  type Byte = x: int | 0 <= x < 256

  // Addition and negation of bytes wrap modulo 256.
  function AddByte(a: int, b: int): Byte {
    (a + b) % 256
  }

  function NegateByte(x: int): Byte {
    (-x) % 256
  }

  // The number of values of a 64-bit size_t.
  const TWO_TO_THE_64: nat := 0x1_0000_0000_0000_0000

  // The largest size_t.
  const SIZE_MAX: nat := TWO_TO_THE_64 - 1

  // Images with more pixels than this are rejected by every operation.
  const MAX_IMAGE_PIXELS: nat := 0xFFFF_FFFF_FFFF

  datatype Option<+T> = None | Some(value: T)

  // The error codes that the modelled operations return.
  datatype Error = Ok | NotImplemented | NullPointer | Alignment | OutOfRange | Allocation

  // CHECK_IMAGE_SIZE: the product is computed with overflow detection.
  predicate ImageSizeAccepted(width: nat, height: nat) {
    width * height <= MAX_IMAGE_PIXELS
  }

  // The limit is 2^48 pixels, which is not reached.
  lemma SizeLimit(width: nat, height: nat)
    ensures ImageSizeAccepted(width, height) <==> width * height < 0x1_0000_0000_0000
  {
  }

  // The checks of a call that needs pixels: whether there is a source, whether the stride of its rows suits the element
  // type, and the size.
  function ImageResult(present: bool, strideAligned: bool, width: nat, height: nat): Error {
    if !present then NullPointer
    else if height > 1 && !strideAligned then Alignment
    else if !ImageSizeAccepted(width, height) || width == 0 || height == 0 then OutOfRange
    else Ok
  }

  /** The limits of an integer type. */
  datatype Limits = Limits(lowest: int, highest: int) {
    ghost predicate Contains(s: seq<int>) {
      forall x :: x in s ==> lowest <= x <= highest
    }
  }

  function Min(a: int, b: int): (m: int)
    ensures m <= a && m <= b && (m == a || m == b)
  {
    if a <= b then a else b
  }

  function Max(a: int, b: int): (m: int)
    ensures a <= m && b <= m && (m == a || m == b)
  {
    if a <= b then b else a
  }
}
