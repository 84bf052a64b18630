/** The element type of the images: numpy's uint8. */
module Bytes {
  newtype uint8 = x: int | 0 <= x < 256
}
