/** Pixel values shared by both utilities: an 8-bit channel value and an RGB pixel. */
module Pixels {

  /** An `unsigned char`: the values 0 through 255. */
  type Byte = x: int | 0 <= x < 256

  /** One decoded pixel: three unsigned 8-bit channels. */
  datatype RGBPixel = RGBPixel(r: Byte, g: Byte, b: Byte)

  /** The three channels, so that per-channel statements are written once. */
  datatype Channel = Red | Green | Blue

  function ChannelValue(p: RGBPixel, c: Channel): Byte
  {
    match c
    case Red => p.r
    case Green => p.g
    case Blue => p.b
  }
}
