/** Bytes, and strings of bytes without their terminator. */
module ByteTypes {

  type byte = b: int | 0 <= b < 256

  type Text = s: seq<byte> | 0 !in s witness []
}
