/** Bytes as the Go program sees them: both `[]byte` and `string` are
    sequences of octets, so one byte type serves for keys, lines and payloads.
    The module also holds `Option`, the result of a conversion that can fail. */
module Wire {

  newtype Byte = b: int | 0 <= b < 256

  type Bytes = seq<Byte>

  /** A value that may be absent, such as the result of a failed conversion. */
  datatype Option<+T> = None | Some(value: T)

  // The ASCII octets the program compares against.
  const LF: Byte := 10    // '\n'
  const CR: Byte := 13    // '\r'
  const Dollar: Byte := 36 // '$'
  const Star: Byte := 42  // '*'
  const Plus: Byte := 43  // '+'
  const Minus: Byte := 45 // '-'
  const Zero: Byte := 48  // '0'
  const UpperG: Byte := 71 // 'G'
  const UpperN: Byte := 78 // 'N'
  const UpperO: Byte := 79 // 'O'
  const UpperP: Byte := 80 // 'P'

  predicate IsDigit(b: Byte) {
    Zero <= b <= Zero + 9
  }
}
