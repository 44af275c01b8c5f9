/** Types and constants that several models share. */
module Common {

  datatype Option<+T> = None | Some(value: T)

  type Byte = x: int | 0 <= x < 256

  /** One past the largest uint. */
  const UINT := 0x1_0000_0000
}
