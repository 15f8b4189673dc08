/** Types shared by every component: optional values, bytes, and Python text. */
module Core {

  datatype Option<+T> = None | Some(value: T)

  datatype Result<+T, +E> = Success(value: T) | Failure(error: E)

  type Byte = b: int | 0 <= b < 0x100

  type Bytes = seq<Byte>

  /** One element of a Python `str`: any code point, lone surrogates included. */
  type CodePoint = c: int | 0 <= c < 0x11_0000

  type Text = seq<CodePoint>

  /** Lines are counted from one. */
  type LineNumber = n: nat | 1 <= n witness 1

  const LF: CodePoint := 0x0A
  const CR: CodePoint := 0x0D
}
