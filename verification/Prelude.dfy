/** Types shared by every component. */
module Prelude {
  datatype Option<+T> = None | Some(value: T)

  /** The C type uint8_t. */
  type byte = b: int | 0 <= b < 256

  const NUL: byte := 0
  const NEWLINE: byte := 10
  const SPACE: byte := 32
  const DOT: byte := 46

  const TERMINALS := 3
  const PROCESSES := 6   // process slots
  const NAME_LEN := 32   // bytes of a file name, which need not be terminated

  /** The bytes of a text. */
  function Ascii(s: string): (b: seq<byte>)
    requires forall i :: 0 <= i < |s| ==> s[i] < 128 as char
    ensures |b| == |s| && forall i :: 0 <= i < |s| ==> b[i] == s[i] as int
  {
    seq<byte>(|s|, i requires 0 <= i < |s| => s[i] as int)
  }
}
