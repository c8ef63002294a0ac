// An optional value, for results that may be absent.
module Wrappers {
  datatype Option<+T> = None | Some(value: T)
}

// Bytes as the editor handles them: every row, the render form, the output
// frame and the terminal input are byte strings.
module Bytes {

  newtype byte = x: int | 0 <= x < 256

  const NUL: byte := 0
  const CTRL_H: byte := 8
  const TAB: byte := 9
  const LF: byte := 10
  const CR: byte := 13
  const ESC: byte := 27
  const SPACE: byte := 32
  const BACKSPACE: byte := 127

  /** Control key chord: the low five bits of a letter, as `CTRL_KEY(k)`. */
  function CtrlKey(letter: char): (b: byte)
    requires 'a' <= letter <= 'z'
    ensures 1 <= b <= 26
    ensures b == (letter as int - 'a' as int + 1) as byte
  {
    ((letter as int) % 32) as byte
  }

  /** Byte value of a 7-bit character. */
  function Ord(c: char): byte
    requires c as int < 128
  {
    c as int as byte
  }

  /** The bytes of an ASCII string literal. */
  function Ascii(s: string): (r: seq<byte>)
    requires forall i :: 0 <= i < |s| ==> s[i] as int < 128
    ensures |r| == |s|
  {
    seq(|s|, i requires 0 <= i < |s| => Ord(s[i]))
  }

  /** `iscntrl` in the C locale: bytes 0..31 and 127. */
  predicate IsCntrl(b: byte)
  {
    b < 32 || b == 127
  }

  function Spaces(n: nat): (r: seq<byte>)
    ensures |r| == n
    ensures forall i :: 0 <= i < n ==> r[i] == SPACE
  {
    seq(n, _ => SPACE)
  }
}
