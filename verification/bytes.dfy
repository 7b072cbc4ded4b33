/** Byte strings. Go strings are byte sequences (`len` counts bytes), so every text field of
    the model is a `Bytes`. */
module Bytes {

  type byte = x: int | 0 <= x < 256

  type Bytes = seq<byte>

  /** ASCII code points used by the email pattern and the moderation link. */
  const AT: byte := 64          // '@'
  const DOT: byte := 46         // '.'
  const UNDERSCORE: byte := 95  // '_'
  const PERCENT: byte := 37     // '%'
  const PLUS: byte := 43        // '+'
  const HYPHEN: byte := 45      // '-'

  /** The bytes of an ASCII string literal. */
  function FromAscii(s: string): (r: Bytes)
    requires forall i | 0 <= i < |s| :: s[i] as int < 128
    ensures |r| == |s|
    ensures forall i | 0 <= i < |s| :: r[i] == s[i] as int
  {
    seq(|s|, i requires 0 <= i < |s| => s[i] as int)
  }
}
