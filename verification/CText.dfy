// C strings: a text is the sequence of bytes before the terminating NUL, and a
// pointer into it is the suffix that starts there. Reading at the end of the
// text yields the NUL.
module CText {

  type byte = x: int | 0 <= x < 256

  datatype Option<+T> = None | Some(value: T)

  const TAB: byte := 9
  const LF: byte := 10
  const CR: byte := 13
  const SPACE: byte := 32
  const QUOTE: byte := 34
  const STAR: byte := 42
  const COMMA: byte := 44
  const MINUS: byte := 45
  const DOT: byte := 46
  const SLASH: byte := 47
  const ZERO: byte := 48
  const COLON: byte := 58
  const LBRACKET: byte := 91
  const BACKSLASH: byte := 92
  const RBRACKET: byte := 93
  const LBRACE: byte := 123
  const RBRACE: byte := 125

  /** The byte *s points at. */
  function Hd(s: seq<byte>): byte {
    if s == [] then 0 else s[0]
  }

  /** The byte s[i]; reading the terminator is allowed, reading past it is not. */
  function At(s: seq<byte>, i: nat): byte
    requires i <= |s|
  {
    if i < |s| then s[i] else 0
  }

  predicate NulFree(s: seq<byte>) {
    forall i :: 0 <= i < |s| ==> s[i] != 0
  }

  predicate IsDigit(c: byte) {
    48 <= c <= 57
  }

  /** The text of a C string that may be absent. */
  function TextOf(s: Option<seq<byte>>): seq<byte> {
    if s.Some? then s.value else []
  }

  /** A buffer holds the text s, followed by the terminating NUL, at offset at. */
  predicate Holds(buffer: seq<byte>, at: nat, s: seq<byte>) {
    && at + |s| < |buffer|
    && buffer[at..at + |s|] == s
    && buffer[at + |s|] == 0
  }

  lemma DropDrop(b: seq<byte>, i: nat, j: nat)
    requires i + j <= |b|
    ensures b[i..][j..] == b[i + j..]
  {
  }

  lemma Assoc(a: seq<byte>, b: seq<byte>, c: seq<byte>)
    ensures (a + b) + c == a + (b + c)
  {
  }
}
