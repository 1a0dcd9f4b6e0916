/**
 * Go strings are immutable byte strings; this module gives them a Dafny shape.
 * A `byte` is an unsigned 8-bit value and a `Bytes` value is the content of a
 * Go `string` or `[]byte`.
 */
module Bytes {

  type byte = x: int | 0 <= x < 256

  type Bytes = seq<byte>

  /** True when every character of `s` is 7-bit ASCII. */
  predicate IsAscii(s: string) {
    forall i :: 0 <= i < |s| ==> s[i] as int < 128
  }

  /** The bytes of an ASCII literal: one byte per character, same code. */
  function FromAscii(s: string): (r: Bytes)
    requires IsAscii(s)
    ensures |r| == |s|
    ensures forall i :: 0 <= i < |s| ==> r[i] == s[i] as int
  {
    seq(|s|, i requires 0 <= i < |s| => s[i] as int)
  }

  const Backslash: byte := 0x5C
  const AtSign: byte := 0x40
  const Space: byte := 0x20
}
