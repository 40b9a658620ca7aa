/** Go strings are immutable byte sequences; the secret store works on them as such. */
module Bytes {

  newtype byte = x: int | 0 <= x < 256

  /** A Go `string`: an arbitrary sequence of bytes. */
  type GoString = seq<byte>

  /** The bytes of an ASCII literal (used only to spell the source's constant keys). */
  function Ascii(s: string): (r: GoString)
    ensures |r| == |s|
    ensures forall i :: 0 <= i < |s| ==> r[i] as int == s[i] as int % 256
  {
    seq(|s|, i requires 0 <= i < |s| => (s[i] as int % 256) as byte)
  }
}
