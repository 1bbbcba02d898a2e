/** Shared vocabulary: optional values, bytes and Python strings. */
module Prelude {

  datatype Option<+T> = None | Some(value: T)

  datatype Result<+T, +E> = Ok(value: T) | Err(error: E)

  type byte = b: int | 0 <= b < 256

  type Bytes = seq<byte>

  /** A Python `str` is a sequence of code points, lone surrogates included. */
  type CodePoint = c: int | 0 <= c < 0x110000

  type Str = seq<CodePoint>

  /** Time is counted in whole microseconds since the Unix epoch, the resolution of `datetime`. */
  type Instant = nat

  const SECOND: nat := 1_000_000

  predicate Ascii(s: seq<int>) {
    forall i :: 0 <= i < |s| ==> 0 <= s[i] < 128
  }

  /** UTF-8 on ASCII text, both directions. */
  function AsciiBytes(s: Str): (b: Bytes)
    requires Ascii(s)
    ensures |b| == |s| && forall i :: 0 <= i < |s| ==> b[i] == s[i]
  {
    seq(|s|, i requires 0 <= i < |s| => s[i])
  }

  function AsciiText(b: Bytes): (s: Str)
    ensures |s| == |b| && forall i :: 0 <= i < |b| ==> s[i] == b[i]
  {
    seq(|b|, i requires 0 <= i < |b| => b[i])
  }

  /** Text written out, as a Python string. */
  function Lit(text: string): (s: Str)
    ensures |s| == |text| && forall i :: 0 <= i < |text| ==> s[i] == text[i] as int
  {
    seq(|text|, i requires 0 <= i < |text| => text[i] as int)
  }
}
