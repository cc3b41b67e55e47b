/** Numbers in digits, as people write them, for the grammars that the decoders are proved against. */
module Numerals {
  import opened Bytes

  /** 0 to 9 and A to F, or a to f. */
  const UPPER: seq<byte> := [48, 49, 50, 51, 52, 53, 54, 55, 56, 57, 65, 66, 67, 68, 69, 70]
  const LOWER: seq<byte> := [48, 49, 50, 51, 52, 53, 54, 55, 56, 57, 97, 98, 99, 100, 101, 102]

  /** A hexadecimal digit, in capitals or not. */
  predicate IsDigit(c: byte, v: nat)
    requires v < 16
  {
    c == UPPER[v] || c == LOWER[v]
  }

  /** These n hexadecimal digits are the number v. */
  predicate IsNumber(t: seq<byte>, v: nat, n: nat) {
    if n == 0 then t == [] && v == 0
    else |t| == n && IsDigit(t[n - 1], v % 16) && IsNumber(t[..n - 1], v / 16, n - 1)
  }

  /** These decimal digits are the number v. */
  predicate IsDecimal(t: seq<byte>, v: nat)
    decreases |t|
  {
    if t == [] then v == 0
    else t[|t| - 1] == 48 + v % 10 && IsDecimal(t[..|t| - 1], v / 10)
  }
}
