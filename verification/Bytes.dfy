/** Octets, and the ASCII case folding table of ci/utils/ascii.h. */
module Bytes {
  type byte = x: int | 0 <= x < 256
  type bytes = seq<byte>

  /** The characters of a NUL-terminated literal, without the terminator. */
  type cstring = s: bytes | 0 !in s

  const HT: byte := 9
  const LF: byte := 10
  const CR: byte := 13
  const SP: byte := 32
  const QUESTION: byte := 63
  const COLON: byte := 58

  /** `icase_ascii_table[b]`: a-z map to A-Z, every other octet to itself. */
  function Fold(b: byte): byte {
    if 0x61 <= b <= 0x7a then b - 0x20 else b
  }

  /** Folding identifies each of a-z with its capital letter, and nothing else. */
  lemma FoldIdentifies(a: byte, b: byte)
    ensures Fold(a) == Fold(b) <==>
            a == b || (97 <= a <= 122 && b == a - 32) || (97 <= b <= 122 && a == b - 32)
  {
  }

  predicate FoldEq(a: bytes, b: bytes) {
    |a| == |b| && forall i :: 0 <= i < |a| ==> Fold(a[i]) == Fold(b[i])
  }

  /** Unsigned 64-bit arithmetic of `size_t`. */
  const TWO64: int := 0x1_0000_0000_0000_0000

  function Wrap64(x: int): (r: nat)
    ensures 0 <= x < TWO64 ==> r == x
  {
    x % TWO64
  }
}
