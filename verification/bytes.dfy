/** Bytes, bitwise XOR on them, and the view of a C++ `std::string` as a
    sequence of bytes. A byte is its unsigned value 0..255: unpadding reads
    the last byte that way (`static_cast<unsigned char>`), and for the
    combine step the signedness of `char` does not change the bytes produced. */
module Bytes {

  type byte = b: int | 0 <= b < 256

  function Pow2(n: nat): (p: nat)
    ensures p >= 1
  {
    if n == 0 then 1 else 2 * Pow2(n - 1)
  }

  /** Bitwise XOR of the low `n` bits of `a` and `b`, least significant bit first. */
  function XorBits(a: nat, b: nat, n: nat): (r: nat)
    ensures r < Pow2(n)
  {
    if n == 0 then 0
    else 2 * XorBits(a / 2, b / 2, n - 1) + (if a % 2 == b % 2 then 0 else 1)
  }

  /** The C++ `^` on two bytes: bit `j` of the result is set exactly when
      bits `j` of `a` and `b` differ. */
  function Xor(a: byte, b: byte): (r: byte)
    ensures r == XorBits(b, a, 8)
    ensures b == 0 ==> r == a
    ensures a == b ==> r == 0
  {
    assert Pow2(8) == 256;
    XorBitsCommutes(a, b, 8);
    XorBitsZero(a, 8);
    XorBitsSelf(a, 8);
    XorBits(a, b, 8)
  }

  /** Bitwise XOR does not depend on the order of its operands. */
  lemma {:induction false} XorBitsCommutes(a: nat, b: nat, n: nat)
    ensures XorBits(a, b, n) == XorBits(b, a, n)
  {
    if n > 0 {
      XorBitsCommutes(a / 2, b / 2, n - 1);
    }
  }

  /** XOR with zero leaves an `n`-bit value unchanged. */
  lemma {:induction false} XorBitsZero(a: nat, n: nat)
    requires a < Pow2(n)
    ensures XorBits(a, 0, n) == a
  {
    if n > 0 {
      XorBitsZero(a / 2, n - 1);
    }
  }

  /** XOR of a value with itself is zero. */
  lemma {:induction false} XorBitsSelf(a: nat, n: nat)
    ensures XorBits(a, a, n) == 0
  {
    if n > 0 {
      XorBitsSelf(a / 2, n - 1);
    }
  }

  /** XOR-ing the same `n`-bit mask twice gives back any `n`-bit value. */
  lemma {:induction false} XorBitsTwice(a: nat, k: nat, n: nat)
    requires a < Pow2(n)
    ensures XorBits(XorBits(a, k, n), k, n) == a
  {
    if n > 0 {
      var x := XorBits(a, k, n);
      var bit := if a % 2 == k % 2 then 0 else 1;
      assert x == 2 * XorBits(a / 2, k / 2, n - 1) + bit;
      assert x / 2 == XorBits(a / 2, k / 2, n - 1) && x % 2 == bit;
      XorBitsTwice(a / 2, k / 2, n - 1);
      assert XorBits(x, k, n) == 2 * (a / 2) + (if x % 2 == k % 2 then 0 else 1);
    }
  }

  /** XOR-ing the same byte twice cancels out. */
  lemma XorTwice(a: byte, k: byte)
    ensures Xor(Xor(a, k), k) == a
  {
    assert Pow2(8) == 256;
    XorBitsTwice(a, k, 8);
  }

  /** A text value whose every character is one byte wide, which is what a
      `std::string` holds. */
  predicate IsByteText(s: seq<char>) {
    forall i :: 0 <= i < |s| ==> s[i] as int < 256
  }

  /** The bytes a byte text stands for, one per character. */
  function ToBytes(s: seq<char>): (r: seq<byte>)
    requires IsByteText(s)
    ensures |r| == |s|
    ensures forall i :: 0 <= i < |s| ==> r[i] == s[i] as int
  {
    seq(|s|, i requires 0 <= i < |s| => s[i] as int)
  }

  /** Byte views commute with taking a prefix. */
  lemma ToBytesPrefix(s: seq<char>, n: nat)
    requires IsByteText(s) && n <= |s|
    ensures IsByteText(s[..n])
    ensures ToBytes(s[..n]) == ToBytes(s)[..n]
  {
  }

  /** Two byte texts with the same bytes are the same text. */
  lemma ToBytesInjective(s: seq<char>, t: seq<char>)
    requires IsByteText(s) && IsByteText(t)
    requires ToBytes(s) == ToBytes(t)
    ensures s == t
  {
  }
}
