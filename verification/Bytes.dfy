/** Bytes, and the bit operations on them that the protocol uses, over plain integers. */
module Bytes {

  type byte = x: int | 0 <= x < 256

  /** The big-endian value of two bytes. */
  function Word(hi: byte, lo: byte): nat {
    hi as int * 256 + lo as int
  }

  function Min(a: int, b: int): int {
    if a < b then a else b
  }

  function Pow2(n: nat): (p: nat)
    ensures p > 0
  {
    if n == 0 then 1 else 2 * Pow2(n - 1)
  }

  /** Bit i of a, counted from the least significant one. */
  predicate Bit(i: nat, a: nat) {
    if i == 0 then a % 2 == 1 else Bit(i - 1, a / 2)
  }

  function XorBits(n: nat, a: nat, b: nat): (r: nat)
    ensures r < Pow2(n)
  {
    if n == 0 then 0
    else (if a % 2 == b % 2 then 0 else 1) + 2 * XorBits(n - 1, a / 2, b / 2)
  }

  function Xor(a: byte, b: byte): byte {
    assert Pow2(8) == 256 by { assert Pow2(4) == 16; }
    XorBits(8, a, b)
  }

  lemma {:induction false} XorBitsBit(n: nat, a: nat, b: nat, i: nat)
    requires i < n
    ensures Bit(i, XorBits(n, a, b)) <==> (Bit(i, a) != Bit(i, b))
  {
    if i > 0 {
      XorBitsBit(n - 1, a / 2, b / 2, i - 1);
      assert XorBits(n, a, b) / 2 == XorBits(n - 1, a / 2, b / 2);
    }
  }

  /** Xor is the bitwise exclusive or. */
  lemma XorIsBitwise(a: byte, b: byte, i: nat)
    requires i < 8
    ensures Bit(i, Xor(a, b)) <==> (Bit(i, a) != Bit(i, b))
  {
    XorBitsBit(8, a, b, i);
  }

  lemma {:induction false} XorBitsCancel(n: nat, a: nat, b: nat)
    requires a < Pow2(n)
    ensures XorBits(n, XorBits(n, a, b), b) == a
    ensures XorBits(n, a, b) == XorBits(n, b, a)
  {
    if n > 0 {
      XorBitsCancel(n - 1, a / 2, b / 2);
      assert XorBits(n, a, b) / 2 == XorBits(n - 1, a / 2, b / 2);
    }
  }

  /** Changing either operand changes the result. */
  lemma XorInjective(a: byte, b: byte, c: byte)
    ensures Xor(a, c) == Xor(b, c) ==> a == b
    ensures Xor(c, a) == Xor(c, b) ==> a == b
  {
    assert Pow2(8) == 256 by { assert Pow2(4) == 16; }
    XorBitsCancel(8, a, c);
    XorBitsCancel(8, b, c);
  }

  /** The running XOR of a loop over s that starts at x. */
  function XorFold(x: byte, s: seq<byte>): byte {
    if s == [] then x else Xor(XorFold(x, s[..|s| - 1]), s[|s| - 1])
  }

  function SumOf(s: seq<byte>): nat {
    if s == [] then 0 else SumOf(s[..|s| - 1]) + s[|s| - 1]
  }

  /** t is s with the byte at k, and no other, replaced. */
  ghost predicate DiffersOnlyAt(s: seq<byte>, t: seq<byte>, k: nat) {
    && k < |s| == |t|
    && s[k] != t[k]
    && forall i :: 0 <= i < |s| && i != k ==> s[i] == t[i]
  }

  lemma {:induction false} XorFoldDetects(x: byte, s: seq<byte>, t: seq<byte>, k: nat)
    requires DiffersOnlyAt(s, t, k)
    ensures XorFold(x, s) != XorFold(x, t)
    decreases |s|
  {
    var n := |s| - 1;
    if k == n {
      assert s[..n] == t[..n];
      XorInjective(s[n], t[n], XorFold(x, s[..n]));
    } else {
      XorFoldDetects(x, s[..n], t[..n], k);
      XorInjective(XorFold(x, s[..n]), XorFold(x, t[..n]), s[n]);
    }
  }

  function AndBits(n: nat, a: nat, b: nat): (r: nat)
    ensures r < Pow2(n)
  {
    if n == 0 then 0
    else (if a % 2 == 1 && b % 2 == 1 then 1 else 0) + 2 * AndBits(n - 1, a / 2, b / 2)
  }

  lemma {:induction false} AndBitsBit(n: nat, a: nat, b: nat, i: nat)
    requires i < n
    ensures Bit(i, AndBits(n, a, b)) <==> Bit(i, a) && Bit(i, b)
  {
    if i > 0 {
      AndBitsBit(n - 1, a / 2, b / 2, i - 1);
      assert AndBits(n, a, b) / 2 == AndBits(n - 1, a / 2, b / 2);
    }
  }

  /** `b & ~0x20`. */
  function ClearBit5(b: byte): byte {
    assert Pow2(8) == 256 by { assert Pow2(4) == 16; }
    AndBits(8, b, 0xDF)
  }

  /** Bit 0x20 ends up clear and every other bit keeps its value. */
  lemma ClearBit5Bits(b: byte, i: nat)
    requires i < 8
    ensures Bit(i, ClearBit5(b)) <==> i != 5 && Bit(i, b)
  {
    AndBitsBit(8, b, 0xDF, i);
    assert Bit(i, 0xDF) <==> i != 5 by {
      if i < 4 {
      } else {
        assert Bit(i, 0xDF) == Bit(i - 4, 0xD);
      }
    }
  }
}
