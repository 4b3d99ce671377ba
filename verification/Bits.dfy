/** Exclusive or on unsigned numbers, bit by bit, and the laws the ciphers and the word packing need.
    Shifts and masks of unsigned C arithmetic are written as division, remainder and product. */
module Bits {

  type byte = n: nat | n < 0x100
  type word = n: nat | n < 0x1_0000_0000

  function Xor(a: nat, b: nat): nat {
    if a == 0 && b == 0 then 0 else (if a % 2 == b % 2 then 0 else 1) + 2 * Xor(a / 2, b / 2)
  }

  function Pow2(k: nat): (p: nat)
    ensures p > 0
  {
    if k == 0 then 1 else 2 * Pow2(k - 1)
  }

  lemma {:induction false} XorFits(a: nat, b: nat, k: nat)
    requires a < Pow2(k) && b < Pow2(k)
    ensures Xor(a, b) < Pow2(k)
  {
    if k > 0 && (a > 0 || b > 0) {
      XorFits(a / 2, b / 2, k - 1);
    }
  }

  lemma {:induction false} XorSelf(a: nat)
    ensures Xor(a, a) == 0
  {
    if a > 0 {
      XorSelf(a / 2);
    }
  }

  lemma {:induction false} XorZero(a: nat)
    ensures Xor(a, 0) == Xor(0, a) == a
  {
    if a > 0 {
      XorZero(a / 2);
    }
  }

  lemma {:induction false} XorCommutes(a: nat, b: nat)
    ensures Xor(a, b) == Xor(b, a)
  {
    if a > 0 || b > 0 {
      XorCommutes(a / 2, b / 2);
    }
  }

  lemma {:induction false} XorAssociates(a: nat, b: nat, c: nat)
    ensures Xor(Xor(a, b), c) == Xor(a, Xor(b, c))
    decreases a + b + c
  {
    if a > 0 || b > 0 || c > 0 {
      XorAssociates(a / 2, b / 2, c / 2);
      XorHalves(a, b);
      XorHalves(b, c);
      XorHalves(Xor(a, b), c);
      XorHalves(a, Xor(b, c));
    }
  }

  lemma XorHalves(a: nat, b: nat)
    ensures Xor(a, b) / 2 == Xor(a / 2, b / 2)
    ensures Xor(a, b) % 2 == if a % 2 == b % 2 then 0 else 1
  {
  }

  /** What is masked with a key is recovered with the same key. */
  lemma XorCancels(a: nat, b: nat)
    ensures Xor(Xor(a, b), b) == a
  {
    XorAssociates(a, b, b);
    XorSelf(b);
    XorZero(a);
  }

  /** x in the low k bits, y above them. */
  function Join(k: nat, x: nat, y: nat): nat {
    if k == 0 then y else x % 2 + 2 * Join(k - 1, x / 2, y)
  }

  /** Low and high parts do not mix. */
  lemma {:induction false} XorSplits(k: nat, x: nat, y: nat, u: nat, v: nat)
    ensures Xor(Join(k, x, y), Join(k, u, v)) == Join(k, Xor(x, u), Xor(y, v))
  {
    if k > 0 {
      XorSplits(k - 1, x / 2, y, u / 2, v);
      XorHalves(x, u);
      var a, b := Join(k, x, y), Join(k, u, v);
      assert a / 2 == Join(k - 1, x / 2, y) && b / 2 == Join(k - 1, u / 2, v);
      XorHalves(a, b);
    }
  }

  lemma JoinFour(x: nat, y: nat)
    requires x < 16
    ensures Join(4, x, y) == x + 16 * y
  {
    assert Join(1, x / 8, y) == x / 8 + 2 * y;
    assert Join(2, x / 4, y) == x / 4 + 4 * y;
    assert Join(3, x / 2, y) == x / 2 + 8 * y;
  }

  lemma JoinByte(x: byte, y: nat)
    ensures Join(8, x, y) == x + 0x100 * y
  {
    JoinFour(x / 16, y);
    assert Join(5, x / 8, y) == x / 8 + 32 * y;
    assert Join(6, x / 4, y) == x / 4 + 64 * y;
    assert Join(7, x / 2, y) == x / 2 + 128 * y;
  }

  /** Exclusive or works byte by byte. */
  lemma XorByBytes(x: byte, y: nat, u: byte, v: nat)
    ensures Xor(x + 0x100 * y, u + 0x100 * v) == Xb(x, u) + 0x100 * Xor(y, v)
  {
    hide Xor, Join;
    JoinByte(x, y);
    JoinByte(u, v);
    JoinByte(Xb(x, u), Xor(y, v));
    XorSplits(8, x, y, u, v);
  }

  lemma Pow2Byte()
    ensures Pow2(8) == 0x100
  {
  }

  /** Exclusive or of bytes. */
  function Xb(a: byte, b: byte): byte {
    Pow2Byte();
    XorFits(a, b, 8);
    Xor(a, b)
  }

  /** Exclusive or of 32-bit words. */
  function Xw(a: word, b: word): word {
    Pow2Word();
    XorFits(a, b, 32);
    Xor(a, b)
  }

  lemma Pow2Word()
    ensures Pow2(32) == 0x1_0000_0000
  {
    Pow2Byte();
    assert Pow2(12) == 0x1000;
    assert Pow2(16) == 0x1_0000;
    assert Pow2(20) == 0x10_0000;
    assert Pow2(24) == 0x100_0000;
    assert Pow2(28) == 0x1000_0000;
  }

  // ---------- Four bytes in a word ----------

  /** Four bytes read as a little-endian word. */
  function LittleEndian(a: byte, b: byte, c: byte, d: byte): word {
    a + 0x100 * b + 0x1_0000 * c + 0x100_0000 * d
  }

  lemma LowByte(a: byte, b: byte, c: byte, d: byte)
    ensures LittleEndian(a, b, c, d) % 0x100 == a
    ensures LittleEndian(a, b, c, d) / 0x100 == b + 0x100 * c + 0x1_0000 * d
  {
  }

  lemma SecondByte(a: byte, b: byte, c: byte, d: byte)
    ensures LittleEndian(a, b, c, d) / 0x100 % 0x100 == b
  {
    LowByte(a, b, c, d);
    LowByte(b, c, d, 0);
  }

  lemma ThirdByte(a: byte, b: byte, c: byte, d: byte)
    ensures LittleEndian(a, b, c, d) / 0x1_0000 % 0x100 == c
  {
    assert LittleEndian(a, b, c, d) / 0x1_0000 == c + 0x100 * d;
  }

  lemma FourthByte(a: byte, b: byte, c: byte, d: byte)
    ensures LittleEndian(a, b, c, d) / 0x100_0000 % 0x100 == d
  {
  }

  // The byte extractions and rotations of a word, as shifts and truncations. The two parts of a
  // rotation have no bit in common, so their sum is their union.

  function Byte0(x: word): byte { x % 0x100 }

  function Byte1(x: word): byte { x / 0x100 % 0x100 }

  function Byte2(x: word): byte { x / 0x1_0000 % 0x100 }

  function Byte3(x: word): byte { x / 0x100_0000 % 0x100 }

  function Rotl8(x: word): word { x * 0x100 % 0x1_0000_0000 + x / 0x100_0000 }

  function Rotl16(x: word): word { x * 0x1_0000 % 0x1_0000_0000 + x / 0x1_0000 }

  function Rotl24(x: word): word { x * 0x100_0000 % 0x1_0000_0000 + x / 0x100 }

  lemma Rotate1(a: byte, b: byte, c: byte, d: byte)
    ensures Rotl8(LittleEndian(a, b, c, d)) == LittleEndian(d, a, b, c)
  {
    assert LittleEndian(a, b, c, d) / 0x100_0000 == d;
    assert LittleEndian(a, b, c, d) * 0x100 % 0x1_0000_0000 == 0x100 * a + 0x1_0000 * b + 0x100_0000 * c;
  }

  lemma Rotate2(a: byte, b: byte, c: byte, d: byte)
    ensures Rotl16(LittleEndian(a, b, c, d)) == LittleEndian(c, d, a, b)
  {
    assert LittleEndian(a, b, c, d) / 0x1_0000 == c + 0x100 * d;
    assert LittleEndian(a, b, c, d) * 0x1_0000 % 0x1_0000_0000 == 0x1_0000 * a + 0x100_0000 * b;
  }

  lemma Rotate3(a: byte, b: byte, c: byte, d: byte)
    ensures Rotl24(LittleEndian(a, b, c, d)) == LittleEndian(b, c, d, a)
  {
    LowByte(a, b, c, d);
    assert LittleEndian(a, b, c, d) * 0x100_0000 % 0x1_0000_0000 == 0x100_0000 * a;
  }

  lemma XorLittleEndian(a: byte, b: byte, c: byte, d: byte, e: byte, f: byte, g: byte, h: byte)
    ensures Xw(LittleEndian(a, b, c, d), LittleEndian(e, f, g, h))
            == LittleEndian(Xb(a, e), Xb(b, f), Xb(c, g), Xb(d, h))
  {
    hide Xor;
    XorByBytes(c, d, g, h);
    XorByBytes(b, c + 0x100 * d, f, g + 0x100 * h);
    XorByBytes(a, b + 0x100 * (c + 0x100 * d), e, f + 0x100 * (g + 0x100 * h));
  }
}
