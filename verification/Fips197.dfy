/** FIPS 197 once more, byte by byte and in numbers: the state as rows and columns of bytes, the round
    as one formula for each byte, the key schedule with its constants written out. The column functions
    of Rijndael.dfy, and the words in the expanded key, are proved to be this. */
module Fips197 {
  import opened Bits
  import opened Rijndael
  import opened RijndaelCipher

  // ---------- The field ----------

  /** Doubling is a shift, reduced by the polynomial 11B (section 4.2). */
  lemma DoublingReduces(a: byte)
    ensures X2(a) == Xor(2 * a, if a < 0x80 then 0 else 0x11B)
  {
    if a < 0x80 {
      XorZero(2 * a);
    } else {
      var m := 2 * a - 0x100;
      XorByBytes(m, 1, 0x1B, 1);
      XorSelf(1);
      assert m + 0x100 * 1 == 2 * a && 0x1B + 0x100 * 1 == 0x11B;
    }
  }

  /** Exclusive or, digit by hexadecimal digit. */
  lemma ByHalves(a: nat, b: nat, c: nat, d: nat)
    requires a < 16 && b < 16 && c < 16 && d < 16
    ensures Xb(a + 16 * b, c + 16 * d) == Xor(a, c) + 16 * Xor(b, d)
  {
    hide Join, Xor, Pow2;
    XorSplits(4, a, b, c, d);
    JoinFour(a, b);
    JoinFour(c, d);
    Pow2Four();
    XorFits(a, c, 4);
    JoinFour(Xor(a, c), Xor(b, d));
  }

  lemma Pow2Four()
    ensures Pow2(4) == 16
  {
  }

  /** The example of section 4.2.1. */
  lemma DoublingExample()
    ensures X2(0x57) == 0xAE && X2(0xAE) == 0x47 && X2(0x47) == 0x8E && X2(0x8E) == 0x07
  {
    hide Xb;
    assert X2(0xAE) == Xb(0x5C, 0x1B) && X2(0x8E) == Xb(0x1C, 0x1B);
    ByHalves(0xC, 5, 0xB, 1);
    ByHalves(0xC, 1, 0xB, 1);
    assert Xor(0xC, 0xB) == 7 && Xor(5, 1) == 4 && Xor(1, 1) == 0;
  }

  /** A byte times 1, 2 or 3. */
  function Times(n: nat, a: byte): byte
    requires 1 <= n <= 3
  {
    if n == 1 then a else if n == 2 then X2(a) else Xb(X2(a), a)
  }

  /** The coefficients of MixColumns, from the diagonal on (section 5.1.3). */
  const MIX: seq<nat> := [2, 3, 1, 1]

  function Coefficient(row: nat, of: nat): (n: nat)
    requires row < 4 && of < 4
    ensures 1 <= n <= 3
  {
    MIX[(of + 4 - row) % 4]
  }

  // ---------- The state as rows and columns ----------

  function Row(c: Col, r: nat): byte
    requires r < 4
  {
    if r == 0 then c.b0 else if r == 1 then c.b1 else if r == 2 then c.b2 else c.b3
  }

  function Column(s: Block, c: nat): Col
    requires c < 4
  {
    if c == 0 then s.c0 else if c == 1 then s.c1 else if c == 2 then s.c2 else s.c3
  }

  function At(s: Block, r: nat, c: nat): byte
    requires r < 4 && c < 4
  {
    Row(Column(s, c), r)
  }

  /** Section 3.4: byte r + 4c of the input is in row r of column c, and so for the output. */
  lemma BytesInColumns(b: seq<byte>, s: Block, r: nat, c: nat)
    requires |b| == 16 && r < 4 && c < 4
    ensures At(BlockOf(b), r, c) == b[r + 4 * c] && BlockBytes(s)[r + 4 * c] == At(s, r, c)
  {
  }

  lemma ShiftedByte(s: Block, r: nat, c: nat)
    requires r < 4 && c < 4
    ensures At(ShiftRows(s), r, c) == At(s, r, (c + r) % 4)
  {
  }

  lemma SubstitutedByte(S: byte -> byte, s: Block, r: nat, c: nat)
    requires r < 4 && c < 4
    ensures At(SubBytes(S, s), r, c) == S(At(s, r, c))
  {
  }

  lemma KeyedByte(s: Block, k: Block, r: nat, c: nat)
    requires r < 4 && c < 4
    ensures At(AddRoundKey(s, k), r, c) == Xb(At(s, r, c), At(k, r, c))
  {
    hide Xb;
  }

  lemma MixedByte(s: Block, r: nat, c: nat)
    requires r < 4 && c < 4
    ensures At(MixColumns(s), r, c)
            == Xor4(Times(Coefficient(r, 0), At(s, 0, c)), Times(Coefficient(r, 1), At(s, 1, c)),
                    Times(Coefficient(r, 2), At(s, 2, c)), Times(Coefficient(r, 3), At(s, 3, c)))
  {
    hide Xb, X2, Xor4;
  }

  // ---------- The rounds ----------

  /** Byte (r, c) of a state, shifted and substituted. */
  function Picked(S: byte -> byte, s: Block, r: nat, c: nat): byte
    requires r < 4 && c < 4
  {
    S(At(s, r, (c + r) % 4))
  }

  /** Each byte of the state after round n, n > 0, from the state before it. */
  lemma RoundByte(S: byte -> byte, key: Block, block: Block, n: nat, r: nat, c: nat)
    requires n > 0 && r < 4 && c < 4
    ensures var s := AfterRounds(S, key, block, n - 1);
      At(AfterRounds(S, key, block, n), r, c)
      == Xb(Xor4(Times(Coefficient(r, 0), Picked(S, s, 0, c)), Times(Coefficient(r, 1), Picked(S, s, 1, c)),
                 Times(Coefficient(r, 2), Picked(S, s, 2, c)), Times(Coefficient(r, 3), Picked(S, s, 3, c))),
            Row(ScheduleWord(S, key, 4 * n + c), r))
  {
    hide At, SubBytes, ShiftRows, MixColumns, AddRoundKey, Xb, Xor4, Times, Coefficient;
    var s := AfterRounds(S, key, block, n - 1);
    var subbed := SubBytes(S, s);
    var shifted := ShiftRows(subbed);
    RoundKeyByte(S, key, n, r, c);
    KeyedByte(MixColumns(shifted), RoundKey(S, key, n), r, c);
    MixedByte(shifted, r, c);
    PickedByte(S, s, 0, c);
    PickedByte(S, s, 1, c);
    PickedByte(S, s, 2, c);
    PickedByte(S, s, 3, c);
  }

  lemma PickedByte(S: byte -> byte, s: Block, r: nat, c: nat)
    requires r < 4 && c < 4
    ensures At(ShiftRows(SubBytes(S, s)), r, c) == Picked(S, s, r, c)
  {
    hide At, SubBytes, ShiftRows;
    ShiftedByte(SubBytes(S, s), r, c);
    SubstitutedByte(S, s, r, (c + r) % 4);
  }

  lemma RoundKeyByte(S: byte -> byte, key: Block, n: nat, r: nat, c: nat)
    requires r < 4 && c < 4
    ensures At(RoundKey(S, key, n), r, c) == Row(ScheduleWord(S, key, 4 * n + c), r)
  {
    hide ScheduleWord;
  }

  /** Before the first round the state is the input masked with the key; the output is the state after
      nine rounds, shifted, substituted and masked with words 40 to 43. */
  lemma CipherByte(S: byte -> byte, key: seq<byte>, block: seq<byte>, r: nat, c: nat)
    requires |key| == |block| == 16 && r < 4 && c < 4
    ensures At(AfterRounds(S, BlockOf(key), BlockOf(block), 0), r, c) == Xb(block[r + 4 * c], key[r + 4 * c])
    ensures var s := AfterRounds(S, BlockOf(key), BlockOf(block), 9);
      Cipher(S, key, block)[r + 4 * c] == Xb(Picked(S, s, r, c), Row(ScheduleWord(S, BlockOf(key), 40 + c), r))
  {
    hide At, SubBytes, ShiftRows, AddRoundKey, Xb, ScheduleWord, BlockOf, BlockBytes;
    var k, b := BlockOf(key), BlockOf(block);
    var s := AfterRounds(S, k, b, 9);
    hide RoundKey;
    FirstRoundKey(S, k);
    KeyedByte(b, k, r, c);
    BytesInColumns(block, b, r, c);
    BytesInColumns(key, CipherBlock(S, k, b), r, c);
    PickedByte(S, s, r, c);
    RoundKeyByte(S, k, 10, r, c);
    KeyedByte(ShiftRows(SubBytes(S, s)), RoundKey(S, k, 10), r, c);
  }

  lemma FirstRoundKey(S: byte -> byte, key: Block)
    ensures RoundKey(S, key, 0) == key
  {
  }

  // ---------- The key schedule ----------

  /** The round constants of section 5.2, for words 4, 8, ... 40. */
  function RoundConstant(i: nat): byte
    requires 4 <= i <= 40 && i % 4 == 0
  {
    [0x01, 0x02, 0x04, 0x08, 0x10, 0x20, 0x40, 0x80, 0x1B, 0x36][i / 4 - 1]
  }

  /** Section 5.2: words 0 to 3 are the key. Every fourth word from 4 on masks the word four before with
      the last word, its bytes turned by one place and substituted, and the constant; the others mask it
      with the last word as it is. */
  lemma ScheduleBytes(S: byte -> byte, key: seq<byte>, i: nat)
    requires |key| == 16 && i < 44
    ensures var k := BlockOf(key);
      var w := ScheduleWord(S, k, i);
      if i < 4 then w == Col(key[4 * i], key[4 * i + 1], key[4 * i + 2], key[4 * i + 3])
      else
        var back, last := ScheduleWord(S, k, i - 4), ScheduleWord(S, k, i - 1);
        if i % 4 == 0 then
          w == Col(Xb(back.b0, Xb(S(last.b1), RoundConstant(i))), Xb(back.b1, S(last.b2)),
                   Xb(back.b2, S(last.b3)), Xb(back.b3, S(last.b0)))
        else
          w == Col(Xb(back.b0, last.b0), Xb(back.b1, last.b1), Xb(back.b2, last.b2), Xb(back.b3, last.b3))
  {
    hide Xb, Rcon;
    if i >= 4 && i % 4 == 0 {
      var last := ScheduleWord(S, BlockOf(key), i - 1);
      ConstantIsRcon(i);
      XorByteZero(S(last.b2));
      XorByteZero(S(last.b3));
      XorByteZero(S(last.b0));
    }
  }

  lemma ConstantIsRcon(i: nat)
    requires 4 <= i <= 40 && i % 4 == 0
    ensures RoundConstant(i) == Rcon(i / 4)
  {
    RndConIsRcon(i / 4 - 1);
    hide Rcon;
    ValueBytes(Col(Rcon(i / 4), 0, 0, 0));
  }

  /** Word 4, from the bytes of the key. */
  lemma FifthWord(S: byte -> byte, key: seq<byte>)
    requires |key| == 16
    ensures ScheduleWord(S, BlockOf(key), 4)
            == Col(Xb(key[0], Xb(S(key[13]), 1)), Xb(key[1], S(key[14])),
                   Xb(key[2], S(key[15])), Xb(key[3], S(key[12])))
  {
    hide Xb, ScheduleWord, BlockOf;
    ScheduleBytes(S, key, 0);
    ScheduleBytes(S, key, 3);
    ScheduleBytes(S, key, 4);
  }

  /** The example of appendix A.1, given the four values of the S-box it needs. */
  lemma KeyExample(S: byte -> byte)
    requires S(0xCF) == 0x8A && S(0x4F) == 0x84 && S(0x3C) == 0xEB && S(0x09) == 0x01
    ensures var key := [0x2B, 0x7E, 0x15, 0x16, 0x28, 0xAE, 0xD2, 0xA6, 0xAB, 0xF7, 0x15, 0x88, 0x09, 0xCF, 0x4F, 0x3C];
      ScheduleWord(S, BlockOf(key), 4) == Col(0xA0, 0xFA, 0xFE, 0x17)
  {
    hide ScheduleWord, BlockOf, Xb;
    FifthWord(S, [0x2B, 0x7E, 0x15, 0x16, 0x28, 0xAE, 0xD2, 0xA6, 0xAB, 0xF7, 0x15, 0x88, 0x09, 0xCF, 0x4F, 0x3C]);
    FirstByteOfExample();
    SecondByteOfExample();
    OtherBytesOfExample();
  }

  lemma FirstByteOfExample()
    ensures Xb(0x8A, 1) == 0x8B && Xb(0x2B, 0x8B) == 0xA0
  {
    hide Xb;
    ByHalves(0xA, 8, 1, 0);
    ByHalves(0xB, 2, 0xB, 8);
    assert Xor(0xA, 1) == 0xB && Xor(8, 0) == 8 && Xor(0xB, 0xB) == 0 && Xor(2, 8) == 0xA;
  }

  lemma SecondByteOfExample()
    ensures Xb(0x7E, 0x84) == 0xFA
  {
    hide Xb;
    ByHalves(0xE, 7, 4, 8);
    assert Xor(0xE, 4) == 0xA && Xor(7, 8) == 0xF;
  }

  lemma OtherBytesOfExample()
    ensures Xb(0x15, 0xEB) == 0xFE && Xb(0x16, 0x01) == 0x17
  {
    hide Xb;
    ByHalves(5, 1, 0xB, 0xE);
    ByHalves(6, 1, 1, 0);
    assert Xor(5, 0xB) == 0xE && Xor(1, 0xE) == 0xF && Xor(6, 1) == 7 && Xor(1, 0) == 1;
  }

  function WordByte(w: word, r: nat): byte
    requires r < 4
  {
    if r == 0 then Byte0(w) else if r == 1 then Byte1(w) else if r == 2 then Byte2(w) else Byte3(w)
  }

  /** The same of the 44 words in memory, once the key schedule has run. */
  lemma ExpandedKeyBytes(aes: Rijndael128, key: seq<byte>, i: nat, r: nat)
    requires |key| == 16 && aes.Scheduled(BlockOf(key)) && i < 44 && r < 4
    ensures aes.eKey.Length == 44
    ensures var b := WordByte(aes.eKey[i], r);
      if i < 4 then b == key[4 * i + r]
      else if i % 4 == 0 then
        b == Xb(WordByte(aes.eKey[i - 4], r),
                if r == 0 then Xb(aes.S(WordByte(aes.eKey[i - 1], 1)), RoundConstant(i))
                else aes.S(WordByte(aes.eKey[i - 1], (r + 1) % 4)))
      else b == Xb(WordByte(aes.eKey[i - 4], r), WordByte(aes.eKey[i - 1], r))
  {
    hide Xb, ScheduleWord, BlockOf, RoundConstant;
    var k := BlockOf(key);
    ScheduleBytes(aes.S, key, i);
    WordOfColumn(ScheduleWord(aes.S, k, i), r);
    if i >= 4 {
      WordOfColumn(ScheduleWord(aes.S, k, i - 4), r);
      WordOfColumn(ScheduleWord(aes.S, k, i - 1), r);
      WordOfColumn(ScheduleWord(aes.S, k, i - 1), (r + 1) % 4);
    }
  }

  lemma WordOfColumn(c: Col, r: nat)
    requires r < 4
    ensures WordByte(Value(c), r) == Row(c, r)
  {
    hide Value, Byte0, Byte1, Byte2, Byte3;
    ValueBytes(c);
  }
}
