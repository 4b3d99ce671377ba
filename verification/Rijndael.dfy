/** What the table-driven AES-128 encryption behind Milenage is measured against: the key expansion and
    the cipher of FIPS 197 (sections 5.2 and 5.1), and the columns of the standard as little-endian
    32-bit words. A row of 256 table words is a function of a byte. */
module Rijndael {
  import opened Bits

  /** A column of the cipher state: its bytes in rows 0 to 3. */
  datatype Col = Col(b0: byte, b1: byte, b2: byte, b3: byte)

  // ---------- FIPS 197 ----------

  /** Multiplication by x in GF(2^8), section 4.2.1. */
  function X2(a: byte): byte {
    if a < 0x80 then 2 * a else Xb(2 * a - 0x100, 0x1B)
  }

  function X3(a: byte): byte {
    Xb(X2(a), a)
  }

  function ColXor(a: Col, b: Col): Col {
    Col(Xb(a.b0, b.b0), Xb(a.b1, b.b1), Xb(a.b2, b.b2), Xb(a.b3, b.b3))
  }

  function SubCol(S: byte -> byte, c: Col): Col {
    Col(S(c.b0), S(c.b1), S(c.b2), S(c.b3))
  }

  function Xor4(a: byte, b: byte, c: byte, d: byte): byte {
    Xb(Xb(Xb(a, b), c), d)
  }

  /** One column of MixColumns, section 5.1.3. */
  function MixCol(c: Col): Col {
    Col(Xor4(X2(c.b0), X3(c.b1), c.b2, c.b3),
        Xor4(c.b0, X2(c.b1), X3(c.b2), c.b3),
        Xor4(c.b0, c.b1, X2(c.b2), X3(c.b3)),
        Xor4(X3(c.b0), c.b1, c.b2, X2(c.b3)))
  }

  /** The cipher state, or a key: four columns. */
  datatype Block = Block(c0: Col, c1: Col, c2: Col, c3: Col)

  function SubBytes(S: byte -> byte, s: Block): Block {
    Block(SubCol(S, s.c0), SubCol(S, s.c1), SubCol(S, s.c2), SubCol(S, s.c3))
  }

  /** Row r of each column comes from r columns further on, section 5.1.2. */
  function ShiftRows(s: Block): Block {
    Block(Col(s.c0.b0, s.c1.b1, s.c2.b2, s.c3.b3),
          Col(s.c1.b0, s.c2.b1, s.c3.b2, s.c0.b3),
          Col(s.c2.b0, s.c3.b1, s.c0.b2, s.c1.b3),
          Col(s.c3.b0, s.c0.b1, s.c1.b2, s.c2.b3))
  }

  function MixColumns(s: Block): Block {
    Block(MixCol(s.c0), MixCol(s.c1), MixCol(s.c2), MixCol(s.c3))
  }

  function AddRoundKey(s: Block, k: Block): Block {
    Block(ColXor(s.c0, k.c0), ColXor(s.c1, k.c1), ColXor(s.c2, k.c2), ColXor(s.c3, k.c3))
  }

  function RotWord(c: Col): Col {
    Col(c.b1, c.b2, c.b3, c.b0)
  }

  function Rcon(i: nat): byte
    requires i >= 1
  {
    if i == 1 then 1 else X2(Rcon(i - 1))
  }

  /** Word i of the key schedule, section 5.2 with Nk = 4. */
  function ScheduleWord(S: byte -> byte, key: Block, i: nat): Col {
    if i == 0 then key.c0
    else if i == 1 then key.c1
    else if i == 2 then key.c2
    else if i == 3 then key.c3
    else
      var temp := ScheduleWord(S, key, i - 1);
      ColXor(ScheduleWord(S, key, i - 4),
             if i % 4 == 0 then ColXor(SubCol(S, RotWord(temp)), Col(Rcon(i / 4), 0, 0, 0)) else temp)
  }

  lemma FirstWords(S: byte -> byte, key: Block)
    ensures ScheduleWord(S, key, 0) == key.c0 && ScheduleWord(S, key, 1) == key.c1
    ensures ScheduleWord(S, key, 2) == key.c2 && ScheduleWord(S, key, 3) == key.c3
  {
  }

  lemma PlainWord(S: byte -> byte, key: Block, i: nat)
    requires i >= 4 && i % 4 != 0
    ensures ScheduleWord(S, key, i) == ColXor(ScheduleWord(S, key, i - 4), ScheduleWord(S, key, i - 1))
  {
  }

  function RoundKey(S: byte -> byte, key: Block, r: nat): Block {
    Block(ScheduleWord(S, key, 4 * r), ScheduleWord(S, key, 4 * r + 1),
          ScheduleWord(S, key, 4 * r + 2), ScheduleWord(S, key, 4 * r + 3))
  }

  /** The state after the initial key addition and r full rounds. */
  function AfterRounds(S: byte -> byte, key: Block, block: Block, r: nat): Block {
    if r == 0 then AddRoundKey(block, RoundKey(S, key, 0))
    else
      AddRoundKey(MixColumns(ShiftRows(SubBytes(S, AfterRounds(S, key, block, r - 1)))), RoundKey(S, key, r))
  }

  function CipherBlock(S: byte -> byte, key: Block, block: Block): Block {
    AddRoundKey(ShiftRows(SubBytes(S, AfterRounds(S, key, block, 9))), RoundKey(S, key, 10))
  }

  // ---------- Columns as words ----------

  /** The program keeps a column in a 32-bit word, read in little-endian order. */
  function Value(c: Col): word {
    LittleEndian(c.b0, c.b1, c.b2, c.b3)
  }

  /** The column one, two and three bytes on. */
  function Rot1(c: Col): Col { Col(c.b3, c.b0, c.b1, c.b2) }

  function Rot2(c: Col): Col { Col(c.b2, c.b3, c.b0, c.b1) }

  function Rot3(c: Col): Col { Col(c.b1, c.b2, c.b3, c.b0) }

  lemma ValueXor(a: Col, b: Col)
    ensures Value(ColXor(a, b)) == Xw(Value(a), Value(b))
  {
    XorLittleEndian(a.b0, a.b1, a.b2, a.b3, b.b0, b.b1, b.b2, b.b3);
  }

  lemma ValueBytes(c: Col)
    ensures Byte0(Value(c)) == c.b0 && Byte1(Value(c)) == c.b1
    ensures Byte2(Value(c)) == c.b2 && Byte3(Value(c)) == c.b3
  {
    LowByte(c.b0, c.b1, c.b2, c.b3);
    SecondByte(c.b0, c.b1, c.b2, c.b3);
    ThirdByte(c.b0, c.b1, c.b2, c.b3);
    FourthByte(c.b0, c.b1, c.b2, c.b3);
  }

  lemma ValueRotates(c: Col)
    ensures Rotl8(Value(c)) == Value(Rot1(c))
    ensures Rotl16(Value(c)) == Value(Rot2(c))
    ensures Rotl24(Value(c)) == Value(Rot3(c))
  {
    Rotate1(c.b0, c.b1, c.b2, c.b3);
    Rotate2(c.b0, c.b1, c.b2, c.b3);
    Rotate3(c.b0, c.b1, c.b2, c.b3);
  }

  function Xw4(a: word, b: word, c: word, d: word): word {
    Xw(Xw(Xw(a, b), c), d)
  }

  function ColXor4(a: Col, b: Col, c: Col, d: Col): Col {
    ColXor(ColXor(ColXor(a, b), c), d)
  }

  lemma ValueXor4(a: Col, b: Col, c: Col, d: Col)
    ensures Xw4(Value(a), Value(b), Value(c), Value(d)) == Value(ColXor4(a, b, c, d))
  {
    hide Xw, ColXor, Value;
    ValueXor(a, b);
    ValueXor(ColXor(a, b), c);
    ValueXor(ColXor(ColXor(a, b), c), d);
  }

  // ---------- The tables ----------

  datatype Tables = Tables(ft: seq<byte -> word>, fl: seq<byte -> word>)

  function FCol(s: byte): Col {
    Col(X2(s), s, s, X3(s))
  }

  function LCol(s: byte): Col {
    Col(s, 0, 0, 0)
  }

  /** Row 0 holds the given word for each byte, rows 1 to 3 its rotations. */
  ghost predicate Rotations(rows: seq<byte -> word>, row: byte -> word) {
    && |rows| == 4
    && forall a: byte :: rows[0](a) == row(a) && rows[1](a) == Rotl8(row(a))
                         && rows[2](a) == Rotl16(row(a)) && rows[3](a) == Rotl24(row(a))
  }

  /** `ft` holds the words (2S, S, S, 3S) and `fl` the words (S, 0, 0, 0). */
  ghost predicate TablesFor(S: byte -> byte, t: Tables) {
    Rotations(t.ft, (a: byte) => Value(FCol(S(a)))) && Rotations(t.fl, (a: byte) => Value(LCol(S(a))))
  }

  /** The rotated words are those of the rotated columns. */
  lemma TableColumns(S: byte -> byte, t: Tables, a: byte)
    requires TablesFor(S, t)
    ensures |t.ft| == |t.fl| == 4
    ensures t.ft[0](a) == Value(FCol(S(a))) && t.ft[1](a) == Value(Rot1(FCol(S(a))))
    ensures t.ft[2](a) == Value(Rot2(FCol(S(a)))) && t.ft[3](a) == Value(Rot3(FCol(S(a))))
    ensures t.fl[0](a) == Value(LCol(S(a))) && t.fl[1](a) == Value(Rot1(LCol(S(a))))
    ensures t.fl[2](a) == Value(Rot2(LCol(S(a)))) && t.fl[3](a) == Value(Rot3(LCol(S(a))))
  {
    hide Value, FCol, LCol, Rotl8, Rotl16, Rotl24;
    ValueRotates(FCol(S(a)));
    ValueRotates(LCol(S(a)));
  }

  lemma FColumnsMix(S: byte -> byte, a: byte, b: byte, c: byte, d: byte)
    ensures ColXor4(FCol(S(a)), Rot1(FCol(S(b))), Rot2(FCol(S(c))), Rot3(FCol(S(d))))
            == MixCol(SubCol(S, Col(a, b, c, d)))
  {
    hide Xb, X2, X3;
  }

  /** Four lookups and three exclusive ors of words do SubBytes and MixColumns on a shifted column. */
  lemma FTablesMix(S: byte -> byte, t: Tables, a: byte, b: byte, c: byte, d: byte)
    requires TablesFor(S, t)
    ensures |t.ft| == 4
    ensures Xw4(t.ft[0](a), t.ft[1](b), t.ft[2](c), t.ft[3](d)) == Value(MixCol(SubCol(S, Col(a, b, c, d))))
  {
    hide *;
    TableColumns(S, t, a);
    TableColumns(S, t, b);
    TableColumns(S, t, c);
    TableColumns(S, t, d);
    ValueXor4(FCol(S(a)), Rot1(FCol(S(b))), Rot2(FCol(S(c))), Rot3(FCol(S(d))));
    FColumnsMix(S, a, b, c, d);
  }

  lemma XorByteZero(a: byte)
    ensures Xb(a, 0) == Xb(0, a) == a
  {
    XorZero(a);
  }

  lemma LColumnsSub(S: byte -> byte, a: byte, b: byte, c: byte, d: byte)
    ensures ColXor4(LCol(S(a)), Rot1(LCol(S(b))), Rot2(LCol(S(c))), Rot3(LCol(S(d)))) == SubCol(S, Col(a, b, c, d))
  {
    hide Xb;
    XorByteZero(S(a));
    XorByteZero(S(b));
    XorByteZero(S(c));
    XorByteZero(S(d));
    XorByteZero(0);
  }

  /** The same without MixColumns. */
  lemma LTablesSub(S: byte -> byte, t: Tables, a: byte, b: byte, c: byte, d: byte)
    requires TablesFor(S, t)
    ensures |t.fl| == 4
    ensures Xw4(t.fl[0](a), t.fl[1](b), t.fl[2](c), t.fl[3](d)) == Value(SubCol(S, Col(a, b, c, d)))
  {
    hide *;
    TableColumns(S, t, a);
    TableColumns(S, t, b);
    TableColumns(S, t, c);
    TableColumns(S, t, d);
    ValueXor4(LCol(S(a)), Rot1(LCol(S(b))), Rot2(LCol(S(c))), Rot3(LCol(S(d))));
    LColumnsSub(S, a, b, c, d);
  }

  lemma ColXorAssociates(a: Col, b: Col, c: Col)
    ensures ColXor(ColXor(a, b), c) == ColXor(a, ColXor(b, c))
  {
    XorAssociates(a.b0, b.b0, c.b0);
    XorAssociates(a.b1, b.b1, c.b1);
    XorAssociates(a.b2, b.b2, c.b2);
    XorAssociates(a.b3, b.b3, c.b3);
  }

  // ---------- Buffers ----------

  function ColAt(b: seq<byte>, o: nat): Col
    requires o + 4 <= |b|
  {
    Col(b[o], b[o + 1], b[o + 2], b[o + 3])
  }

  function BlockOf(b: seq<byte>): Block
    requires |b| == 16
  {
    Block(ColAt(b, 0), ColAt(b, 4), ColAt(b, 8), ColAt(b, 12))
  }

  function ColBytes(c: Col): seq<byte> {
    [c.b0, c.b1, c.b2, c.b3]
  }

  function BlockBytes(s: Block): (b: seq<byte>)
    ensures |b| == 16 && BlockOf(b) == s
  {
    ColBytes(s.c0) + ColBytes(s.c1) + ColBytes(s.c2) + ColBytes(s.c3)
  }

  /** The cipher on 16-byte blocks. */
  function Cipher(S: byte -> byte, key: seq<byte>, block: seq<byte>): (out: seq<byte>)
    requires |key| == |block| == 16
    ensures |out| == 16
  {
    BlockBytes(CipherBlock(S, BlockOf(key), BlockOf(block)))
  }

  const RND_CON: seq<word> := [0x01, 0x02, 0x04, 0x08, 0x10, 0x20, 0x40, 0x80, 0x1B, 0x36]

  /** The round constants the program lists are those of the standard. */
  lemma RndConIsRcon(i: nat)
    requires i < 10
    ensures RND_CON[i] == Value(Col(Rcon(i + 1), 0, 0, 0))
  {
    assert Rcon(4) == 0x08;
    assert Rcon(6) == 0x20;
    assert Rcon(8) == 0x80;
    XorByteZero(0x1B);
    assert Rcon(9) == 0x1B;
  }
}
