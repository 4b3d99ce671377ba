/** The encryption object: an expanded key that the key schedule fills in place, and block encryption
    by table lookups, both on 32-bit words. They are proved to compute, word for column, what FIPS 197
    says, for any tables that stand in the usual relation to the S-box. */
module RijndaelCipher {
  import opened Bits
  import opened Rijndael

  /** The word that four bytes in memory make, read in little-endian order. */
  function U32In(b: seq<byte>, o: nat): word
    requires o + 4 <= |b|
  {
    LittleEndian(b[o], b[o + 1], b[o + 2], b[o + 3])
  }

  /** A word written back to memory. */
  function U32Bytes(v: word): (b: seq<byte>)
    ensures |b| == 4
  {
    [Byte0(v), Byte1(v), Byte2(v), Byte3(v)]
  }

  lemma U32InIsColumn(b: seq<byte>, o: nat)
    requires o + 4 <= |b|
    ensures U32In(b, o) == Value(ColAt(b, o))
  {
  }

  /** Four words hold the four columns of a state. */
  ghost predicate Holds(a: array<word>, s: Block)
    reads a
  {
    a.Length == 4 && a[0] == Value(s.c0) && a[1] == Value(s.c1) && a[2] == Value(s.c2) && a[3] == Value(s.c3)
  }

  class Rijndael128 {
    const tables: Tables
    ghost const S: byte -> byte
    const eKey: array<word>

    ghost predicate Valid() {
      TablesFor(S, tables) && eKey.Length == 44
    }

    constructor (tables: Tables, ghost S: byte -> byte)
      requires TablesFor(S, tables)
      ensures Valid() && fresh(eKey) && this.S == S
    {
      this.tables := tables;
      this.S := S;
      eKey := new word[44](_ => 0);
    }

    /** The first n words of the expanded key are in place. */
    ghost predicate ScheduledUpTo(key: Block, n: nat)
      reads eKey
    {
      eKey.Length == 44 && forall i :: 0 <= i < n && i < 44 ==> eKey[i] == Value(ScheduleWord(S, key, i))
    }

    /** The expanded key is in place. */
    ghost predicate Scheduled(key: Block)
      reads eKey
    {
      ScheduledUpTo(key, 44)
    }

    /** The S-box lookup of the key schedule. */
    method LsBox(t: word, ghost c: Col) returns (w: word)
      requires Valid() && t == Value(c)
      ensures w == Value(SubCol(S, c))
    {
      hide Value, Xw, SubCol, TablesFor, Byte0, Byte1, Byte2, Byte3;
      ValueBytes(c);
      LTablesSub(S, tables, Byte0(t), Byte1(t), Byte2(t), Byte3(t));
      w := Xw4(tables.fl[0](Byte0(t)), tables.fl[1](Byte1(t)), tables.fl[2](Byte2(t)), tables.fl[3](Byte3(t)));
    }

    /** The first word of the next four. */
    method NextFirst(ek: nat, rc: nat, ghost k: Block) returns (w: word)
      requires Valid() && ek == 4 * rc && rc < 10 && ScheduledUpTo(k, ek + 4)
      ensures w == Value(ScheduleWord(S, k, ek + 4))
    {
      hide Value, Xw, ColXor, SubCol, ScheduleWord, Rotl24, Rcon, TablesFor;
      ghost var old0, old3 := ScheduleWord(S, k, ek), ScheduleWord(S, k, ek + 3);
      ghost var sub := SubCol(S, RotWord(old3));
      ghost var rcon := Col(Rcon(rc + 1), 0, 0, 0);
      ValueRotates(old3);
      var t := Rotl24(eKey[ek + 3]);
      var box := LsBox(t, RotWord(old3));
      RndConIsRcon(rc);
      ValueXor(old0, sub);
      ValueXor(ColXor(old0, sub), rcon);
      FirstOfFour(S, k, ek, rc);
      w := Xw(Xw(eKey[ek], box), RND_CON[rc]);
    }

    /** One turn of the schedule: four more words. */
    method NextFour(ek: nat, rc: nat, ghost k: Block)
      requires Valid() && ek == 4 * rc && rc < 10 && ScheduledUpTo(k, ek + 4)
      modifies eKey
      ensures ScheduledUpTo(k, ek + 8)
    {
      hide Value, Xw, ColXor, ScheduleWord, TablesFor;
      PlainWord(S, k, ek + 5);
      PlainWord(S, k, ek + 6);
      PlainWord(S, k, ek + 7);
      ValueXor(ScheduleWord(S, k, ek + 1), ScheduleWord(S, k, ek + 4));
      ValueXor(ScheduleWord(S, k, ek + 2), ScheduleWord(S, k, ek + 5));
      ValueXor(ScheduleWord(S, k, ek + 3), ScheduleWord(S, k, ek + 6));
      eKey[ek + 4] := NextFirst(ek, rc, k);
      eKey[ek + 5] := Xw(eKey[ek + 1], eKey[ek + 4]);
      eKey[ek + 6] := Xw(eKey[ek + 2], eKey[ek + 5]);
      eKey[ek + 7] := Xw(eKey[ek + 3], eKey[ek + 6]);
    }

    method KeySchedule(key: array<byte>)
      requires Valid() && key.Length == 16
      modifies eKey
      ensures Scheduled(BlockOf(key[..]))
    {
      hide ScheduleWord, Value, U32In, ColAt, TablesFor;
      ghost var k := BlockOf(key[..]);
      FirstWords(S, k);
      U32InIsColumn(key[..], 0);
      U32InIsColumn(key[..], 4);
      U32InIsColumn(key[..], 8);
      U32InIsColumn(key[..], 12);
      ghost var bytes := key[..];
      eKey[0], eKey[1], eKey[2], eKey[3] := U32In(key[..], 0), U32In(key[..], 4), U32In(key[..], 8), U32In(key[..], 12);
      var ek, rc := 0, 0;
      while ek < 40
        invariant ek == 4 * rc && 0 <= rc <= 10
        invariant ScheduledUpTo(k, ek + 4)
      {
        NextFour(ek, rc, k);
        ek, rc := ek + 4, rc + 1;
      }
      assert key[..] == bytes;
    }

    /** One word of a full round, before the key: rows taken from four columns. */
    method FRnd(x0: word, x1: word, x2: word, x3: word, ghost c: Col) returns (w: word)
      requires Valid() && c == Col(Byte0(x0), Byte1(x1), Byte2(x2), Byte3(x3))
      ensures w == Value(MixCol(SubCol(S, c)))
    {
      hide Value, Xw, MixCol, SubCol, TablesFor, Byte0, Byte1, Byte2, Byte3;
      FTablesMix(S, tables, Byte0(x0), Byte1(x1), Byte2(x2), Byte3(x3));
      w := Xw4(tables.ft[0](Byte0(x0)), tables.ft[1](Byte1(x1)), tables.ft[2](Byte2(x2)), tables.ft[3](Byte3(x3)));
    }

    /** One word of the last round, before the key. */
    method LfRnd(x0: word, x1: word, x2: word, x3: word, ghost c: Col) returns (w: word)
      requires Valid() && c == Col(Byte0(x0), Byte1(x1), Byte2(x2), Byte3(x3))
      ensures w == Value(SubCol(S, c))
    {
      hide Value, Xw, SubCol, TablesFor, Byte0, Byte1, Byte2, Byte3;
      LTablesSub(S, tables, Byte0(x0), Byte1(x1), Byte2(x2), Byte3(x3));
      w := Xw4(tables.fl[0](Byte0(x0)), tables.fl[1](Byte1(x1)), tables.fl[2](Byte2(x2)), tables.fl[3](Byte3(x3)));
    }

    /** A full round with key r, from one buffer to the other. */
    method FRound(bo: array<word>, bi: array<word>, r: nat, ghost key: Block, ghost block: Block)
      requires Valid() && Scheduled(key) && 1 <= r <= 9
      requires bo.Length == 4 && bo != bi && bo != eKey && Holds(bi, AfterRounds(S, key, block, r - 1))
      modifies bo
      ensures Holds(bo, AfterRounds(S, key, block, r)) && Scheduled(key)
    {
      hide Value, Xw, ColXor, MixCol, SubCol, ScheduleWord, TablesFor, Byte0, Byte1, Byte2, Byte3;
      ghost var x := AfterRounds(S, key, block, r - 1);
      ghost var y := ShiftRows(x);
      RowBytes(x);
      var kp := 4 * r;
      var w0 := FRnd(bi[0], bi[1], bi[2], bi[3], y.c0);
      var w1 := FRnd(bi[1], bi[2], bi[3], bi[0], y.c1);
      var w2 := FRnd(bi[2], bi[3], bi[0], bi[1], y.c2);
      var w3 := FRnd(bi[3], bi[0], bi[1], bi[2], y.c3);
      NextRound(S, key, block, r);
      ValueXorBlock(MixColumns(SubBytes(S, y)), RoundKey(S, key, r));
      bo[0], bo[1], bo[2], bo[3] := Xw(w0, eKey[kp]), Xw(w1, eKey[kp + 1]), Xw(w2, eKey[kp + 2]), Xw(w3, eKey[kp + 3]);
    }

    /** Nine full rounds, unrolled, from one pair of buffers to the other and back. */
    method Rounds(b0: array<word>, b1: array<word>, ghost key: Block, ghost b: Block)
      requires Valid() && Scheduled(key) && b1.Length == 4 && b0 != b1 && b0 != eKey && b1 != eKey
      requires Holds(b0, AfterRounds(S, key, b, 0))
      modifies b0, b1
      ensures Holds(b1, AfterRounds(S, key, b, 9)) && Scheduled(key)
    {
      hide Scheduled, AfterRounds, Value, TablesFor;
      FRound(b1, b0, 1, key, b);
      FRound(b0, b1, 2, key, b);
      FRound(b1, b0, 3, key, b);
      FRound(b0, b1, 4, key, b);
      FRound(b1, b0, 5, key, b);
      FRound(b0, b1, 6, key, b);
      FRound(b1, b0, 7, key, b);
      FRound(b0, b1, 8, key, b);
      FRound(b1, b0, 9, key, b);
    }

    /** The first key addition. */
    method FirstKey(block: seq<byte>, b0: array<word>, ghost key: Block)
      requires Valid() && Scheduled(key) && |block| == 16 && b0.Length == 4 && b0 != eKey
      modifies b0
      ensures Holds(b0, AfterRounds(S, key, BlockOf(block), 0)) && Scheduled(key)
    {
      hide Value, Xw, ColXor, ScheduleWord, TablesFor, U32In, ColAt;
      U32InIsColumn(block, 0);
      U32InIsColumn(block, 4);
      U32InIsColumn(block, 8);
      U32InIsColumn(block, 12);
      ValueXorBlock(BlockOf(block), RoundKey(S, key, 0));
      b0[0], b0[1] := Xw(U32In(block, 0), eKey[0]), Xw(U32In(block, 4), eKey[1]);
      b0[2], b0[3] := Xw(U32In(block, 8), eKey[2]), Xw(U32In(block, 12), eKey[3]);
    }

    method U32Out(out: array<byte>, o: nat, v: word)
      requires o + 4 <= out.Length
      modifies out
      ensures out[..] == old(out[..o]) + U32Bytes(v) + old(out[o + 4..])
    {
      hide Byte0, Byte1, Byte2, Byte3;
      out[o], out[o + 1], out[o + 2], out[o + 3] := Byte0(v), Byte1(v), Byte2(v), Byte3(v);
    }

    method BlockOut(out: array<byte>, w0: word, w1: word, w2: word, w3: word, ghost y: Block)
      requires out.Length == 16
      requires w0 == Value(y.c0) && w1 == Value(y.c1) && w2 == Value(y.c2) && w3 == Value(y.c3)
      modifies out
      ensures out[..] == BlockBytes(y)
    {
      hide Value, U32Bytes;
      BytesOfValue(y.c0);
      BytesOfValue(y.c1);
      BytesOfValue(y.c2);
      BytesOfValue(y.c3);
      U32Out(out, 0, w0);
      U32Out(out, 4, w1);
      U32Out(out, 8, w2);
      U32Out(out, 12, w3);
    }

    /** The last round, which does not mix. */
    method LastRound(b1: array<word>, output: array<byte>, ghost key: Block, ghost b: Block)
      requires Valid() && Scheduled(key) && output.Length == 16 && Holds(b1, AfterRounds(S, key, b, 9))
      modifies output
      ensures output[..] == BlockBytes(CipherBlock(S, key, b))
    {
      hide Value, Xw, ColXor, SubCol, ScheduleWord, TablesFor, Byte0, Byte1, Byte2, Byte3, AfterRounds, BlockBytes;
      ghost var x := AfterRounds(S, key, b, 9);
      ghost var y := ShiftRows(x);
      RowBytes(x);
      var w0 := LfRnd(b1[0], b1[1], b1[2], b1[3], y.c0);
      var w1 := LfRnd(b1[1], b1[2], b1[3], b1[0], y.c1);
      var w2 := LfRnd(b1[2], b1[3], b1[0], b1[1], y.c2);
      var w3 := LfRnd(b1[3], b1[0], b1[1], b1[2], y.c3);
      FinalRound(S, key, b);
      ValueXorBlock(SubBytes(S, y), RoundKey(S, key, 10));
      BlockOut(output, Xw(w0, eKey[40]), Xw(w1, eKey[41]), Xw(w2, eKey[42]), Xw(w3, eKey[43]), CipherBlock(S, key, b));
    }

    method Encrypt(input: array<byte>, output: array<byte>, ghost key: seq<byte>)
      requires Valid() && |key| == 16 && Scheduled(BlockOf(key)) && input.Length == output.Length == 16
      modifies output
      ensures output[..] == Cipher(S, key, old(input[..]))
    {
      hide CipherBlock, AfterRounds, Value, TablesFor, Scheduled;
      ghost var k, b := BlockOf(key), BlockOf(input[..]);
      var b0, b1 := new word[4](_ => 0), new word[4](_ => 0);
      FirstKey(input[..], b0, k);
      Rounds(b0, b1, k, b);
      LastRound(b1, output, k, b);
    }
  }

  lemma FirstOfFour(S: byte -> byte, key: Block, ek: nat, rc: nat)
    requires ek == 4 * rc
    ensures var sub := SubCol(S, RotWord(ScheduleWord(S, key, ek + 3)));
      ScheduleWord(S, key, ek + 4) == ColXor(ColXor(ScheduleWord(S, key, ek), sub), Col(Rcon(rc + 1), 0, 0, 0))
  {
    hide ColXor, SubCol, Rcon;
    assert (ek + 4) / 4 == rc + 1;
    var sub := SubCol(S, RotWord(ScheduleWord(S, key, ek + 3)));
    ColXorAssociates(ScheduleWord(S, key, ek), sub, Col(Rcon(rc + 1), 0, 0, 0));
  }

  /** The bytes the four lookups of a round use are the rows after ShiftRows. */
  lemma RowBytes(x: Block)
    ensures var y, w0, w1, w2, w3 := ShiftRows(x), Value(x.c0), Value(x.c1), Value(x.c2), Value(x.c3);
      && y.c0 == Col(Byte0(w0), Byte1(w1), Byte2(w2), Byte3(w3))
      && y.c1 == Col(Byte0(w1), Byte1(w2), Byte2(w3), Byte3(w0))
      && y.c2 == Col(Byte0(w2), Byte1(w3), Byte2(w0), Byte3(w1))
      && y.c3 == Col(Byte0(w3), Byte1(w0), Byte2(w1), Byte3(w2))
  {
    hide Value, Byte0, Byte1, Byte2, Byte3;
    ValueBytes(x.c0);
    ValueBytes(x.c1);
    ValueBytes(x.c2);
    ValueBytes(x.c3);
  }

  /** SubBytes and ShiftRows may change places. */
  lemma NextRound(S: byte -> byte, key: Block, block: Block, r: nat)
    requires r >= 1
    ensures AfterRounds(S, key, block, r)
            == AddRoundKey(MixColumns(SubBytes(S, ShiftRows(AfterRounds(S, key, block, r - 1)))), RoundKey(S, key, r))
  {
    hide ColXor, MixCol, RoundKey;
  }

  lemma FinalRound(S: byte -> byte, key: Block, block: Block)
    ensures CipherBlock(S, key, block)
            == AddRoundKey(SubBytes(S, ShiftRows(AfterRounds(S, key, block, 9))), RoundKey(S, key, 10))
  {
    hide ColXor, RoundKey, AfterRounds;
  }

  lemma ValueXorBlock(s: Block, k: Block)
    ensures var t := AddRoundKey(s, k);
      && Value(t.c0) == Xw(Value(s.c0), Value(k.c0)) && Value(t.c1) == Xw(Value(s.c1), Value(k.c1))
      && Value(t.c2) == Xw(Value(s.c2), Value(k.c2)) && Value(t.c3) == Xw(Value(s.c3), Value(k.c3))
  {
    hide Value, Xw, ColXor;
    ValueXor(s.c0, k.c0);
    ValueXor(s.c1, k.c1);
    ValueXor(s.c2, k.c2);
    ValueXor(s.c3, k.c3);
  }

  lemma BytesOfValue(c: Col)
    ensures U32Bytes(Value(c)) == ColBytes(c)
  {
    hide Value, Byte0, Byte1, Byte2, Byte3;
    ValueBytes(c);
  }
}
