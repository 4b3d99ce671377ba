/** The Milenage functions f1 to f5, f1* and f5* of 3GPP TS 35.206 (section 4.1) with AES-128 as the
    kernel, and the loops that compute them in place. */
module Milenage {
  import opened Bits
  import opened Rijndael
  import opened RijndaelCipher

  // ---------- TS 35.206, section 4.1 ----------

  function XorSeq(a: seq<byte>, b: seq<byte>): (c: seq<byte>)
    requires |a| == |b|
    ensures |c| == |a|
    ensures forall i :: 0 <= i < |a| ==> c[i] == Xb(a[i], b[i])
  {
    seq(|a|, i requires 0 <= i < |a| => Xb(a[i], b[i]))
  }

  lemma XorSeqCommutes(a: seq<byte>, b: seq<byte>)
    requires |a| == |b|
    ensures XorSeq(a, b) == XorSeq(b, a)
  {
    forall i | 0 <= i < |a|
      ensures Xb(a[i], b[i]) == Xb(b[i], a[i])
    {
      XorCommutes(a[i], b[i]);
    }
  }

  /** Masking twice with the same key gives the original back. */
  lemma XorSeqCancels(a: seq<byte>, b: seq<byte>)
    requires |a| == |b|
    ensures XorSeq(XorSeq(a, b), b) == a
  {
    forall i | 0 <= i < |a|
      ensures Xb(Xb(a[i], b[i]), b[i]) == a[i]
    {
      XorCancels(a[i], b[i]);
    }
  }

  /** Cyclic rotation by r bytes towards the front. */
  function Rot(x: seq<byte>, r: nat): (y: seq<byte>)
    requires r <= |x|
    ensures |y| == |x|
  {
    x[r..] + x[..r]
  }

  /** A 16-byte constant that differs from zero in its last byte only. */
  function XorLast(x: seq<byte>, c: byte): (y: seq<byte>)
    requires |x| == 16
    ensures |y| == 16
  {
    x[15 := Xb(x[15], c)]
  }

  function OpC(S: byte -> byte, k: seq<byte>, op: seq<byte>): (o: seq<byte>)
    requires |k| == |op| == 16
    ensures |o| == 16
  {
    XorSeq(Cipher(S, k, op), op)
  }

  function Temp(S: byte -> byte, k: seq<byte>, op: seq<byte>, rand: seq<byte>): (t: seq<byte>)
    requires |k| == |op| == |rand| == 16
    ensures |t| == 16
  {
    Cipher(S, k, XorSeq(rand, OpC(S, k, op)))
  }

  function In1(sqn: seq<byte>, amf: seq<byte>): (x: seq<byte>)
    requires |sqn| == 6 && |amf| == 2
    ensures |x| == 16
  {
    sqn + amf + sqn + amf
  }

  /** The output block of f1 and f1*; its rotation is 64 bits, its constant zero. */
  function Out1(S: byte -> byte, k: seq<byte>, op: seq<byte>, rand: seq<byte>, sqn: seq<byte>,
          amf: seq<byte>): (o: seq<byte>)
    requires |k| == |op| == |rand| == 16 && |sqn| == 6 && |amf| == 2
    ensures |o| == 16
  {
    var opC := OpC(S, k, op);
    XorSeq(Cipher(S, k, XorSeq(Temp(S, k, op, rand), Rot(XorSeq(In1(sqn, amf), opC), 8))), opC)
  }

  /** The output blocks of the other functions: rotation in bytes, last byte of the constant. */
  function OutN(S: byte -> byte, k: seq<byte>, op: seq<byte>, rand: seq<byte>, r: nat, c: byte): (o: seq<byte>)
    requires |k| == |op| == |rand| == 16 && r <= 16
    ensures |o| == 16
  {
    var opC := OpC(S, k, op);
    XorSeq(Cipher(S, k, XorLast(Rot(XorSeq(Temp(S, k, op, rand), opC), r), c)), opC)
  }

  function F1(S: byte -> byte, k: seq<byte>, op: seq<byte>, rand: seq<byte>, sqn: seq<byte>,
          amf: seq<byte>): (mac: seq<byte>)
    requires |k| == |op| == |rand| == 16 && |sqn| == 6 && |amf| == 2
    ensures |mac| == 8
  {
    Out1(S, k, op, rand, sqn, amf)[..8]
  }

  function F1Star(S: byte -> byte, k: seq<byte>, op: seq<byte>, rand: seq<byte>, sqn: seq<byte>,
          amf: seq<byte>): (mac: seq<byte>)
    requires |k| == |op| == |rand| == 16 && |sqn| == 6 && |amf| == 2
    ensures |mac| == 8
  {
    Out1(S, k, op, rand, sqn, amf)[8..]
  }

  function F2(S: byte -> byte, k: seq<byte>, op: seq<byte>, rand: seq<byte>): (res: seq<byte>)
    requires |k| == |op| == |rand| == 16
    ensures |res| == 8
  {
    OutN(S, k, op, rand, 0, 1)[8..]
  }

  function F3(S: byte -> byte, k: seq<byte>, op: seq<byte>, rand: seq<byte>): (ck: seq<byte>)
    requires |k| == |op| == |rand| == 16
    ensures |ck| == 16
  {
    OutN(S, k, op, rand, 4, 2)
  }

  function F4(S: byte -> byte, k: seq<byte>, op: seq<byte>, rand: seq<byte>): (ik: seq<byte>)
    requires |k| == |op| == |rand| == 16
    ensures |ik| == 16
  {
    OutN(S, k, op, rand, 8, 4)
  }

  function F5(S: byte -> byte, k: seq<byte>, op: seq<byte>, rand: seq<byte>): (ak: seq<byte>)
    requires |k| == |op| == |rand| == 16
    ensures |ak| == 6
  {
    OutN(S, k, op, rand, 0, 1)[..6]
  }

  function F5Star(S: byte -> byte, k: seq<byte>, op: seq<byte>, rand: seq<byte>): (ak: seq<byte>)
    requires |k| == |op| == |rand| == 16
    ensures |ak| == 6
  {
    OutN(S, k, op, rand, 12, 8)[..6]
  }

  lemma RotWhole(x: seq<byte>)
    ensures Rot(x, |x|) == x == Rot(x, 0)
  {
  }

  /** Rotating by the whole block is not rotating. */
  lemma RotEnds(S: byte -> byte, k: seq<byte>, op: seq<byte>, rand: seq<byte>)
    requires |k| == |op| == |rand| == 16
    ensures OutN(S, k, op, rand, 16, 1) == OutN(S, k, op, rand, 0, 1)
  {
    hide Cipher, Xb, OpC, Temp;
    RotWhole(XorSeq(Temp(S, k, op, rand), OpC(S, k, op)));
  }

  // ---------- The same byte by byte ----------

  /** Byte j of the block f1 and f1* encrypt: TEMP, and behind it SQN, AMF, SQN, AMF masked with OPc and
      turned by 64 bits. No constant is added. */
  function Out1Input(temp: seq<byte>, opC: seq<byte>, sqn: seq<byte>, amf: seq<byte>, j: nat): byte
    requires |temp| == |opC| == 16 && |sqn| == 6 && |amf| == 2 && j < 16
  {
    var from := (j + 8) % 16;
    var at := from % 8;
    Xb(temp[j], Xb(if at < 6 then sqn[at] else amf[at - 6], opC[from]))
  }

  lemma Out1Bytes(S: byte -> byte, k: seq<byte>, op: seq<byte>, rand: seq<byte>, sqn: seq<byte>, amf: seq<byte>,
          x: seq<byte>)
    requires |k| == |op| == |rand| == |x| == 16 && |sqn| == 6 && |amf| == 2
    requires forall j :: 0 <= j < 16 ==> x[j] == Out1Input(Temp(S, k, op, rand), OpC(S, k, op), sqn, amf, j)
    ensures forall i :: 0 <= i < 8 ==>
      F1(S, k, op, rand, sqn, amf)[i] == Xb(Cipher(S, k, x)[i], OpC(S, k, op)[i])
    ensures forall i :: 0 <= i < 8 ==>
      F1Star(S, k, op, rand, sqn, amf)[i] == Xb(Cipher(S, k, x)[i + 8], OpC(S, k, op)[i + 8])
  {
    hide Cipher, Xb, OpC, Temp;
    var temp, opC := Temp(S, k, op, rand), OpC(S, k, op);
    assert x == XorSeq(temp, Rot(XorSeq(In1(sqn, amf), opC), 8));
  }

  /** Byte j of the block the other functions encrypt: TEMP masked with OPc, turned by r bits, and a
      constant c in the last byte. */
  function OutInput(temp: seq<byte>, opC: seq<byte>, r: nat, c: byte, j: nat): byte
    requires |temp| == |opC| == 16 && j < 16
  {
    var from := (j + r / 8) % 16;
    var masked := Xb(temp[from], opC[from]);
    if j == 15 then Xb(masked, c) else masked
  }

  predicate IsInput(S: byte -> byte, k: seq<byte>, op: seq<byte>, rand: seq<byte>, r: nat, c: byte, x: seq<byte>)
    requires |k| == |op| == |rand| == 16
  {
    |x| == 16 && forall j :: 0 <= j < 16 ==> x[j] == OutInput(Temp(S, k, op, rand), OpC(S, k, op), r, c, j)
  }

  lemma OutBytes(S: byte -> byte, k: seq<byte>, op: seq<byte>, rand: seq<byte>, r: nat, c: byte, x: seq<byte>)
    requires |k| == |op| == |rand| == 16 && r % 8 == 0 && r < 128 && IsInput(S, k, op, rand, r, c, x)
    ensures OutN(S, k, op, rand, r / 8, c) == XorSeq(Cipher(S, k, x), OpC(S, k, op))
  {
    hide Cipher, Xb, OpC, Temp;
    var temp, opC := Temp(S, k, op, rand), OpC(S, k, op);
    assert x == XorLast(Rot(XorSeq(temp, opC), r / 8), c);
  }

  /** f2 and f5 are the last 64 and the first 48 bits of the output of rotation 0 and constant 1; f3, f4
      and f5* those of rotations 32, 64 and 96 and constants 2, 4 and 8, f5* the first 48 bits of it. */
  lemma RotationsAndConstants(S: byte -> byte, k: seq<byte>, op: seq<byte>, rand: seq<byte>,
          x2: seq<byte>, x3: seq<byte>, x4: seq<byte>, x5: seq<byte>)
    requires |k| == |op| == |rand| == 16
    requires IsInput(S, k, op, rand, 0, 1, x2) && IsInput(S, k, op, rand, 32, 2, x3)
    requires IsInput(S, k, op, rand, 64, 4, x4) && IsInput(S, k, op, rand, 96, 8, x5)
    ensures var o := OpC(S, k, op);
      && F2(S, k, op, rand) == XorSeq(Cipher(S, k, x2), o)[8..16]
      && F5(S, k, op, rand) == XorSeq(Cipher(S, k, x2), o)[0..6]
      && F3(S, k, op, rand) == XorSeq(Cipher(S, k, x3), o)
      && F4(S, k, op, rand) == XorSeq(Cipher(S, k, x4), o)
      && F5Star(S, k, op, rand) == XorSeq(Cipher(S, k, x5), o)[0..6]
  {
    hide Cipher, Xb, OpC, Temp, OutN, IsInput;
    OutBytes(S, k, op, rand, 0, 1, x2);
    OutBytes(S, k, op, rand, 32, 2, x3);
    OutBytes(S, k, op, rand, 64, 4, x4);
    OutBytes(S, k, op, rand, 96, 8, x5);
  }

  /** OPc is OP encrypted under K and masked with OP; TEMP is RAND masked with OPc, encrypted. */
  lemma OpCAndTemp(S: byte -> byte, k: seq<byte>, op: seq<byte>, rand: seq<byte>, x: seq<byte>)
    requires |k| == |op| == |rand| == |x| == 16
    requires forall j :: 0 <= j < 16 ==> x[j] == Xb(rand[j], OpC(S, k, op)[j])
    ensures forall j :: 0 <= j < 16 ==> OpC(S, k, op)[j] == Xb(op[j], Cipher(S, k, op)[j])
    ensures Temp(S, k, op, rand) == Cipher(S, k, x)
  {
    hide Cipher, Xb;
    XorSeqCommutes(Cipher(S, k, op), op);
    hide OpC;
    assert x == XorSeq(rand, OpC(S, k, op));
  }

  // ---------- The program ----------

  /** The index `(i + shift) % 16`. */
  function Place(i: int, shift: nat): (j: nat)
    requires 0 <= i < 16 && shift < 16
    ensures j == (if i + shift < 16 then i + shift else i + shift - 16)
  {
    (i + shift) % 16
  }

  /** The loop `dst[(i + shift) % 16] = x[i] ^ y[i]`. */
  method XorShifted(dst: array<byte>, x: array<byte>, y: array<byte>, shift: nat)
    requires dst.Length == x.Length == y.Length == 16 && shift < 16 && dst != x && dst != y
    modifies dst
    ensures dst[..] == Rot(XorSeq(x[..], y[..]), 16 - shift)
  {
    hide Xb;
    var i := 0;
    while i < 16
      invariant 0 <= i <= 16
      invariant forall j :: 0 <= j < i ==> dst[Place(j, shift)] == Xb(x[j], y[j])
    {
      dst[Place(i, shift)] := Xb(x[i], y[i]);
      i := i + 1;
    }
    forall j | 0 <= j < 16
      ensures dst[j] == Rot(XorSeq(x[..], y[..]), 16 - shift)[j]
    {
      var i := if j < shift then j + 16 - shift else j - shift;
      assert dst[Place(i, shift)] == Xb(x[i], y[i]);
    }
  }

  /** The loop `dst[i] ^= y[i]`. */
  method XorInPlace(dst: array<byte>, y: array<byte>)
    requires dst.Length == y.Length && dst != y
    modifies dst
    ensures dst[..] == XorSeq(old(dst[..]), y[..])
  {
    hide Xb;
    var i := 0;
    while i < dst.Length
      invariant 0 <= i <= dst.Length
      invariant forall j :: 0 <= j < i ==> dst[j] == Xb(old(dst[j]), y[j])
      invariant forall j :: i <= j < dst.Length ==> dst[j] == old(dst[j])
    {
      dst[i] := Xb(dst[i], y[i]);
      i := i + 1;
    }
  }

  /** The loop `dst[i] = src[from + i]`. */
  method CopyFrom(dst: array<byte>, src: array<byte>, from: nat)
    requires from + dst.Length <= src.Length && dst != src
    modifies dst
    ensures dst[..] == src[from..from + dst.Length]
  {
    var i := 0;
    while i < dst.Length
      invariant 0 <= i <= dst.Length
      invariant forall j :: 0 <= j < i ==> dst[j] == src[from + j]
    {
      dst[i] := src[from + i];
      i := i + 1;
    }
  }

  /** The sequence number and the management field, twice. */
  method FillIn1(in1: array<byte>, sqn: array<byte>, amf: array<byte>)
    requires in1.Length == 16 && sqn.Length == 6 && amf.Length == 2
    modifies in1
    ensures in1[..] == In1(sqn[..], amf[..])
  {
    var i := 0;
    while i < 6
      invariant 0 <= i <= 6
      invariant in1[..i] == sqn[..i] && in1[8..8 + i] == sqn[..i]
    {
      in1[i], in1[i + 8] := sqn[i], sqn[i];
      i := i + 1;
    }
    i := 0;
    while i < 2
      invariant 0 <= i <= 2
      invariant in1[..6] == sqn[..] && in1[8..14] == sqn[..]
      invariant in1[6..6 + i] == amf[..i] && in1[14..14 + i] == amf[..i]
    {
      in1[i + 6], in1[i + 14] := amf[i], amf[i];
      i := i + 1;
    }
    assert in1[..] == in1[..6] + in1[6..8] + in1[8..14] + in1[14..16];
  }

  class Unit {
    const aes: Rijndael128

    ghost predicate Valid() {
      aes.Valid()
    }

    constructor (aes: Rijndael128)
      requires aes.Valid()
      ensures this.aes == aes && Valid()
    {
      this.aes := aes;
    }

    /** Assumes the key schedule is in place. */
    method ComputeOPc(opC: array<byte>, op: array<byte>, ghost k: seq<byte>)
      requires Valid() && |k| == 16 && aes.Scheduled(BlockOf(k))
      requires opC.Length == op.Length == 16 && opC != op
      modifies opC
      ensures opC[..] == OpC(aes.S, k, op[..])
    {
      hide Cipher, Xb, Rijndael128.Scheduled, Rijndael128.Valid;
      aes.Encrypt(op, opC, k);
      XorInPlace(opC, op);
    }

    /** What every function begins with: the key schedule, OPc and TEMP. */
    method Start(k: array<byte>, rand: array<byte>, op: array<byte>) returns (opC: array<byte>, temp: array<byte>)
      requires Valid() && k.Length == rand.Length == op.Length == 16
      modifies aes.eKey
      ensures aes.Scheduled(BlockOf(k[..]))
      ensures fresh(opC) && fresh(temp) && opC != temp && opC.Length == temp.Length == 16
      ensures opC[..] == OpC(aes.S, k[..], op[..])
      ensures temp[..] == Temp(aes.S, k[..], op[..], rand[..])
    {
      hide Cipher, Xb, OpC, Rijndael128.Scheduled, Rijndael128.Valid;
      opC := new byte[16](_ => 0);
      temp := new byte[16](_ => 0);
      var input := new byte[16](_ => 0);
      aes.KeySchedule(k);
      ComputeOPc(opC, op, k[..]);
      XorShifted(input, rand, opC, 0);
      RotWhole(XorSeq(rand[..], opC[..]));
      aes.Encrypt(input, temp, k[..]);
    }

    /** The output block shared by f1 and f1*. */
    method Out1Block(k: array<byte>, rand: array<byte>, sqn: array<byte>, amf: array<byte>, op: array<byte>)
        returns (out1: array<byte>)
      requires Valid() && k.Length == rand.Length == op.Length == 16 && sqn.Length == 6 && amf.Length == 2
      modifies aes.eKey
      ensures fresh(out1) && out1.Length == 16
      ensures out1[..] == Out1(aes.S, k[..], op[..], rand[..], sqn[..], amf[..])
    {
      hide Cipher, Xb, OpC, Temp, Rijndael128.Scheduled, Rijndael128.Valid;
      var opC, temp := Start(k, rand, op);
      var in1 := new byte[16](_ => 0);
      FillIn1(in1, sqn, amf);
      out1 := Out1From(in1, opC, temp, k[..]);
    }

    method Out1From(in1: array<byte>, opC: array<byte>, temp: array<byte>,
            ghost k: seq<byte>) returns (out1: array<byte>)
      requires Valid() && |k| == 16 && aes.Scheduled(BlockOf(k))
      requires in1.Length == opC.Length == temp.Length == 16
      ensures fresh(out1) && out1.Length == 16
      ensures out1[..] == XorSeq(Cipher(aes.S, k, XorSeq(temp[..], Rot(XorSeq(in1[..], opC[..]), 8))), opC[..])
    {
      hide Cipher, Xb, Rijndael128.Scheduled, Rijndael128.Valid;
      var input := new byte[16](_ => 0);
      XorShifted(input, in1, opC, 8);
      XorSeqCommutes(input[..], temp[..]);
      XorInPlace(input, temp);
      out1 := new byte[16](_ => 0);
      aes.Encrypt(input, out1, k);
      XorInPlace(out1, opC);
    }

    /** One of the other output blocks, from OPc and TEMP. */
    method OutBlock(k: array<byte>, rand: array<byte>, op: array<byte>, opC: array<byte>, temp: array<byte>,
            shift: nat, c: byte)
        returns (out: array<byte>)
      requires Valid() && k.Length == rand.Length == op.Length == 16 && aes.Scheduled(BlockOf(k[..])) && shift < 16
      requires opC.Length == temp.Length == 16 && opC[..] == OpC(aes.S, k[..], op[..])
      requires temp[..] == Temp(aes.S, k[..], op[..], rand[..])
      ensures fresh(out) && out.Length == 16
      ensures out[..] == OutN(aes.S, k[..], op[..], rand[..], 16 - shift, c)
    {
      hide Cipher, Xb, OpC, Temp, Rijndael128.Scheduled, Rijndael128.Valid;
      var input := new byte[16](_ => 0);
      XorShifted(input, temp, opC, shift);
      input[15] := Xb(input[15], c);
      out := new byte[16](_ => 0);
      aes.Encrypt(input, out, k[..]);
      XorInPlace(out, opC);
    }

    /** Network authentication code. */
    method ComputeF1(k: array<byte>, rand: array<byte>, sqn: array<byte>, amf: array<byte>, macA: array<byte>,
            op: array<byte>)
      requires Valid() && k.Length == rand.Length == op.Length == 16
      requires sqn.Length == 6 && amf.Length == 2 && macA.Length == 8
      modifies aes.eKey, macA
      ensures macA[..] == F1(aes.S, old(k[..]), old(op[..]), old(rand[..]), old(sqn[..]), old(amf[..]))
    {
      hide Cipher, Xb, OpC, Temp, Out1, Rijndael128.Scheduled, Rijndael128.Valid;
      var out1 := Out1Block(k, rand, sqn, amf, op);
      CopyFrom(macA, out1, 0);
    }

    /** Resynchronisation authentication code. */
    method ComputeF1Star(k: array<byte>, rand: array<byte>, sqn: array<byte>, amf: array<byte>, macS: array<byte>,
            op: array<byte>)
      requires Valid() && k.Length == rand.Length == op.Length == 16
      requires sqn.Length == 6 && amf.Length == 2 && macS.Length == 8
      modifies aes.eKey, macS
      ensures macS[..] == F1Star(aes.S, old(k[..]), old(op[..]), old(rand[..]), old(sqn[..]), old(amf[..]))
    {
      hide Cipher, Xb, OpC, Temp, Out1, Rijndael128.Scheduled, Rijndael128.Valid;
      var out1 := Out1Block(k, rand, sqn, amf, op);
      CopyFrom(macS, out1, 8);
    }

    /** Response and anonymity key, both from OUT2. */
    method FromOut2(k: array<byte>, rand: array<byte>, op: array<byte>, opC: array<byte>, temp: array<byte>,
            res: array<byte>, ak: array<byte>)
      requires Valid() && k.Length == rand.Length == op.Length == 16 && aes.Scheduled(BlockOf(k[..]))
      requires opC.Length == temp.Length == 16 && opC[..] == OpC(aes.S, k[..], op[..])
      requires temp[..] == Temp(aes.S, k[..], op[..], rand[..])
      requires res.Length == 8 && ak.Length == 6
      modifies res, ak
      ensures res[..] == F2(aes.S, old(k[..]), old(op[..]), old(rand[..]))
      ensures ak[..] == F5(aes.S, old(k[..]), old(op[..]), old(rand[..]))
    {
      hide Cipher, Xb, OpC, Temp, OutN, Rijndael128.Scheduled, Rijndael128.Valid;
      RotEnds(aes.S, k[..], op[..], rand[..]);
      var out := OutBlock(k, rand, op, opC, temp, 0, 1);
      CopyFrom(res, out, 8);
      CopyFrom(ak, out, 0);
    }

    /** Response, confidentiality key, integrity key and anonymity key. */
    method ComputeF2345(k: array<byte>, rand: array<byte>, res: array<byte>, ck: array<byte>, ik: array<byte>,
            ak: array<byte>, op: array<byte>)
      requires Valid() && k.Length == rand.Length == op.Length == ck.Length == ik.Length == 16
      requires res.Length == 8 && ak.Length == 6 && ck != ik
      requires {k, rand, op} !! {res, ck, ik, ak}
      modifies aes.eKey, res, ck, ik, ak
      ensures res[..] == F2(aes.S, k[..], op[..], rand[..]) && ak[..] == F5(aes.S, k[..], op[..], rand[..])
      ensures ck[..] == F3(aes.S, k[..], op[..], rand[..]) && ik[..] == F4(aes.S, k[..], op[..], rand[..])
    {
      hide Cipher, Xb, OpC, Temp, OutN, F2, F5, BlockOf, Rijndael128.Scheduled, Rijndael128.Valid;
      assert k != res && k != ck && k != ik && k != ak && rand != res && rand != ck && rand != ik && rand != ak;
      assert op != res && op != ck && op != ik && op != ak;
      var opC, temp := Start(k, rand, op);
      FromOut2(k, rand, op, opC, temp, res, ak);
      var out := OutBlock(k, rand, op, opC, temp, 12, 2);
      CopyFrom(ck, out, 0);
      out := OutBlock(k, rand, op, opC, temp, 8, 4);
      CopyFrom(ik, out, 0);
    }

    /** Resynchronisation anonymity key. */
    method ComputeF5Star(k: array<byte>, rand: array<byte>, ak: array<byte>, op: array<byte>)
      requires Valid() && k.Length == rand.Length == op.Length == 16 && ak.Length == 6
      modifies aes.eKey, ak
      ensures ak[..] == F5Star(aes.S, old(k[..]), old(op[..]), old(rand[..]))
    {
      hide Cipher, Xb, OpC, Temp, OutN, Rijndael128.Scheduled, Rijndael128.Valid;
      var opC, temp := Start(k, rand, op);
      var out := OutBlock(k, rand, op, opC, temp, 4, 8);
      CopyFrom(ak, out, 0);
    }
  }
}
