/** The AKA part of the digest answer (RFC 3310): taking a base64 nonce apart, recovering the sequence
    number and checking the network's authentication code. The MD5 digest over the response is left
    out. */
module Aka {
  import opened Bits
  import opened Rijndael
  import opened Milenage
  import Base64

  const RANDLEN := 16
  const AUTNLEN := 16
  const SQNLEN := 6
  const AMFLEN := 2

  /** The outcome: the nonce is too short, or the recovered sequence number, the response, and
      whether the network's code is the expected one (a mismatch is only reported). */
  datatype Answer = NonceTooShort | Answer(sqn: seq<byte>, res: seq<byte>, macMatches: bool)

  /** The sequence number behind the mask. */
  function Unmask(S: byte -> byte, k: seq<byte>, op: seq<byte>, rand: seq<byte>, masked: seq<byte>): (sqn: seq<byte>)
    requires |k| == |op| == |rand| == 16 && |masked| == 6
    ensures |sqn| == 6
  {
    XorSeq(masked, F5(S, k, op, rand))
  }

  function Judge(S: byte -> byte, k: seq<byte>, op: seq<byte>, amf: seq<byte>, rand: seq<byte>, masked: seq<byte>,
          mac: seq<byte>): (answer: Answer)
    requires |k| == |op| == |rand| == 16 && |amf| == 2 && |masked| == 6
    ensures answer.Answer?
  {
    var sqn := Unmask(S, k, op, rand, masked);
    Answer(sqn, F2(S, k, op, rand), mac == F1(S, k, op, rand, sqn, amf))
  }

  /** What the client makes of a decoded nonce. Its reported length includes padding bytes and the
      terminating zero. */
  function Client(S: byte -> byte, k: seq<byte>, op: seq<byte>, amf: seq<byte>, nonce: seq<byte>): Answer
    requires |k| == |op| == 16 && |amf| == 2
  {
    if |nonce| < RANDLEN + AUTNLEN then NonceTooShort
    else Judge(S, k, op, amf, nonce[..16], nonce[16..22], nonce[24..32])
  }

  /** The nonce a network makes: RAND, then AUTN = (SQN xor AK), AMF, MAC (section 3.2 of RFC 3310). */
  function Challenge(S: byte -> byte, k: seq<byte>, op: seq<byte>, rand: seq<byte>, sqn: seq<byte>,
          amf: seq<byte>): (c: seq<byte>)
    requires |k| == |op| == |rand| == 16 && |sqn| == 6 && |amf| == 2
    ensures |c| == 32
  {
    rand + XorSeq(sqn, F5(S, k, op, rand)) + amf + F1(S, k, op, rand, sqn, amf)
  }

  /** RFC 3310, section 3.2: where the parts of a challenge stand. */
  lemma ChallengeLayout(S: byte -> byte, k: seq<byte>, op: seq<byte>, rand: seq<byte>, sqn: seq<byte>, amf: seq<byte>)
    requires |k| == |op| == |rand| == 16 && |sqn| == 6 && |amf| == 2
    ensures var c := Challenge(S, k, op, rand, sqn, amf);
      && c[0..16] == rand && (forall i :: 0 <= i < 6 ==> c[16 + i] == Xb(sqn[i], F5(S, k, op, rand)[i]))
      && c[22..24] == amf && c[24..32] == F1(S, k, op, rand, sqn, amf)
  {
    hide F1, F5, Xb;
  }

  /** What the client takes from any nonce that is long enough: it unmasks bytes 16 to 21, answers with
      f2, and compares bytes 24 to 31 with f1 for the number it found. */
  lemma ClientTakes(S: byte -> byte, k: seq<byte>, op: seq<byte>, amf: seq<byte>, n: seq<byte>)
    requires |k| == |op| == 16 && |amf| == 2 && |n| >= 32
    ensures var rand, answer := n[0..16], Client(S, k, op, amf, n);
      && answer.Answer? && |answer.sqn| == 6
      && (forall i :: 0 <= i < 6 ==> answer.sqn[i] == Xb(n[16 + i], F5(S, k, op, rand)[i]))
      && answer.res == F2(S, k, op, rand)
      && (answer.macMatches <==> n[24..32] == F1(S, k, op, rand, answer.sqn, amf))
  {
    hide F1, F2, F5, Xb;
    assert n[..16] == n[0..16];
  }

  /** Only the first 32 bytes of the nonce matter. */
  lemma ClientReadsPrefix(S: byte -> byte, k: seq<byte>, op: seq<byte>, amf: seq<byte>, nonce: seq<byte>)
    requires |k| == |op| == 16 && |amf| == 2 && |nonce| >= 32
    ensures Client(S, k, op, amf, nonce) == Client(S, k, op, amf, nonce[..32])
  {
    hide F1, F2, F5;
    assert nonce[..32][..16] == nonce[..16];
    assert nonce[..32][16..22] == nonce[16..22] && nonce[..32][24..32] == nonce[24..32];
  }

  lemma ClientOnChallenge(S: byte -> byte, k: seq<byte>, op: seq<byte>, rand: seq<byte>, sqn: seq<byte>,
          amf: seq<byte>, configured: seq<byte>)
    requires |k| == |op| == |rand| == 16 && |sqn| == 6 && |amf| == |configured| == 2
    ensures Client(S, k, op, configured, Challenge(S, k, op, rand, sqn, amf))
            == Answer(sqn, F2(S, k, op, rand), F1(S, k, op, rand, sqn, amf) == F1(S, k, op, rand, sqn, configured))
  {
    hide F1, F2, F5, Xb;
    var c, ak := Challenge(S, k, op, rand, sqn, amf), F5(S, k, op, rand);
    assert c[..16] == rand && c[16..22] == XorSeq(sqn, ak) && c[24..32] == F1(S, k, op, rand, sqn, amf);
    XorSeqCancels(sqn, ak);
  }

  /** End to end: the base64 of a challenge passes the length check, the client recovers the
      sequence number and computes the response of the same key, and the network's code is the one it
      expects if it is configured with the challenge's management field. */
  lemma AkaAgrees(S: byte -> byte, k: seq<byte>, op: seq<byte>, rand: seq<byte>, sqn: seq<byte>, amf: seq<byte>,
          configured: seq<byte>)
    requires |k| == |op| == |rand| == 16 && |sqn| == 6 && |amf| == |configured| == 2
    ensures var nonce := Base64.Encode(Challenge(S, k, op, rand, sqn, amf));
            var answer := Client(S, k, op, configured, Base64.Decode(nonce));
            && answer.Answer? && answer.sqn == sqn && answer.res == F2(S, k, op, rand)
            && (answer.macMatches <==> F1(S, k, op, rand, sqn, amf) == F1(S, k, op, rand, sqn, configured))
            && (configured == amf ==> answer.macMatches)
  {
    hide F1, F2, F5, Base64.Decode, Base64.Encode, Challenge, Client;
    var c := Challenge(S, k, op, rand, sqn, amf);
    Base64.RoundTrip(c);
    ClientReadsPrefix(S, k, op, configured, Base64.Decode(Base64.Encode(c)));
    ClientOnChallenge(S, k, op, rand, sqn, amf, configured);
  }

  /** Which texts are refused as a nonce: the shortest accepted one has 42 characters, because padding
      and the terminating zero are counted. */
  lemma LengthCheck(S: byte -> byte, k: seq<byte>, op: seq<byte>, amf: seq<byte>, s: string)
    requires |k| == |op| == 16 && |amf| == 2
    ensures Client(S, k, op, amf, Base64.Decode(s)) == NonceTooShort
            <==> |s| < 42 || (|s| < 44 && s[41] == '=')
  {
    hide Judge, Base64.Decode;
    Base64.DecodeLength(s);
  }

  /** Of padded encodings, those of fewer than 31 bytes. */
  lemma EncodedLengthCheck(S: byte -> byte, k: seq<byte>, op: seq<byte>, amf: seq<byte>, x: seq<byte>)
    requires |k| == |op| == 16 && |amf| == 2
    ensures Client(S, k, op, amf, Base64.Decode(Base64.Encode(x))) == NonceTooShort <==> |x| < 31
  {
    hide Judge, Base64.Decode, Base64.Encode;
    Base64.RoundTrip(x);
  }

  lemma ClientOnUnpadded(S: byte -> byte, k: seq<byte>, op: seq<byte>, rand: seq<byte>, sqn: seq<byte>, amf: seq<byte>)
    requires |k| == |op| == |rand| == 16 && |sqn| == 6 && |amf| == 2
    ensures var mac := F1(S, k, op, rand, sqn, amf);
            Client(S, k, op, amf, Challenge(S, k, op, rand, sqn, amf)[..31] + [0])
            == Answer(sqn, F2(S, k, op, rand), mac[..7] + [0] == mac)
  {
    hide F1, F2, F5, Xb;
    var c, ak, mac := Challenge(S, k, op, rand, sqn, amf), F5(S, k, op, rand), F1(S, k, op, rand, sqn, amf);
    var n, front := c[..31] + [0], rand + XorSeq(sqn, ak) + amf;
    assert c == front + mac && c[..31] == front + mac[..7];
    assert n[..16] == rand && n[16..22] == XorSeq(sqn, ak) && n[24..32] == mac[..7] + [0];
    XorSeqCancels(sqn, ak);
  }

  /** A challenge whose base64 comes without its padding sign passes the length check and yields sequence
      number and response, but the last byte of the network's code is read as zero: the codes agree, for
      the right management field, if and only if it is zero. */
  lemma UnpaddedChallenge(S: byte -> byte, k: seq<byte>, op: seq<byte>, rand: seq<byte>, sqn: seq<byte>, amf: seq<byte>)
    requires |k| == |op| == |rand| == 16 && |sqn| == 6 && |amf| == 2
    ensures var nonce := Base64.Unpadded(Challenge(S, k, op, rand, sqn, amf));
            var answer := Client(S, k, op, amf, Base64.Decode(nonce));
            && answer.Answer? && answer.sqn == sqn && answer.res == F2(S, k, op, rand)
            && (answer.macMatches <==> F1(S, k, op, rand, sqn, amf)[7] == 0)
  {
    hide F1, F2, F5, Base64.Decode, Base64.Unpadded, Challenge, Client;
    Base64.UnpaddedRoundTripIff(Challenge(S, k, op, rand, sqn, amf));
    ClientOnUnpadded(S, k, op, rand, sqn, amf);
    var mac := F1(S, k, op, rand, sqn, amf);
    assert mac[..7] + [mac[7]] == mac;
    assert (mac[..7] + [0])[7] == 0;
  }

  /** The two authentication codes are the halves of one output block. */
  lemma CodesAreHalves(S: byte -> byte, k: seq<byte>, op: seq<byte>, rand: seq<byte>, sqn: seq<byte>, amf: seq<byte>)
    requires |k| == |op| == |rand| == 16 && |sqn| == 6 && |amf| == 2
    ensures F1(S, k, op, rand, sqn, amf) + F1Star(S, k, op, rand, sqn, amf) == Out1(S, k, op, rand, sqn, amf)
  {
    hide Out1;
  }

  /** The program, once the nonce is taken apart; `sqn` holds the masked number. */
  method Compute(unit: Unit, rnd: array<byte>, sqn: array<byte>, mac: array<byte>, akaOp: array<byte>,
          akaAmf: array<byte>, akaK: array<byte>)
      returns (answer: Answer)
    requires unit.Valid() && rnd.Length == akaOp.Length == akaK.Length == 16
    requires sqn.Length == 6 && mac.Length == 8 && akaAmf.Length == 2
    modifies unit.aes.eKey, sqn
    ensures answer == Judge(unit.aes.S, akaK[..], akaOp[..], akaAmf[..], rnd[..], old(sqn[..]), mac[..])
  {
    hide F1, F2, F5, F3, F4, Xb, Unit.Valid;
    var res, ck, ik, ak := new byte[8](_ => 0), new byte[16](_ => 0), new byte[16](_ => 0), new byte[6](_ => 0);
    unit.ComputeF2345(akaK, rnd, res, ck, ik, ak, akaOp);
    XorInPlace(sqn, ak);
    var xmac := new byte[8](_ => 0);
    unit.ComputeF1(akaK, rnd, sqn, akaAmf, xmac, akaOp);
    answer := Answer(sqn[..], res[..], mac[..] == xmac[..]);
  }

  lemma SliceOfPrefix(s: seq<byte>, n: nat, a: nat, b: nat)
    requires a <= b <= n <= |s|
    ensures s[..n][a..b] == s[a..b]
  {
  }

  /** The program: decode, take apart, compute, compare. */
  method CreateAnswer(unit: Unit, nonce64: array<char>, size: nat, akaOp: array<byte>, akaAmf: array<byte>,
          akaK: array<byte>)
      returns (answer: Answer)
    requires unit.Valid() && size <= nonce64.Length && akaOp.Length == akaK.Length == 16 && akaAmf.Length == 2
    modifies unit.aes.eKey
    ensures answer == Client(unit.aes.S, akaK[..], akaOp[..], akaAmf[..], Base64.Decode(nonce64[..size]))
  {
    hide Judge, Base64.Decode, Unit.Valid;
    var nonce, noncelen := Base64.DecodeString(nonce64, size);
    if noncelen < RANDLEN + AUTNLEN {
      return NonceTooShort;
    }
    var rnd, sqn, mac := new byte[16](_ => 0), new byte[6](_ => 0), new byte[8](_ => 0);
    CopyFrom(rnd, nonce, 0);
    CopyFrom(sqn, nonce, RANDLEN);
    CopyFrom(mac, nonce, RANDLEN + SQNLEN + AMFLEN);
    SliceOfPrefix(nonce[..], noncelen, 0, 16);
    SliceOfPrefix(nonce[..], noncelen, 16, 22);
    SliceOfPrefix(nonce[..], noncelen, 24, 32);
    answer := Compute(unit, rnd, sqn, mac, akaOp, akaAmf, akaK);
  }
}
