/** The program's base64 (section 4 of RFC 4648): encoding and decoding loops over allocated buffers,
    and the round trip. Masks and shifts of unsigned bytes are written as quotients and remainders; a
    decoded digit is a number from -1 (the padding sign) to 63, and only its low six bits are stored. */
module Base64 {
  import opened Bits

  /** The character of a digit. */
  function Sign(k: nat): char
    requires k < 64
  {
    if k < 26 then "ABCDEFGHIJKLMNOPQRSTUVWXYZ"[k]
    else if k < 52 then "abcdefghijklmnopqrstuvwxyz"[k - 26]
    else "0123456789+/"[k - 52]
  }

  /** The digit of a character: -1 for the padding sign, 0 for a character outside the alphabet. */
  function Val(c: char): (x: int)
    ensures -1 <= x < 64
  {
    if c == '=' then -1
    else if 'A' <= c <= 'Z' then c as int - 'A' as int
    else if 'a' <= c <= 'z' then c as int - 'a' as int + 26
    else if '0' <= c <= '9' then c as int - '0' as int + 52
    else if c == '+' then 62
    else if c == '/' then 63
    else 0
  }

  lemma UpperDigit(k: nat)
    requires k < 26
    ensures Val(Sign(k)) == k
  {
  }

  lemma LowerDigit(k: nat)
    requires 26 <= k < 52
    ensures Val(Sign(k)) == k
  {
  }

  lemma OtherDigit(k: nat)
    requires 52 <= k < 64
    ensures Val(Sign(k)) == k
  {
  }

  /** Reading a digit undoes writing it. */
  lemma DigitRoundTrip(k: nat)
    requires k < 64
    ensures Val(Sign(k)) == k
  {
    hide Val, Sign;
    if k < 26 {
      UpperDigit(k);
    } else if k < 52 {
      LowerDigit(k);
    } else {
      OtherDigit(k);
    }
  }

  /** Table 1 of RFC 4648. */
  lemma Alphabet(k: nat)
    requires k < 64
    ensures Sign(k) as int ==
      if k < 26 then 'A' as int + k else if k < 52 then 'a' as int + k - 26 else if k < 62 then '0' as int + k - 52
      else if k == 62 then '+' as int else '/' as int
  {
  }

  /** The padding sign reads as -1, and what is not in the table as 0. */
  lemma OtherSigns(c: char)
    ensures Val('=') == -1
    ensures c != '=' && (forall k: nat :: k < 64 ==> Sign(k) != c) ==> Val(c) == 0
  {
    hide Sign;
    var k := if 'A' <= c <= 'Z' then c as int - 'A' as int
             else if 'a' <= c <= 'z' then c as int - 'a' as int + 26
             else if '0' <= c <= '9' then c as int - '0' as int + 52
             else if c == '+' then 62 else 63;
    Alphabet(k);
  }

  // ---------- RFC 4648, section 4 ----------

  /** The n-th six-bit digit of a 24-bit group, from the left. */
  function Digit(a: byte, b: byte, c: byte, n: nat): (d: nat)
    requires n < 4
    ensures d < 64
  {
    var group := a * 0x1_0000 + b * 0x100 + c;
    if n == 0 then group / 0x4_0000
    else if n == 1 then group / 0x1000 % 64
    else if n == 2 then group / 64 % 64
    else group % 64
  }

  /** The four digits spell the 24 bits, the first byte and the first digit being the highest. */
  lemma DigitsSpell(a: byte, b: byte, c: byte)
    ensures ((Digit(a, b, c, 0) * 64 + Digit(a, b, c, 1)) * 64 + Digit(a, b, c, 2)) * 64 + Digit(a, b, c, 3)
            == (a * 0x100 + b) * 0x100 + c
  {
    var group := a * 0x1_0000 + b * 0x100 + c;
    assert group / 64 / 64 == group / 0x1000 && group / 0x1000 / 64 == group / 0x4_0000;
  }

  /** The four characters of a group. */
  function Quad(a: byte, b: byte, c: byte): (q: string)
    ensures |q| == 4
  {
    [Sign(Digit(a, b, c, 0)), Sign(Digit(a, b, c, 1)), Sign(Digit(a, b, c, 2)), Sign(Digit(a, b, c, 3))]
  }

  /** Whole groups of three bytes; one or two bytes left over are padded. */
  function Encode(x: seq<byte>): string {
    if |x| == 0 then ""
    else if |x| == 1 then var q := Quad(x[0], 0, 0); [q[0], q[1], '=', '=']
    else if |x| == 2 then var q := Quad(x[0], x[1], 0); [q[0], q[1], q[2], '=']
    else Quad(x[0], x[1], x[2]) + Encode(x[3..])
  }

  /** Where the signs of a whole group stand. */
  lemma {:induction false} EncodedSigns(x: seq<byte>, i: nat, n: nat)
    requires 3 * i + 2 < |x| && n < 4
    ensures 4 * i + n < |Encode(x)|
    ensures Encode(x)[4 * i + n] == Sign(Digit(x[3 * i], x[3 * i + 1], x[3 * i + 2], n))
  {
    hide Sign, Digit;
    EncodeLength(x);
    if i > 0 {
      EncodedSigns(x[3..], i - 1, n);
    }
  }

  /** Whole groups in front are encoded by themselves. */
  lemma {:induction false} GroupsInFront(x: seq<byte>, y: seq<byte>)
    requires |x| % 3 == 0
    ensures Encode(x + y) == Encode(x) + Encode(y)
  {
    hide Quad;
    if x == [] {
      assert x + y == y;
    } else {
      GroupsInFront(x[3..], y);
      assert (x + y)[3..] == x[3..] + y;
    }
  }

  /** Behind them, one byte left over gives two digits and two padding signs, two bytes three and one; the
      missing bytes count as zero. */
  lemma EncodedTail(x: seq<byte>, a: byte, b: byte)
    requires |x| % 3 == 0
    ensures Encode(x + [a]) == Encode(x) + [Sign(Digit(a, 0, 0, 0)), Sign(Digit(a, 0, 0, 1)), '=', '=']
    ensures Encode(x + [a, b]) ==
      Encode(x) + [Sign(Digit(a, b, 0, 0)), Sign(Digit(a, b, 0, 1)), Sign(Digit(a, b, 0, 2)), '=']
  {
    hide Sign, Digit;
    GroupsInFront(x, [a]);
    GroupsInFront(x, [a, b]);
  }

  lemma {:induction false} EncodeLength(x: seq<byte>)
    ensures |Encode(x)| == (|x| + 2) / 3 * 4
  {
    hide Quad, Sign;
    if |x| >= 3 {
      EncodeLength(x[3..]);
    }
  }

  lemma Halves(hi: nat, lo: nat)
    ensures lo < 16 ==> (hi * 16 + lo) / 16 == hi && (hi * 16 + lo) % 16 == lo
    ensures lo < 4 ==> (hi * 4 + lo) / 4 == hi && (hi * 4 + lo) % 4 == lo
  {
  }

  lemma FirstDigit(a: byte, b: byte, c: byte)
    ensures Digit(a, b, c, 0) == a / 4
  {
  }

  lemma SecondDigit(a: byte, b: byte, c: byte)
    ensures Digit(a, b, c, 1) == a % 4 * 16 + b / 16
  {
    assert (a * 0x1_0000 + b * 0x100 + c) / 0x1000 == a * 16 + b / 16;
  }

  lemma LowSix(hi: nat, lo: nat)
    requires lo < 64
    ensures (64 * hi + lo) % 64 == lo
  {
  }

  lemma ThirdDigit(a: byte, b: byte, c: byte)
    ensures Digit(a, b, c, 2) == b % 16 * 4 + c / 64
  {
    var q := (a * 0x1_0000 + b * 0x100 + c) / 64;
    assert q == a * 0x400 + b * 4 + c / 64;
    var lo := b % 16 * 4 + c / 64;
    assert q == 64 * (a * 16 + b / 16) + lo && lo < 64;
    LowSix(a * 16 + b / 16, lo);
  }

  lemma FourthDigit(a: byte, b: byte, c: byte)
    ensures Digit(a, b, c, 3) == c % 64
  {
  }

  /** The program's masks and shifts pick exactly these digits. */
  lemma DigitsByMask(a: byte, b: byte, c: byte)
    ensures Digit(a, b, c, 0) == a / 4 && Digit(a, b, c, 1) == a % 4 * 16 + b / 16
    ensures Digit(a, b, c, 2) == b % 16 * 4 + c / 64 && Digit(a, b, c, 3) == c % 64
  {
    hide Digit, Sign;
    FirstDigit(a, b, c);
    SecondDigit(a, b, c);
    ThirdDigit(a, b, c);
    FourthDigit(a, b, c);
  }

  // ---------- What the decoder computes ----------

  /** The three bytes stored for four digits. */
  function Byte1(x1: int, x2: int): byte {
    x1 % 64 * 4 + x2 % 64 / 16
  }

  function Byte2(x2: int, x3: int): byte {
    x2 % 16 * 16 + x3 % 64 / 4
  }

  function Byte3(x3: int, x4: int): byte {
    x3 % 4 * 64 + x4 % 64
  }

  function Triple(x1: int, x2: int, x3: int, x4: int): (t: seq<byte>)
    ensures |t| == 3
  {
    [Byte1(x1, x2), Byte2(x2, x3), Byte3(x3, x4)]
  }

  lemma TripleBytes(x1: int, x2: int, x3: int, x4: int)
    ensures Triple(x1, x2, x3, x4) == [Byte1(x1, x2), Byte2(x2, x3), Byte3(x3, x4)]
  {
  }

  /** Full quadruples. */
  function DecodeQuads(s: string): seq<byte> {
    if |s| < 4 then [] else Triple(Val(s[0]), Val(s[1]), Val(s[2]), Val(s[3])) + DecodeQuads(s[4..])
  }

  lemma {:induction false} DecodeQuadsLength(s: string)
    ensures |DecodeQuads(s)| == |s| / 4 * 3
  {
    hide Val, Triple;
    if |s| >= 4 {
      DecodeQuadsLength(s[4..]);
    }
  }

  /** One to three characters left over. The nested conditions are the program's: a missing digit
      counts as -1, and the second and third byte are stored only when their digits are missing. */
  function DecodeRest(s: string): (x: seq<byte>)
    requires |s| < 4
    ensures |x| <= 3
  {
    if s == "" then []
    else
      var x1 := Val(s[0]);
      var x2 := if |s| > 1 then Val(s[1]) else -1;
      var x3 := if |s| > 2 then Val(s[2]) else -1;
      if x2 == -1 then []
      else if x3 != -1 then [Byte1(x1, x2)]
      else [Byte1(x1, x2), Byte2(x2, x3), Byte3(x3, -1)]
  }

  /** The whole buffer, with the terminating zero that the reported length includes. */
  function Decode(s: string): seq<byte> {
    DecodeQuads(s) + DecodeRest(s[|s| / 4 * 4..]) + [0]
  }

  // ---------- The round trip ----------

  lemma FirstByte(a: byte, b: byte)
    ensures Byte1(a / 4, a % 4 * 16 + b / 16) == a
  {
    Halves(a % 4, b / 16);
    var x1, x2 := a / 4, a % 4 * 16 + b / 16;
    assert x1 < 64 && x2 < 64;
    assert x1 % 64 == x1 && x2 % 64 == x2;
  }

  lemma SecondByte(a: byte, b: byte, c: byte)
    ensures Byte2(a % 4 * 16 + b / 16, b % 16 * 4 + c / 64) == b
  {
    Halves(a % 4, b / 16);
    Halves(b % 16, c / 64);
    var x2, x3 := a % 4 * 16 + b / 16, b % 16 * 4 + c / 64;
    assert x2 % 16 == b / 16 && x3 < 64;
    assert x3 % 64 == x3;
  }

  lemma ThirdByte(b: byte, c: byte)
    ensures Byte3(b % 16 * 4 + c / 64, c % 64) == c
  {
  }

  /** The digits of a group put together again. */
  lemma GroupRoundTrip(a: byte, b: byte, c: byte)
    ensures Triple(Digit(a, b, c, 0), Digit(a, b, c, 1), Digit(a, b, c, 2), Digit(a, b, c, 3)) == [a, b, c]
  {
    hide Digit, Byte1, Byte2, Byte3;
    DigitsByMask(a, b, c);
    FirstByte(a, b);
    SecondByte(a, b, c);
    ThirdByte(b, c);
  }

  lemma QuadRoundTrip(a: byte, b: byte, c: byte)
    ensures var q := Quad(a, b, c); Triple(Val(q[0]), Val(q[1]), Val(q[2]), Val(q[3])) == [a, b, c]
  {
    hide Digit, Sign, Val, Triple;
    GroupRoundTrip(a, b, c);
    DigitRoundTrip(Digit(a, b, c, 0));
    DigitRoundTrip(Digit(a, b, c, 1));
    DigitRoundTrip(Digit(a, b, c, 2));
    DigitRoundTrip(Digit(a, b, c, 3));
  }

  /** A padding sign only affects the bytes that are not there. */
  lemma PaddingKeepsBytes(x1: int, x2: int, x3: int, y3: int, x4: int, y4: int)
    ensures Triple(x1, x2, x3, x4)[0] == Triple(x1, x2, y3, y4)[0]
    ensures Triple(x1, x2, x3, x4)[1] == Triple(x1, x2, x3, y4)[1]
  {
  }

  lemma {:induction false} QuadsRoundTrip(x: seq<byte>)
    ensures |DecodeQuads(Encode(x))| == (|x| + 2) / 3 * 3
    ensures DecodeQuads(Encode(x))[..|x|] == x
  {
    hide Quad, Val, Triple;
    var s := Encode(x);
    EncodeLength(x);
    DecodeQuadsLength(s);
    if 1 <= |x| <= 2 {
      var b := if |x| == 1 then 0 else x[1];
      var q := Quad(x[0], b, 0);
      QuadRoundTrip(x[0], b, 0);
      PaddingKeepsBytes(Val(q[0]), Val(q[1]), Val(q[2]), Val(s[2]), Val(q[3]), Val(s[3]));
      assert DecodeQuads(s) == Triple(Val(s[0]), Val(s[1]), Val(s[2]), Val(s[3])) + DecodeQuads(s[4..]);
    } else if |x| >= 3 {
      QuadRoundTrip(x[0], x[1], x[2]);
      assert s[4..] == Encode(x[3..]);
      QuadsRoundTrip(x[3..]);
      assert x == [x[0], x[1], x[2]] + x[3..];
    }
  }

  /** Decoding an encoding gives the bytes back; the reported length counts whole triples and the
      terminating zero, so it can exceed the number of bytes by up to three. */
  lemma RoundTrip(x: seq<byte>)
    ensures |Decode(Encode(x))| == (|x| + 2) / 3 * 3 + 1
    ensures Decode(Encode(x))[..|x|] == x
  {
    hide Encode, DecodeQuads;
    QuadsRoundTrip(x);
    EncodeLength(x);
    var s := Encode(x);
    assert s[|s| / 4 * 4..] == "";
  }

  // ---------- Texts without padding ----------

  /** The encoding without its padding signs. */
  function Unpadded(x: seq<byte>): string {
    if |x| == 0 then ""
    else if |x| == 1 then Quad(x[0], 0, 0)[..2]
    else if |x| == 2 then Quad(x[0], x[1], 0)[..3]
    else Quad(x[0], x[1], x[2]) + Unpadded(x[3..])
  }

  lemma {:induction false} PaddingApart(x: seq<byte>)
    ensures Encode(x) == Unpadded(x) + if |x| % 3 == 0 then "" else if |x| % 3 == 1 then "==" else "="
  {
    hide Quad;
    if |x| >= 3 {
      PaddingApart(x[3..]);
    }
  }

  /** How many bytes the leftover characters give: none, one or three, never two. */
  lemma RestLength(s: string)
    requires |s| < 4
    ensures |DecodeRest(s)| == if |s| < 2 || s[1] == '=' then 0 else if |s| == 3 && s[2] != '=' then 1 else 3
  {
    hide Byte1, Byte2, Byte3;
  }

  /** The reported length, for every text. */
  lemma DecodeLength(s: string)
    ensures var n := |s| / 4 * 4;
      |Decode(s)| == |s| / 4 * 3 + 1 +
        if |s| < n + 2 || s[n + 1] == '=' then 0 else if |s| == n + 3 && s[n + 2] != '=' then 1 else 3
  {
    hide DecodeQuads, DecodeRest;
    DecodeQuadsLength(s);
    RestLength(s[|s| / 4 * 4..]);
  }

  lemma DecodeGroup(a: byte, b: byte, c: byte, t: string)
    ensures Decode(Quad(a, b, c) + t) == [a, b, c] + Decode(t)
  {
    hide Quad, Val, Triple, DecodeRest;
    var q := Quad(a, b, c);
    var s := q + t;
    QuadRoundTrip(a, b, c);
    assert s[4..] == t && s[|s| / 4 * 4..] == t[|t| / 4 * 4..];
    assert s[0] == q[0] && s[1] == q[1] && s[2] == q[2] && s[3] == q[3];
  }

  lemma DecodeOneLeft(a: byte)
    ensures Decode(Quad(a, 0, 0)[..2])[..1] == [a]
  {
    hide Digit, Sign, Val, Byte1, Byte2, Byte3;
    var q := Quad(a, 0, 0);
    DigitRoundTrip(Digit(a, 0, 0, 0));
    DigitRoundTrip(Digit(a, 0, 0, 1));
    DigitsByMask(a, 0, 0);
    FirstByte(a, 0);
    assert q[..2][0..] == q[..2];
  }

  lemma DecodeTwoLeft(a: byte, b: byte)
    ensures Decode(Quad(a, b, 0)[..3]) == [a, 0]
  {
    hide Digit, Sign, Val, Byte1, Byte2, Byte3;
    var q := Quad(a, b, 0);
    DigitRoundTrip(Digit(a, b, 0, 0));
    DigitRoundTrip(Digit(a, b, 0, 1));
    DigitRoundTrip(Digit(a, b, 0, 2));
    DigitsByMask(a, b, 0);
    FirstByte(a, b);
    assert q[..3][0..] == q[..3];
  }

  /** Without padding, two bytes left over lose the second one, which is read as zero: decoding gives the
      bytes back if and only if there are not two left over, or the last one is zero. */
  lemma {:induction false} UnpaddedRoundTripIff(x: seq<byte>)
    ensures |Decode(Unpadded(x))| >= |x|
    ensures Decode(Unpadded(x))[..|x|] == x <==> |x| % 3 != 2 || x[|x| - 1] == 0
    ensures |x| % 3 == 2 ==> Decode(Unpadded(x)) == x[..|x| - 1] + [0]
  {
    hide Quad, Decode, DecodeQuads, DecodeRest;
    if |x| == 1 {
      DecodeOneLeft(x[0]);
      DecodeLength(Unpadded(x));
    } else if |x| == 2 {
      DecodeTwoLeft(x[0], x[1]);
      assert x[..1] + [0] == [x[0], 0];
    } else if |x| >= 3 {
      UnpaddedRoundTripIff(x[3..]);
      UnpaddedStep(x);
    }
  }

  lemma UnpaddedStep(x: seq<byte>)
    requires |x| >= 3 && |Decode(Unpadded(x[3..]))| >= |x| - 3
    ensures var rest, d := x[3..], Decode(Unpadded(x[3..]));
      && |Decode(Unpadded(x))| == |d| + 3
      && (Decode(Unpadded(x))[..|x|] == x <==> d[..|rest|] == rest)
      && (rest != [] && d == rest[..|rest| - 1] + [0] ==> Decode(Unpadded(x)) == x[..|x| - 1] + [0])
  {
    hide Quad, Decode;
    var g, rest := [x[0], x[1], x[2]], x[3..];
    DecodeGroup(x[0], x[1], x[2], Unpadded(rest));
    GroupInFront(g, rest, Decode(Unpadded(rest)));
    assert x == g + rest;
  }

  lemma GroupInFront(g: seq<byte>, rest: seq<byte>, d: seq<byte>)
    requires |d| >= |rest|
    ensures (g + d)[..|g| + |rest|] == g + rest <==> d[..|rest|] == rest
    ensures rest != [] && d == rest[..|rest| - 1] + [0] ==> g + d == (g + rest)[..|g| + |rest| - 1] + [0]
  {
    assert (g + d)[..|g| + |rest|] == g + d[..|rest|];
    assert (g + d[..|rest|])[|g|..] == d[..|rest|] && (g + rest)[|g|..] == rest;
  }

  // ---------- The loops ----------

  lemma EncodeStep(x: seq<byte>)
    requires |x| >= 3
    ensures Encode(x) == Quad(x[0], x[1], x[2]) + Encode(x[3..])
  {
  }

  lemma QuadByMask(a: byte, b: byte, c: byte)
    ensures Quad(a, b, c) ==
            [Sign(a / 4), Sign(a % 4 * 16 + b / 16), Sign(b % 16 * 4 + c / 64), Sign(c % 64)]
  {
    hide Digit, Sign;
    DigitsByMask(a, b, c);
  }

  /** Four characters at a time. */
  method Put(out: array<char>, ptr: nat, c1: char, c2: char, c3: char, c4: char)
    requires ptr + 4 <= out.Length
    modifies out
    ensures out[..ptr + 4] == old(out[..ptr]) + [c1, c2, c3, c4]
  {
    out[ptr], out[ptr + 1], out[ptr + 2], out[ptr + 3] := c1, c2, c3, c4;
  }

  lemma EncodeRest(x: seq<byte>)
    requires |x| < 3
    ensures Encode(x) == if |x| == 0 then ""
                         else if |x| == 1 then var q := Quad(x[0], 0, 0); [q[0], q[1], '=', '=']
                         else var q := Quad(x[0], x[1], 0); [q[0], q[1], q[2], '=']
  {
  }

  /** The whole triplets; returns how many characters they gave. */
  method EncodeTriplets(buf: array<byte>, len: nat, out: array<char>) returns (ptr: nat)
    requires len <= buf.Length && out.Length == len / 3 * 4 + 8
    modifies out
    ensures ptr == len / 3 * 4
    ensures out[..ptr] + Encode(buf[len / 3 * 3..len]) == Encode(buf[..len])
  {
    hide Encode, Quad, Sign;
    var i := 0;
    ptr := 0;
    while i < len / 3 * 3
      invariant i % 3 == 0 && 0 <= i <= len / 3 * 3 && ptr == i / 3 * 4
      invariant out[..ptr] + Encode(buf[i..len]) == Encode(buf[..len])
    {
      var a, b, c := buf[i], buf[i + 1], buf[i + 2];
      EncodeStep(buf[i..len]);
      QuadByMask(a, b, c);
      Put(out, ptr, Sign(a / 4), Sign(a % 4 * 16 + b / 16), Sign(b % 16 * 4 + c / 64), Sign(c % 64));
      assert buf[i..len][3..] == buf[i + 3..len];
      i, ptr := i + 3, ptr + 4;
    }
  }

  method EncodeString(buf: array<byte>, len: nat) returns (out: array<char>, newlen: nat)
    requires len <= buf.Length
    ensures fresh(out) && out.Length == len / 3 * 4 + 8 && newlen <= out.Length
    ensures out[..newlen] == Encode(buf[..len])
  {
    hide Encode, Quad, Sign;
    out := new char[len / 3 * 4 + 8](_ => '\0');
    var ptr := EncodeTriplets(buf, len, out);
    var i, rest := len / 3 * 3, len % 3;
    EncodeRest(buf[i..len]);
    if rest == 1 {
      QuadByMask(buf[i], 0, 0);
      Put(out, ptr, Sign(buf[i] / 4), Sign(buf[i] % 4 * 16), '=', '=');
      ptr := ptr + 4;
    } else if rest == 2 {
      QuadByMask(buf[i], buf[i + 1], 0);
      Put(out, ptr, Sign(buf[i] / 4), Sign(buf[i] % 4 * 16 + buf[i + 1] / 16), Sign(buf[i + 1] % 16 * 4), '=');
      ptr := ptr + 4;
    }
    newlen := ptr;
  }

  lemma DecodeStep(s: string)
    requires |s| >= 4
    ensures DecodeQuads(s) == Triple(Val(s[0]), Val(s[1]), Val(s[2]), Val(s[3])) + DecodeQuads(s[4..])
  {
  }

  /** The one to three characters left over. */
  method DecodeLast(s: string) returns (x: seq<byte>)
    requires |s| < 4
    ensures x == DecodeRest(s)
  {
    hide Val, Byte1, Byte2, Byte3;
    x := [];
    if |s| > 0 {
      var x1 := Val(s[0]);
      var x2 := if 1 < |s| then Val(s[1]) else -1;
      var x3 := if 2 < |s| then Val(s[2]) else -1;
      var x4 := -1;
      if x2 != -1 {
        x := x + [Byte1(x1, x2)];
        if x3 == -1 {
          x := x + [Byte2(x2, x3)];
          if x4 == -1 {
            x := x + [Byte3(x3, x4)];
          }
        }
      }
    }
  }

  /** The next bytes of the output. */
  method Store(out: array<byte>, j: nat, x: seq<byte>)
    requires j + |x| <= out.Length && |x| <= 3
    modifies out
    ensures out[..j + |x|] == old(out[..j]) + x
  {
    if |x| > 0 {
      out[j] := x[0];
    }
    if |x| > 1 {
      out[j + 1] := x[1];
    }
    if |x| > 2 {
      out[j + 2] := x[2];
    }
  }

  /** The full quadruples; returns how many bytes they gave. */
  method DecodeFull(buf: array<char>, len: nat, out: array<byte>) returns (j: nat)
    requires len <= buf.Length && out.Length == len * 3 / 4 + 8
    modifies out
    ensures j == len / 4 * 3 && out[..j] == DecodeQuads(buf[..len])
  {
    hide Val, Triple, Byte1, Byte2, Byte3, DecodeQuads;
    var i := 0;
    j := 0;
    while i + 3 < len
      invariant i % 4 == 0 && 0 <= i <= len && j == i / 4 * 3
      invariant out[..j] + DecodeQuads(buf[i..len]) == DecodeQuads(buf[..len])
    {
      var x1, x2, x3, x4 := Val(buf[i]), Val(buf[i + 1]), Val(buf[i + 2]), Val(buf[i + 3]);
      DecodeStep(buf[i..len]);
      TripleBytes(x1, x2, x3, x4);
      Store(out, j, [Byte1(x1, x2), Byte2(x2, x3), Byte3(x3, x4)]);
      assert buf[i..len][4..] == buf[i + 4..len];
      i, j := i + 4, j + 3;
    }
    DecodeQuadsLength(buf[i..len]);
    assert DecodeQuads(buf[i..len]) == [];
  }

  method DecodeString(buf: array<char>, len: nat) returns (out: array<byte>, newlen: nat)
    requires len <= buf.Length
    ensures fresh(out) && out.Length == len * 3 / 4 + 8 && newlen <= out.Length
    ensures out[..newlen] == Decode(buf[..len])
  {
    hide DecodeQuads, DecodeRest;
    out := new byte[len * 3 / 4 + 8](_ => 0);
    var j := DecodeFull(buf, len, out);
    var i := len / 4 * 4;
    assert buf[..len][i..] == buf[i..len];
    var rest := DecodeLast(buf[i..len]);
    Store(out, j, rest);
    j := j + |rest|;
    Store(out, j, [0]);
    newlen := j + 1;
  }
}
