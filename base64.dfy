/**
 * The "base64" encoding of section 4 of RFC 4648 (alphabet A-Z a-z 0-9 + /, padding with '='),
 * as produced by java.util.Base64.getEncoder() and read back by java.util.Base64.getDecoder().
 */
module Base64 {
  import opened Wrappers

  type byte = x: int | 0 <= x < 256
  type sextet = x: int | 0 <= x < 64

  predicate IsBase64Char(c: char)
  {
    ('A' <= c <= 'Z') || ('a' <= c <= 'z') || ('0' <= c <= '9') || c == '+' || c == '/'
  }

  /** The character of a 6-bit group, following the table in section 4 of RFC 4648. */
  function CharOf(d: sextet): (c: char)
    ensures IsBase64Char(c)
  {
    if d < 26 then ('A' as int + d) as char
    else if d < 52 then ('a' as int + (d - 26)) as char
    else if d < 62 then ('0' as int + (d - 52)) as char
    else if d == 62 then '+'
    else '/'
  }

  /** The 6-bit group an alphabet character stands for. */
  function ValueOf(c: char): sextet
    requires IsBase64Char(c)
  {
    if 'A' <= c <= 'Z' then c as int - 'A' as int
    else if 'a' <= c <= 'z' then c as int - 'a' as int + 26
    else if '0' <= c <= '9' then c as int - '0' as int + 52
    else if c == '+' then 62
    else 63
  }

  /** CharOf and ValueOf are inverse bijections between 6-bit groups and the alphabet. */
  lemma ValueOfCharOf(d: sextet)
    ensures ValueOf(CharOf(d)) == d
  {
  }

  lemma CharOfValueOf(c: char)
    requires IsBase64Char(c)
    ensures CharOf(ValueOf(c)) == c
  {
  }

  /** Three bytes become four characters. */
  function EncodeTriple(a: byte, b: byte, c: byte): string
  {
    [CharOf(a / 4), CharOf((a % 4) * 16 + b / 16), CharOf((b % 16) * 4 + c / 64), CharOf(c % 64)]
  }

  /** A final single byte becomes two characters and two padding characters. */
  function EncodeFinalOne(a: byte): string
  {
    [CharOf(a / 4), CharOf((a % 4) * 16), '=', '=']
  }

  /** A final pair of bytes becomes three characters and one padding character. */
  function EncodeFinalTwo(a: byte, b: byte): string
  {
    [CharOf(a / 4), CharOf((a % 4) * 16 + b / 16), CharOf((b % 16) * 4), '=']
  }

  /** The padded encoding of a byte sequence, without line breaks. */
  function Encode(b: seq<byte>): (s: string)
    ensures |s| == 4 * ((|b| + 2) / 3)
    decreases |b|
  {
    if |b| == 0 then ""
    else if |b| == 1 then EncodeFinalOne(b[0])
    else if |b| == 2 then EncodeFinalTwo(b[0], b[1])
    else EncodeTriple(b[0], b[1], b[2]) + Encode(b[3..])
  }

  /** Four alphabet characters become three bytes. */
  function DecodeQuad(c0: char, c1: char, c2: char, c3: char): seq<byte>
    requires IsBase64Char(c0) && IsBase64Char(c1) && IsBase64Char(c2) && IsBase64Char(c3)
  {
    var d0, d1, d2, d3 := ValueOf(c0), ValueOf(c1), ValueOf(c2), ValueOf(c3);
    [d0 * 4 + d1 / 16, (d1 % 16) * 16 + d2 / 4, (d2 % 4) * 64 + d3]
  }

  /** A final unit of two characters is one byte; the unused low bits of the second are ignored. */
  function DecodePair(c0: char, c1: char): Option<seq<byte>>
  {
    if IsBase64Char(c0) && IsBase64Char(c1) then Some([ValueOf(c0) * 4 + ValueOf(c1) / 16])
    else None
  }

  /** A final unit of three characters is two bytes; the unused low bits of the third are ignored. */
  function DecodeTriple(c0: char, c1: char, c2: char): Option<seq<byte>>
  {
    if IsBase64Char(c0) && IsBase64Char(c1) && IsBase64Char(c2) then
      var d0, d1, d2 := ValueOf(c0), ValueOf(c1), ValueOf(c2);
      Some([d0 * 4 + d1 / 16, (d1 % 16) * 16 + d2 / 4])
    else None
  }

  /** The last unit of at most four characters: padded ("xx==", "xxx="), unpadded ("xx", "xxx") or full. */
  function DecodeFinal(s: string): Option<seq<byte>>
    requires |s| <= 4
  {
    if |s| == 0 then Some([])
    else if |s| == 1 then None
    else if |s| == 2 then DecodePair(s[0], s[1])
    else if |s| == 3 then (if s[2] == '=' then None else DecodeTriple(s[0], s[1], s[2]))
    else if s[2] == '=' && s[3] == '=' then DecodePair(s[0], s[1])
    else if s[3] == '=' then DecodeTriple(s[0], s[1], s[2])
    else if IsBase64Char(s[0]) && IsBase64Char(s[1]) && IsBase64Char(s[2]) && IsBase64Char(s[3]) then
      Some(DecodeQuad(s[0], s[1], s[2], s[3]))
    else None
  }

  /** A leading unit of four alphabet characters, followed by more text. */
  predicate FullUnit(s: string)
  {
    |s| >= 4 && IsBase64Char(s[0]) && IsBase64Char(s[1]) && IsBase64Char(s[2]) && IsBase64Char(s[3])
  }

  /**
   * Decoding as the basic decoder does it: the text is read in units of four characters; the last
   * unit may be padded or left unpadded. A single trailing character, padding anywhere but at the
   * end, and any character outside the alphabet give None (the decoder's IllegalArgumentException).
   */
  function Decode(s: string): Option<seq<byte>>
    decreases |s|
  {
    if |s| <= 4 then DecodeFinal(s)
    else if !FullUnit(s) then None
    else
      match Decode(s[4..])
      case None => None
      case Some(rest) => Some(DecodeQuad(s[0], s[1], s[2], s[3]) + rest)
  }

  /** Regrouping three bytes into four 6-bit groups and back gives the same bytes. */
  lemma Regroup(a: byte, b: byte, c: byte)
    ensures var d0, d1, d2, d3 := a / 4, (a % 4) * 16 + b / 16, (b % 16) * 4 + c / 64, c % 64;
      d0 * 4 + d1 / 16 == a && (d1 % 16) * 16 + d2 / 4 == b && (d2 % 4) * 64 + d3 == c
  {
  }

  lemma TripleRoundTrip(a: byte, b: byte, c: byte)
    ensures var e := EncodeTriple(a, b, c); FullUnit(e) && DecodeQuad(e[0], e[1], e[2], e[3]) == [a, b, c]
  {
    var d0: sextet, d1: sextet, d2: sextet, d3: sextet := a / 4, (a % 4) * 16 + b / 16, (b % 16) * 4 + c / 64, c % 64;
    ValueOfCharOf(d0);
    ValueOfCharOf(d1);
    ValueOfCharOf(d2);
    ValueOfCharOf(d3);
    Regroup(a, b, c);
    var e := EncodeTriple(a, b, c);
    assert e == [CharOf(d0), CharOf(d1), CharOf(d2), CharOf(d3)];
    assert DecodeQuad(e[0], e[1], e[2], e[3]) == [d0 * 4 + d1 / 16, (d1 % 16) * 16 + d2 / 4, (d2 % 4) * 64 + d3];
  }

  lemma FinalOneRoundTrip(a: byte)
    ensures Decode(EncodeFinalOne(a)) == Some([a])
  {
    ValueOfCharOf(a / 4);
    ValueOfCharOf((a % 4) * 16);
  }

  lemma FinalTwoRoundTrip(a: byte, b: byte)
    ensures Decode(EncodeFinalTwo(a, b)) == Some([a, b])
  {
    var d0: sextet, d1: sextet, d2: sextet := a / 4, (a % 4) * 16 + b / 16, (b % 16) * 4;
    ValueOfCharOf(d0);
    ValueOfCharOf(d1);
    ValueOfCharOf(d2);
    RegroupTwo(a, b);
    var e := EncodeFinalTwo(a, b);
    assert e == [CharOf(d0), CharOf(d1), CharOf(d2), '='];
    assert Decode(e) == DecodeTriple(e[0], e[1], e[2]);
  }

  /** Regrouping two bytes into three 6-bit groups and back gives the same bytes. */
  lemma RegroupTwo(a: byte, b: byte)
    ensures var d0, d1, d2 := a / 4, (a % 4) * 16 + b / 16, (b % 16) * 4;
      d0 * 4 + d1 / 16 == a && (d1 % 16) * 16 + d2 / 4 == b
  {
  }

  /** A string that starts with a full unit is decoded unit by unit. */
  lemma DecodeFullUnit(s: string, rest: seq<byte>)
    requires FullUnit(s) && Decode(s[4..]) == Some(rest)
    ensures Decode(s) == Some(DecodeQuad(s[0], s[1], s[2], s[3]) + rest)
  {
    if |s| == 4 {
      assert s[4..] == [];
      assert rest == [];
      assert DecodeQuad(s[0], s[1], s[2], s[3]) + rest == DecodeQuad(s[0], s[1], s[2], s[3]);
    }
  }

  /** A full unit in front of a decodable text contributes its three bytes in front. */
  lemma DecodePrefixed(t: string, x: string, rest: seq<byte>)
    requires |t| == 4 && FullUnit(t) && Decode(x) == Some(rest)
    ensures Decode(t + x) == Some(DecodeQuad(t[0], t[1], t[2], t[3]) + rest)
  {
    var s := t + x;
    assert s[4..] == x;
    assert s[0] == t[0] && s[1] == t[1] && s[2] == t[2] && s[3] == t[3];
    DecodeFullUnit(s, rest);
  }

  lemma DecodeEncodeStep(b: seq<byte>)
    requires |b| >= 3 && Decode(Encode(b[3..])) == Some(b[3..])
    ensures Decode(Encode(b)) == Some(b)
  {
    var t, x := EncodeTriple(b[0], b[1], b[2]), Encode(b[3..]);
    assert Encode(b) == t + x;
    TripleRoundTrip(b[0], b[1], b[2]);
    DecodePrefixed(t, x, b[3..]);
    SplitThree(b);
  }

  lemma SplitThree<T>(b: seq<T>)
    requires |b| >= 3
    ensures b == [b[0], b[1], b[2]] + b[3..]
  {
  }

  /** Decoding undoes encoding, for every byte sequence. */
  lemma {:induction false} DecodeEncode(b: seq<byte>)
    ensures Decode(Encode(b)) == Some(b)
    decreases |b|
  {
    if |b| == 1 {
      FinalOneRoundTrip(b[0]);
      assert b == [b[0]];
    } else if |b| == 2 {
      FinalTwoRoundTrip(b[0], b[1]);
      assert b == [b[0], b[1]];
    } else if |b| >= 3 {
      DecodeEncode(b[3..]);
      DecodeEncodeStep(b);
    }
  }

  /** Every character of an encoding is an alphabet character or the padding character. */
  lemma {:induction false} EncodeAlphabet(b: seq<byte>)
    ensures forall k :: 0 <= k < |Encode(b)| ==> IsBase64Char(Encode(b)[k]) || Encode(b)[k] == '='
    decreases |b|
  {
    if |b| >= 3 {
      EncodeAlphabet(b[3..]);
      assert Encode(b) == EncodeTriple(b[0], b[1], b[2]) + Encode(b[3..]);
    }
  }

  /** The test vector of the encoder's unit tests. */
  lemma EncodeExample(b: seq<byte>)
    requires b == [0x14, 0xfb, 0x9c, 0x03, 0xd9, 0x7e]
    ensures Encode(b) == "FPucA9l+"
    ensures Decode("FPucA9l+") == Some(b)
  {
    var t1, t2 := EncodeTriple(0x14, 0xfb, 0x9c), EncodeTriple(0x03, 0xd9, 0x7e);
    ExampleFirstUnit();
    ExampleSecondUnit();
    assert b[3..] == [0x03, 0xd9, 0x7e] && b[3..][3..] == [];
    assert Encode(b[3..]) == t2 + "";
    assert Encode(b) == t1 + (t2 + "");
    assert "FPuc" + ("A9l+" + "") == "FPucA9l+";
    DecodeEncode(b);
  }

  lemma ExampleFirstUnit()
    ensures EncodeTriple(0x14, 0xfb, 0x9c) == "FPuc"
  {
    UnitChars(0x14, 0xfb, 0x9c, 5, 15, 46, 28);
    assert CharOf(5) == 'F' && CharOf(15) == 'P' && CharOf(46) == 'u' && CharOf(28) == 'c';
  }

  lemma ExampleSecondUnit()
    ensures EncodeTriple(0x03, 0xd9, 0x7e) == "A9l+"
  {
    UnitChars(0x03, 0xd9, 0x7e, 0, 61, 37, 62);
    assert CharOf(0) == 'A' && CharOf(61) == '9' && CharOf(37) == 'l' && CharOf(62) == '+';
  }

  lemma UnitChars(a: byte, b: byte, c: byte, d0: sextet, d1: sextet, d2: sextet, d3: sextet)
    requires d0 == a / 4 && d1 == (a % 4) * 16 + b / 16 && d2 == (b % 16) * 4 + c / 64 && d3 == c % 64
    ensures EncodeTriple(a, b, c) == [CharOf(d0), CharOf(d1), CharOf(d2), CharOf(d3)]
  {
  }
}
