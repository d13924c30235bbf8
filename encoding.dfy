/** The two text encodings of bytes the signer uses: Go's `hex.EncodeToString`
    (lower-case hexadecimal) and `base64.StdEncoding` (the alphabet of section 4
    of RFC 4648, with '=' padding), each with the decoder that undoes it. */
module Encoding {

  import opened Wrappers
  import opened GoStrings

  // ---------------------------------------------------------------------------
  // Hexadecimal

  function HexChar(n: nat): char
    requires n < 16
  {
    if n < 10 then ('0' as int + n) as char else ('a' as int + n - 10) as char
  }

  predicate IsLowerHex(c: char)
  {
    '0' <= c <= '9' || 'a' <= c <= 'f'
  }

  /** The value of a hexadecimal digit; like Go's decoder, either case is read. */
  function HexValue(c: char): Option<nat>
  {
    if '0' <= c <= '9' then Some(c as int - '0' as int)
    else if 'a' <= c <= 'f' then Some(c as int - 'a' as int + 10)
    else if 'A' <= c <= 'F' then Some(c as int - 'A' as int + 10)
    else None
  }

  function HexEncode(b: seq<byte>): string
    decreases |b|
  {
    if b == [] then ""
    else [HexChar(b[0] as int / 16), HexChar(b[0] as int % 16)] + HexEncode(b[1..])
  }

  function HexDecode(s: string): Option<seq<byte>>
    decreases |s|
  {
    if s == [] then Some([])
    else if |s| == 1 then None
    else match (HexValue(s[0]), HexValue(s[1]), HexDecode(s[2..]))
      case (Some(hi), Some(lo), Some(rest)) => Some([(hi * 16 + lo) as byte] + rest)
      case _ => None
  }

  /** Two lower-case hexadecimal digits per byte. */
  lemma {:induction false} HexEncodeShape(b: seq<byte>)
    ensures |HexEncode(b)| == 2 * |b|
    ensures forall i :: 0 <= i < |HexEncode(b)| ==> IsLowerHex(HexEncode(b)[i])
    decreases |b|
  {
    if b != [] {
      HexEncodeShape(b[1..]);
    }
  }

  lemma {:induction false} HexRoundTrip(b: seq<byte>)
    ensures HexDecode(HexEncode(b)) == Some(b)
    decreases |b|
  {
    if b != [] {
      var s := HexEncode(b);
      assert s[2..] == HexEncode(b[1..]);
      HexRoundTrip(b[1..]);
      assert b == [b[0]] + b[1..];
    }
  }

  // ---------------------------------------------------------------------------
  // Base64, standard alphabet, padded

  type Sextet = n: nat | n < 64

  /** The character for a 6-bit group: A-Z, a-z, 0-9, '+', '/'. */
  function Base64Char(n: Sextet): char
  {
    if n < 26 then ('A' as int + n) as char
    else if n < 52 then ('a' as int + n - 26) as char
    else if n < 62 then ('0' as int + n - 52) as char
    else if n == 62 then '+'
    else '/'
  }

  function Base64Value(c: char): Option<Sextet>
  {
    if 'A' <= c <= 'Z' then Some(c as int - 'A' as int)
    else if 'a' <= c <= 'z' then Some(c as int - 'a' as int + 26)
    else if '0' <= c <= '9' then Some(c as int - '0' as int + 52)
    else if c == '+' then Some(62)
    else if c == '/' then Some(63)
    else None
  }

  /** Three bytes make four 6-bit groups, the first byte's high bits first. */
  function EncodeGroup(x: byte, y: byte, z: byte): string
  {
    [Base64Char(x as int / 4), Base64Char(x as int % 4 * 16 + y as int / 16),
     Base64Char(y as int % 16 * 4 + z as int / 64), Base64Char(z as int % 64)]
  }

  /** A final pair of bytes: three digits, the last one padded with zero bits, and '='. */
  function EncodeTwo(x: byte, y: byte): string
  {
    [Base64Char(x as int / 4), Base64Char(x as int % 4 * 16 + y as int / 16),
     Base64Char(y as int % 16 * 4), '=']
  }

  /** A final single byte: two digits and "==". */
  function EncodeOne(x: byte): string
  {
    [Base64Char(x as int / 4), Base64Char(x as int % 4 * 16), '=', '=']
  }

  function Base64Encode(b: seq<byte>): string
    decreases |b|
  {
    if |b| == 0 then ""
    else if |b| == 1 then EncodeOne(b[0])
    else if |b| == 2 then EncodeTwo(b[0], b[1])
    else EncodeGroup(b[0], b[1], b[2]) + Base64Encode(b[3..])
  }

  function Byte0(v0: Sextet, v1: Sextet): byte { (v0 * 4 + v1 / 16) as byte }
  function Byte1(v1: Sextet, v2: Sextet): byte { (v1 % 16 * 16 + v2 / 4) as byte }
  function Byte2(v2: Sextet, v3: Sextet): byte { (v2 % 4 * 64 + v3) as byte }

  /** The decoder of `base64.StdEncoding.DecodeString`: groups of four
      characters, the last group possibly ending in one or two '='. */
  function Base64Decode(s: string): Option<seq<byte>>
    decreases |s|
  {
    if s == [] then Some([])
    else if |s| < 4 then None
    else if |s| == 4 && s[2] == '=' && s[3] == '=' then
      match (Base64Value(s[0]), Base64Value(s[1]))
      case (Some(v0), Some(v1)) => Some([Byte0(v0, v1)])
      case _ => None
    else if |s| == 4 && s[3] == '=' then
      match (Base64Value(s[0]), Base64Value(s[1]), Base64Value(s[2]))
      case (Some(v0), Some(v1), Some(v2)) => Some([Byte0(v0, v1), Byte1(v1, v2)])
      case _ => None
    else
      match (DecodeGroup(s[0], s[1], s[2], s[3]), Base64Decode(s[4..]))
      case (Some(group), Some(rest)) => Some(group + rest)
      case _ => None
  }

  /** The three bytes of four base64 digits. */
  function DecodeGroup(c0: char, c1: char, c2: char, c3: char): Option<seq<byte>>
  {
    match (Base64Value(c0), Base64Value(c1), Base64Value(c2), Base64Value(c3))
    case (Some(v0), Some(v1), Some(v2), Some(v3)) =>
      Some([Byte0(v0, v1), Byte1(v1, v2), Byte2(v2, v3)])
    case _ => None
  }

  lemma Base64CharValue(n: Sextet)
    ensures Base64Char(n) != '='
    ensures Base64Value(Base64Char(n)) == Some(n)
  {
  }

  lemma RecoverByte0(x: byte, y: nat)
    requires y < 16
    ensures Byte0(x as int / 4, x as int % 4 * 16 + y) == x
  {
  }

  lemma RecoverByte1(w: byte, x: byte, y: nat)
    requires y < 4
    ensures Byte1(w as int % 4 * 16 + x as int / 16, x as int % 16 * 4 + y) == x
  {
    var v1 := w as int % 4 * 16 + x as int / 16;
    assert v1 % 16 == x as int / 16;
  }

  lemma RecoverByte2(x: byte, y: byte)
    ensures Byte2(x as int % 16 * 4 + y as int / 64, y as int % 64) == y
  {
    var v2 := x as int % 16 * 4 + y as int / 64;
    assert v2 % 4 == y as int / 64;
  }

  /** One trailing byte: two digits and "==". */
  lemma Base64RoundTripOne(x: byte)
    ensures Base64Decode(EncodeOne(x)) == Some([x])
  {
    Base64CharValue(x as int / 4);
    Base64CharValue(x as int % 4 * 16);
    RecoverByte0(x, 0);
  }

  /** Two trailing bytes: three digits and "=". */
  lemma Base64RoundTripTwo(x: byte, y: byte)
    ensures Base64Decode(EncodeTwo(x, y)) == Some([x, y])
  {
    Base64CharValue(x as int / 4);
    Base64CharValue(x as int % 4 * 16 + y as int / 16);
    Base64CharValue(y as int % 16 * 4);
    RecoverByte0(x, y as int / 16);
    RecoverByte1(x, y, 0);
  }

  /** A full group of three bytes: four digits, none of them padding. */
  lemma Base64GroupValues(x: byte, y: byte, z: byte)
    ensures var g := EncodeGroup(x, y, z);
      g[3] != '=' && DecodeGroup(g[0], g[1], g[2], g[3]) == Some([x, y, z])
  {
    Base64CharValue(x as int / 4);
    Base64CharValue(x as int % 4 * 16 + y as int / 16);
    Base64CharValue(y as int % 16 * 4 + z as int / 64);
    Base64CharValue(z as int % 64);
    RecoverByte0(x, y as int / 16);
    RecoverByte1(x, y, z as int / 64);
    RecoverByte2(y, z);
  }

  /** A full leading group without padding decodes on its own. */
  lemma Base64DecodeSplit(g: string, rest: string, group: seq<byte>, tail: seq<byte>)
    requires |g| == 4 && g[3] != '='
    requires DecodeGroup(g[0], g[1], g[2], g[3]) == Some(group)
    requires Base64Decode(rest) == Some(tail)
    ensures Base64Decode(g + rest) == Some(group + tail)
  {
    var s := g + rest;
    assert s[..4] == g && s[4..] == rest;
  }

  lemma Base64RoundTripShort(b: seq<byte>)
    requires 1 <= |b| <= 2
    ensures Base64Decode(Base64Encode(b)) == Some(b)
  {
    if |b| == 1 {
      Base64RoundTripOne(b[0]);
      assert b == [b[0]];
    } else {
      Base64RoundTripTwo(b[0], b[1]);
      assert b == [b[0], b[1]];
    }
  }

  /** A full group is encoded in front of the rest. */
  lemma Base64EncodeFront(b: seq<byte>)
    requires |b| >= 3
    ensures Base64Encode(b) == EncodeGroup(b[0], b[1], b[2]) + Base64Encode(b[3..])
  {
  }

  /** The inductive step: a full group in front of a tail that round-trips. */
  lemma Base64RoundTripGroup(b: seq<byte>)
    requires |b| >= 3
    requires Base64Decode(Base64Encode(b[3..])) == Some(b[3..])
    ensures Base64Decode(Base64Encode(b)) == Some(b)
  {
    Base64EncodeFront(b);
    Base64RoundTripFront(b[0], b[1], b[2], b[3..], Base64Encode(b[3..]));
    SplitThree(b);
  }

  lemma SplitThree(b: seq<byte>)
    requires |b| >= 3
    ensures [b[0], b[1], b[2]] + b[3..] == b
  {
    assert ([b[0], b[1], b[2]] + b[3..])[..3] == b[..3];
  }

  lemma Base64RoundTripFront(x: byte, y: byte, z: byte, tail: seq<byte>, rest: string)
    requires Base64Decode(rest) == Some(tail)
    ensures Base64Decode(EncodeGroup(x, y, z) + rest) == Some([x, y, z] + tail)
  {
    Base64GroupValues(x, y, z);
    Base64DecodeSplit(EncodeGroup(x, y, z), rest, [x, y, z], tail);
  }

  lemma {:induction false} Base64RoundTrip(b: seq<byte>)
    ensures Base64Decode(Base64Encode(b)) == Some(b)
    decreases |b|
  {
    if 1 <= |b| <= 2 {
      Base64RoundTripShort(b);
    } else if |b| >= 3 {
      Base64RoundTrip(b[3..]);
      Base64RoundTripGroup(b);
    }
  }

  /** Four characters for every three bytes or part of three. */
  lemma {:induction false} Base64Length(b: seq<byte>)
    ensures |Base64Encode(b)| == 4 * ((|b| + 2) / 3)
    decreases |b|
  {
    if |b| >= 3 {
      Base64Length(b[3..]);
      Base64LengthStep(b);
      GroupCountStep(|b| - 3);
    }
  }

  /** A full group puts four characters in front of the rest. */
  lemma Base64LengthStep(b: seq<byte>)
    requires |b| >= 3
    ensures |Base64Encode(b)| == 4 + |Base64Encode(b[3..])|
  {
    assert Base64Encode(b) == EncodeGroup(b[0], b[1], b[2]) + Base64Encode(b[3..]);
  }

  lemma GroupCountStep(n: nat)
    ensures (n + 3 + 2) / 3 == (n + 2) / 3 + 1
  {
  }
}
