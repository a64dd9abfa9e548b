/**
 * Base64 as section 4 of RFC 4648 defines it: every three bytes become four
 * characters of the 64-character alphabet, and a final group of one or two
 * bytes is padded with '='. PHP's base64_encode produces this encoding.
 */
module Base64 {
  import opened Wrappers

  type Byte = b: int | 0 <= b < 256

  /**
   * The bytes of a PHP string. The model holds one character per byte, so a
   * character a PHP string can hold is below 256; the modulo only fixes a
   * byte for characters no PHP string contains.
   */
  function Octets(s: string): (r: seq<Byte>)
    ensures |r| == |s|
  {
    seq(|s|, i requires 0 <= i < |s| => (s[i] as int % 256) as Byte)
  }

  /** The character of the alphabet for a 6-bit value. */
  function Sextet(v: int): (c: char)
    requires 0 <= v < 64
  {
    if v < 26 then ('A' as int + v) as char
    else if v < 52 then ('a' as int + v - 26) as char
    else if v < 62 then ('0' as int + v - 52) as char
    else if v == 62 then '+'
    else '/'
  }

  predicate IsAlphabetChar(c: char)
  {
    ('A' <= c <= 'Z') || ('a' <= c <= 'z') || ('0' <= c <= '9') || c == '+' || c == '/'
  }

  /** The 6-bit value of an alphabet character; None for any other character. */
  function SextetValue(c: char): (r: Option<int>)
    ensures r.Some? ==> 0 <= r.value < 64 && Sextet(r.value) == c
    ensures r.Some? <==> IsAlphabetChar(c)
  {
    if 'A' <= c <= 'Z' then Some(c as int - 'A' as int)
    else if 'a' <= c <= 'z' then Some(c as int - 'a' as int + 26)
    else if '0' <= c <= '9' then Some(c as int - '0' as int + 52)
    else if c == '+' then Some(62)
    else if c == '/' then Some(63)
    else None
  }

  /** Three bytes as four characters. */
  function EncodeGroup(b0: Byte, b1: Byte, b2: Byte): (r: string)
    ensures |r| == 4 && forall i :: 0 <= i < 4 ==> IsAlphabetChar(r[i])
  {
    [Sextet(b0 / 4), Sextet(b0 % 4 * 16 + b1 / 16), Sextet(b1 % 16 * 4 + b2 / 64), Sextet(b2 % 64)]
  }

  /** base64_encode: four characters per three bytes, the last group padded. */
  function Encode(data: seq<Byte>): (r: string)
    ensures |r| == (|data| + 2) / 3 * 4
    ensures forall i :: 0 <= i < |r| ==> IsAlphabetChar(r[i]) || r[i] == '='
    decreases |data|
  {
    if |data| == 0 then ""
    else if |data| == 1 then
      [Sextet(data[0] / 4), Sextet(data[0] % 4 * 16), '=', '=']
    else if |data| == 2 then
      [Sextet(data[0] / 4), Sextet(data[0] % 4 * 16 + data[1] / 16), Sextet(data[1] % 16 * 4), '=']
    else
      EncodeGroup(data[0], data[1], data[2]) + Encode(data[3..])
  }

  /** The bytes a group of sextets stands for. */
  function Byte0(v0: int, v1: int): Byte
    requires 0 <= v0 < 64 && 0 <= v1 < 64
  {
    v0 * 4 + v1 / 16
  }

  function Byte1(v1: int, v2: int): Byte
    requires 0 <= v1 < 64 && 0 <= v2 < 64
  {
    v1 % 16 * 16 + v2 / 4
  }

  function Byte2(v2: int, v3: int): Byte
    requires 0 <= v2 < 64 && 0 <= v3 < 64
  {
    v2 % 4 * 64 + v3
  }

  /** The last group of four characters, with its padding. */
  function DecodeFinal(s: string): Option<seq<Byte>>
    requires |s| == 4
  {
    var v0, v1, v2, v3 := SextetValue(s[0]), SextetValue(s[1]), SextetValue(s[2]), SextetValue(s[3]);
    if v0.None? || v1.None? then None
    else if s[2] == '=' && s[3] == '=' then Some([Byte0(v0.value, v1.value)])
    else if v2.None? then None
    else if s[3] == '=' then Some([Byte0(v0.value, v1.value), Byte1(v1.value, v2.value)])
    else if v3.None? then None
    else Some([Byte0(v0.value, v1.value), Byte1(v1.value, v2.value), Byte2(v2.value, v3.value)])
  }

  /** A group of four characters that is not the last one: no padding allowed. */
  function DecodeFull(s: string): Option<seq<Byte>>
    requires |s| >= 4
  {
    var v0, v1, v2, v3 := SextetValue(s[0]), SextetValue(s[1]), SextetValue(s[2]), SextetValue(s[3]);
    if v0.None? || v1.None? || v2.None? || v3.None? then None
    else Some([Byte0(v0.value, v1.value), Byte1(v1.value, v2.value), Byte2(v2.value, v3.value)])
  }

  /** Reading four characters back into three bytes; a padded group is only accepted at the end. */
  function Decode(s: string): Option<seq<Byte>>
    decreases |s|
  {
    if s == [] then Some([])
    else if |s| < 4 then None
    else if |s| == 4 then DecodeFinal(s)
    else
      match (DecodeFull(s), Decode(s[4..]))
      case (Some(group), Some(rest)) => Some(group + rest)
      case _ => None
  }

  lemma SextetInverse(v: int)
    requires 0 <= v < 64
    ensures SextetValue(Sextet(v)) == Some(v)
  {
  }

  /** Decoding an encoding gives the bytes back (RFC 4648, section 4). */
  lemma {:induction false} DecodeEncode(data: seq<Byte>)
    ensures Decode(Encode(data)) == Some(data)
    decreases |data|
  {
    if |data| == 1 {
      DecodeOne(data);
    } else if |data| == 2 {
      DecodeTwo(data);
    } else if |data| == 3 {
      DecodeExactlyThree(data);
    } else if |data| > 3 {
      DecodeEncode(data[3..]);
      DecodeThree(data[0], data[1], data[2]);
      SplitHead(data);
      assert Encode(data) == EncodeGroup(data[0], data[1], data[2]) + Encode(data[3..]);
      DecodeMore(EncodeGroup(data[0], data[1], data[2]), Encode(data[3..]), [data[0], data[1], data[2]], data[3..]);
    }
  }

  lemma DecodeExactlyThree(data: seq<Byte>)
    requires |data| == 3
    ensures Decode(Encode(data)) == Some(data)
  {
    EncodeExactlyThree(data);
    DecodeThree(data[0], data[1], data[2]);
    assert data == [data[0], data[1], data[2]];
  }

  lemma EncodeExactlyThree(data: seq<Byte>)
    requires |data| == 3
    ensures Encode(data) == EncodeGroup(data[0], data[1], data[2])
  {
    assert Encode(data[3..]) == "";
  }

  /** A full group in front of a decodable rest decodes to its bytes in front of the rest's. */
  lemma DecodeMore(g: string, rest: string, head: seq<Byte>, tail: seq<Byte>)
    requires |g| == 4 && rest != []
    requires DecodeFull(g) == Some(head) && Decode(rest) == Some(tail)
    ensures Decode(g + rest) == Some(head + tail)
  {
    var e := g + rest;
    assert e[..4] == g && e[4..] == rest;
    assert DecodeFull(e) == DecodeFull(g);
  }

  lemma SplitHead(data: seq<Byte>)
    requires |data| >= 3
    ensures data == [data[0], data[1], data[2]] + data[3..]
  {
    assert data[..3] == [data[0], data[1], data[2]];
    assert data == data[..3] + data[3..];
  }

  lemma DecodeOne(data: seq<Byte>)
    requires |data| == 1
    ensures DecodeFinal(Encode(data)) == Some(data)
  {
    var b0 := data[0];
    var e := Encode(data);
    assert e == [Sextet(b0 / 4), Sextet(b0 % 4 * 16), '=', '='];
    SextetInverse(b0 / 4);
    SextetInverse(b0 % 4 * 16);
    assert SextetValue(e[0]) == Some(b0 / 4);
    assert SextetValue(e[1]) == Some(b0 % 4 * 16);
    SplitsOfByte(b0, 0, 0);
    assert Byte0(b0 / 4, b0 % 4 * 16) == b0;
    assert e[2] == '=' && e[3] == '=';
    assert DecodeFinal(e) == Some([Byte0(b0 / 4, b0 % 4 * 16)]);
    assert data == [b0];
  }

  lemma DecodeTwo(data: seq<Byte>)
    requires |data| == 2
    ensures DecodeFinal(Encode(data)) == Some(data)
  {
    var b0, b1 := data[0], data[1];
    var e := Encode(data);
    var v0, v1, v2 := b0 / 4, b0 % 4 * 16 + b1 / 16, b1 % 16 * 4;
    assert e == [Sextet(v0), Sextet(v1), Sextet(v2), '='];
    SextetInverse(v0);
    SextetInverse(v1);
    SextetInverse(v2);
    assert SextetValue(e[0]) == Some(v0);
    assert SextetValue(e[1]) == Some(v1);
    assert SextetValue(e[2]) == Some(v2);
    SplitsOfByte(b0, b1, 0);
    assert Byte0(v0, v1) == b0 && Byte1(v1, v2) == b1;
    assert e[2] != '=' && e[3] == '=';
    assert DecodeFinal(e) == Some([Byte0(v0, v1), Byte1(v1, v2)]);
    assert data == [b0, b1];
  }

  lemma DecodeThree(b0: Byte, b1: Byte, b2: Byte)
    ensures DecodeFull(EncodeGroup(b0, b1, b2)) == Some([b0, b1, b2])
    ensures DecodeFinal(EncodeGroup(b0, b1, b2)) == Some([b0, b1, b2])
  {
    var e := EncodeGroup(b0, b1, b2);
    var v0, v1, v2, v3 := b0 / 4, b0 % 4 * 16 + b1 / 16, b1 % 16 * 4 + b2 / 64, b2 % 64;
    SextetInverse(v0);
    SextetInverse(v1);
    SextetInverse(v2);
    SextetInverse(v3);
    assert SextetValue(e[0]) == Some(v0);
    assert SextetValue(e[1]) == Some(v1);
    assert SextetValue(e[2]) == Some(v2);
    assert SextetValue(e[3]) == Some(v3);
    assert e[2] != '=' && e[3] != '=';
    SplitsOfByte(b0, b1, b2);
    GroupOfSextets(e, v0, v1, v2, v3);
  }

  /** Four unpadded characters with sextet values v0..v3 decode, as a full or a final group, to the bytes they carry. */
  lemma GroupOfSextets(e: string, v0: int, v1: int, v2: int, v3: int)
    requires |e| == 4 && e[2] != '=' && e[3] != '='
    requires 0 <= v0 < 64 && 0 <= v1 < 64 && 0 <= v2 < 64 && 0 <= v3 < 64
    requires SextetValue(e[0]) == Some(v0) && SextetValue(e[1]) == Some(v1)
    requires SextetValue(e[2]) == Some(v2) && SextetValue(e[3]) == Some(v3)
    ensures DecodeFull(e) == Some([Byte0(v0, v1), Byte1(v1, v2), Byte2(v2, v3)])
    ensures DecodeFinal(e) == DecodeFull(e)
  {
  }

  /** The sextets of three bytes put back together give the bytes. */
  lemma SplitsOfByte(b0: Byte, b1: Byte, b2: Byte)
    ensures Byte0(b0 / 4, b0 % 4 * 16 + b1 / 16) == b0
    ensures Byte1(b0 % 4 * 16 + b1 / 16, b1 % 16 * 4 + b2 / 64) == b1
    ensures Byte2(b1 % 16 * 4 + b2 / 64, b2 % 64) == b2
  {
  }
}
