/** Base64 text of a key: common/armor.c. */
module Armor {
  import opened Basics
  import opened Bytes

  type sextet = x: int | 0 <= x < 64

  /** pem_key[c] */
  function EncodeBits(c: sextet): char {
    if c < 26 then ('A' as int + c) as char
    else if c < 52 then ('a' as int + (c - 26)) as char
    else if c < 62 then ('0' as int + (c - 52)) as char
    else if c == 62 then '+'
    else '/'
  }

  /** The value of a character; None stands for -EINVAL.  Padding counts as 0. */
  function DecodeBits(c: char): Option<sextet> {
    if 'A' <= c <= 'Z' then Some(c as int - 'A' as int)
    else if 'a' <= c <= 'z' then Some(c as int - 'a' as int + 26)
    else if '0' <= c <= '9' then Some(c as int - '0' as int + 52)
    else if c == '+' || c == '-' then Some(62)
    else if c == '/' || c == '_' then Some(63)
    else if c == '=' then Some(0)
    else None
  }

  /** The four characters of three bytes. */
  function Quad(a: byte, b: byte, c: byte): string {
    [EncodeBits(a / 4), EncodeBits(a % 4 * 16 + b / 16), EncodeBits(b % 16 * 4 + c / 64), EncodeBits(c % 64)]
  }

  /** The padded ends. */
  function OneByte(a: byte): string {
    [EncodeBits(a / 4), EncodeBits(a % 4 * 16), '=', '=']
  }

  function TwoBytes(a: byte, b: byte): string {
    [EncodeBits(a / 4), EncodeBits(a % 4 * 16 + b / 16), EncodeBits(b % 16 * 4), '=']
  }

  function Armored(src: seq<byte>): string {
    if |src| == 0 then ""
    else if |src| == 1 then OneByte(src[0])
    else if |src| == 2 then TwoBytes(src[0], src[1])
    else Quad(src[0], src[1], src[2]) + Armored(src[3..])
  }

  function Unarmored(src: string): Option<seq<byte>> {
    if src == "" then Some([])
    else if src[0] == '\n' then Unarmored(src[1..])
    else if |src| < 4 then None
    else
      match (DecodeBits(src[0]), DecodeBits(src[1]), DecodeBits(src[2]), DecodeBits(src[3]))
      case (Some(a), Some(b), Some(c), Some(d)) =>
        var x: byte := a * 4 + b / 16;
        var y: byte := b % 16 * 16 + c / 4;
        var z: byte := c % 4 * 64 + d;
        if src[2] == '=' then Some([x])
        else if src[3] == '=' then Some([x, y])
        else
          (match Unarmored(src[4..])
           case Some(rest) => Some([x, y, z] + rest)
           case None => None)
      case _ => None
  }

  predicate Base64Char(c: char) {
    'A' <= c <= 'Z' || 'a' <= c <= 'z' || '0' <= c <= '9' || c == '+' || c == '/' || c == '='
  }

  lemma BitsRoundTrip(c: sextet)
    ensures DecodeBits(EncodeBits(c)) == Some(c) && EncodeBits(c) != '=' && Base64Char(EncodeBits(c))
  {
  }

  lemma BytesFromBits(a: byte, b: byte, c: byte)
    ensures a / 4 * 4 + (a % 4 * 16 + b / 16) / 16 == a
    ensures (a % 4 * 16 + b / 16) % 16 * 16 + (b % 16 * 4 + c / 64) / 4 == b
    ensures (b % 16 * 4 + c / 64) % 4 * 64 + c % 64 == c
  {
  }

  /** Four characters and what follows them. */
  lemma UnarmorFour(s: string, a: sextet, b: sextet, c: sextet, d: sextet, tail: string)
    requires |s| == 4 && s[0] != '\n'
    requires DecodeBits(s[0]) == Some(a) && DecodeBits(s[1]) == Some(b)
    requires DecodeBits(s[2]) == Some(c) && DecodeBits(s[3]) == Some(d)
    ensures Unarmored(s + tail)
         == var x: byte := a * 4 + b / 16; var y: byte := b % 16 * 16 + c / 4; var z: byte := c % 4 * 64 + d;
            if s[2] == '=' then Some([x]) else if s[3] == '=' then Some([x, y])
            else match Unarmored(tail) case Some(rest) => Some([x, y, z] + rest) case None => None
  {
    assert (s + tail)[4..] == tail;
  }

  lemma QuadDecodes(a: byte, b: byte, c: byte, tail: string)
    ensures |Quad(a, b, c)| == 4 && Quad(a, b, c)[0] != '\n'
    ensures Quad(a, b, c)[2] != '=' && Quad(a, b, c)[3] != '='
    ensures Unarmored(Quad(a, b, c) + tail)
         == match Unarmored(tail) case Some(rest) => Some([a, b, c] + rest) case None => None
    ensures forall x | x in Quad(a, b, c) :: Base64Char(x)
  {
    BitsRoundTrip(a / 4);
    BitsRoundTrip(a % 4 * 16 + b / 16);
    BitsRoundTrip(b % 16 * 4 + c / 64);
    BitsRoundTrip(c % 64);
    BytesFromBits(a, b, c);
    UnarmorFour(Quad(a, b, c), a / 4, a % 4 * 16 + b / 16, b % 16 * 4 + c / 64, c % 64, tail);
  }

  lemma OneFromBits(a: byte, p: sextet, q: sextet)
    requires p == a / 4 && q == a % 4 * 16
    ensures p * 4 + q / 16 == a
  {
  }

  lemma OneByteUnarmored(s: string, p: sextet, q: sextet)
    requires s == [EncodeBits(p), EncodeBits(q), '=', '=']
    ensures p * 4 + q / 16 < 256 && Unarmored(s) == Some([p * 4 + q / 16])
    ensures forall x | x in s :: Base64Char(x)
  {
    hide Unarmored, EncodeBits;
    BitsRoundTrip(p);
    BitsRoundTrip(q);
    UnarmorFour(s, p, q, 0, 0, "");
    assert s + "" == s;
  }

  lemma OneByteDecodes(src: seq<byte>)
    requires |src| == 1
    ensures Unarmored(Armored(src)) == Some(src)
    ensures forall x | x in Armored(src) :: Base64Char(x)
  {
    hide Unarmored, EncodeBits, DecodeBits, Base64Char;
    var a := src[0];
    var p: sextet, q: sextet := a / 4, a % 4 * 16;
    OneFromBits(a, p, q);
    OneByteUnarmored(OneByte(a), p, q);
    assert src == [a];
  }

  lemma TwoFromBits(a: byte, b: byte, p: sextet, q: sextet, r: sextet)
    requires p == a / 4 && q == a % 4 * 16 + b / 16 && r == b % 16 * 4
    ensures p * 4 + q / 16 == a && q % 16 * 16 + r / 4 == b
  {
  }

  lemma TwoBytesUnarmored(s: string, p: sextet, q: sextet, r: sextet)
    requires s == [EncodeBits(p), EncodeBits(q), EncodeBits(r), '=']
    ensures p * 4 + q / 16 < 256 && q % 16 * 16 + r / 4 < 256
    ensures Unarmored(s) == Some([p * 4 + q / 16, q % 16 * 16 + r / 4])
    ensures forall x | x in s :: Base64Char(x)
  {
    hide Unarmored, EncodeBits;
    BitsRoundTrip(p);
    BitsRoundTrip(q);
    BitsRoundTrip(r);
    UnarmorFour(s, p, q, r, 0, "");
    assert s + "" == s;
  }

  lemma TwoBytesDecode(src: seq<byte>)
    requires |src| == 2
    ensures Unarmored(Armored(src)) == Some(src)
    ensures forall x | x in Armored(src) :: Base64Char(x)
  {
    hide Unarmored, EncodeBits, DecodeBits, Base64Char;
    var a, b := src[0], src[1];
    var p: sextet, q: sextet, r: sextet := a / 4, a % 4 * 16 + b / 16, b % 16 * 4;
    TwoFromBits(a, b, p, q, r);
    TwoBytesUnarmored(TwoBytes(a, b), p, q, r);
    assert src == [a, b];
  }

  /** Decoding inverts encoding, through the padding of both odd lengths, and
      the text uses the base64 alphabet only. */
  lemma {:induction false} ArmorRoundTrip(src: seq<byte>)
    ensures Unarmored(Armored(src)) == Some(src)
    ensures forall c | c in Armored(src) :: Base64Char(c)
  {
    hide Quad, EncodeBits, DecodeBits, Base64Char;
    if |src| == 1 {
      OneByteDecodes(src);
    } else if |src| == 2 {
      TwoBytesDecode(src);
    } else if |src| > 2 {
      ArmorRoundTrip(src[3..]);
      QuadDecodes(src[0], src[1], src[2], Armored(src[3..]));
      assert src == [src[0], src[1], src[2]] + src[3..];
    }
  }
}
