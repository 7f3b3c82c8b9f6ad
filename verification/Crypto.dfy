/** CryptoKey of auth/Crypto.h: its binary form, and that form as base64 text. */
module Crypto {
  import opened Basics
  import opened Bytes
  import Armor

  type u16 = x: int | 0 <= x < 0x1_0000
  type u32 = x: int | 0 <= x < 0x1_0000_0000

  /** `created` is its two fields, seconds and nanoseconds. */
  datatype CryptoKey = CryptoKey(keyType: u16, sec: u32, nsec: u32, secret: seq<byte>)

  const NO_KEY := CryptoKey(0, 0, 0, [])

  /** The length that encode writes: that of the secret, cut to 16 bits. */
  function LenField(secret: seq<byte>): u16 {
    |secret| % 0x1_0000
  }

  function EncodeKey(k: CryptoKey): seq<byte> {
    Encode(k.keyType, 2) + Encode(k.sec, 4) + Encode(k.nsec, 4) + Encode(LenField(k.secret), 2) + k.secret
  }

  function DecodeU16(s: seq<byte>): u16
    requires |s| == 2
  {
    DecodeBound(s);
    Powers();
    Decode(s)
  }

  function DecodeU32(s: seq<byte>): u32
    requires |s| == 4
  {
    DecodeBound(s);
    Powers();
    Decode(s)
  }

  /** None stands for the exception at the end of the buffer; what follows the
      secret is not looked at. */
  function DecodeKey(s: seq<byte>): Option<CryptoKey> {
    if |s| < 12 then None
    else
      var len := DecodeU16(s[10..12]);
      if |s| - 12 < len then None
      else Some(CryptoKey(DecodeU16(s[..2]), DecodeU32(s[2..6]), DecodeU32(s[6..10]), s[12..12 + len]))
  }

  function KeyText(k: CryptoKey): string {
    Armor.Armored(EncodeKey(k))
  }

  /** decode_base64: None for text that is not base64, or of no key. */
  function KeyFromText(text: string): Option<CryptoKey> {
    match Armor.Unarmored(text)
    case None => None
    case Some(s) => DecodeKey(s)
  }

  lemma Fields(a: seq<byte>, b: seq<byte>, c: seq<byte>, d: seq<byte>, rest: seq<byte>)
    requires |a| == 2 && |b| == 4 && |c| == 4 && |d| == 2
    ensures var s := a + b + c + d + rest;
            s[..2] == a && s[2..6] == b && s[6..10] == c && s[10..12] == d && s[12..] == rest
  {
  }

  /** A key comes back with as much of its secret as its length field admits. */
  lemma DecodeEncodeKey(k: CryptoKey)
    ensures DecodeKey(EncodeKey(k)) == Some(k.(secret := k.secret[..LenField(k.secret)]))
  {
    hide Encode;
    var len := LenField(k.secret);
    Powers();
    DecodeEncode(k.keyType, 2);
    DecodeEncode(k.sec, 4);
    DecodeEncode(k.nsec, 4);
    DecodeEncode(len, 2);
    Fields(Encode(k.keyType, 2), Encode(k.sec, 4), Encode(k.nsec, 4), Encode(len, 2), k.secret);
    var s := EncodeKey(k);
    assert s[12..12 + len] == s[12..][..len];
  }

  /** A key is read back from its text if and only if its secret is shorter than
      64 KiB. */
  lemma KeyTextExact(k: CryptoKey)
    ensures KeyFromText(KeyText(k)) == Some(k) <==> |k.secret| < 0x1_0000
    ensures KeyFromText(KeyText(k)).Some?
  {
    Armor.ArmorRoundTrip(EncodeKey(k));
    DecodeEncodeKey(k);
    LenFieldExact(k.secret);
  }

  lemma LenFieldExact(secret: seq<byte>)
    ensures secret[..LenField(secret)] == secret <==> |secret| < 0x1_0000
  {
    if |secret| < 0x1_0000 {
      assert LenField(secret) == |secret|;
    } else {
      assert |secret[..LenField(secret)]| < |secret|;
    }
  }

  lemma FieldBytes(s: seq<byte>, n: nat)
    requires |s| == n
    ensures Encode(Decode(s), n) == s
  {
    EncodeDecode(s);
  }

  /** Which bytes are a key: those that begin with its form, whatever follows; a secret
      of 64 KiB or more is never read. */
  lemma DecodeKeyExact(s: seq<byte>, k: CryptoKey)
    ensures DecodeKey(s) == Some(k) <==> |k.secret| < 0x1_0000 && EncodeKey(k) <= s
  {
    hide Encode, Decode;
    if |k.secret| < 0x1_0000 && EncodeKey(k) <= s {
      KeyPrefix(s, k);
    }
    if DecodeKey(s) == Some(k) {
      var len := DecodeU16(s[10..12]);
      FieldBytes(s[..2], 2);
      FieldBytes(s[2..6], 4);
      FieldBytes(s[6..10], 4);
      FieldBytes(s[10..12], 2);
      assert s[..12 + len] == s[..2] + s[2..6] + s[6..10] + s[10..12] + s[12..12 + len];
      assert LenField(k.secret) == len;
    }
  }

  lemma KeyPrefix(s: seq<byte>, k: CryptoKey)
    requires |k.secret| < 0x1_0000 && EncodeKey(k) <= s
    ensures DecodeKey(s) == Some(k)
  {
    hide Encode;
    var e := EncodeKey(k);
    DecodeEncodeKey(k);
    LenFieldExact(k.secret);
    assert |e| == 12 + |k.secret|;
    assert s[..2] == e[..2] && s[2..6] == e[2..6] && s[6..10] == e[6..10] && s[10..12] == e[10..12];
    assert s[12..12 + |k.secret|] == e[12..12 + |k.secret|];
  }

  /** All other bytes are too short, for the fields or for the secret that they announce. */
  lemma NoKey(s: seq<byte>)
    ensures DecodeKey(s).None? <==> |s| < 12 || |s| - 12 < s[10] as int + 256 * (s[11] as int)
  {
    if |s| >= 12 {
      var t := s[10..12];
      assert t[0] == s[10] && t[1..][0] == s[11] && t[1..][1..] == [];
      assert Decode(t[1..]) == s[11];
    }
  }
}
