/** Bytes, and the little-endian integers of ::encode and ::decode. */
module Bytes {
  import opened Basics

  type byte = x: int | 0 <= x < 256

  function Zeros(n: nat): (r: seq<byte>)
    ensures |r| == n && forall i | 0 <= i < n :: r[i] == 0
  {
    seq(n, i => 0)
  }

  function Pow256(n: nat): (p: nat)
    ensures p > 0
  {
    if n == 0 then 1 else 256 * Pow256(n - 1)
  }

  /** The low n bytes of x, least significant first. */
  function Encode(x: nat, n: nat): (r: seq<byte>)
    ensures |r| == n
  {
    if n == 0 then [] else [x % 256] + Encode(x / 256, n - 1)
  }

  function Decode(s: seq<byte>): nat {
    if s == [] then 0 else s[0] + 256 * Decode(s[1..])
  }

  lemma {:induction false} DecodeEncode(x: nat, n: nat)
    requires x < Pow256(n)
    ensures Decode(Encode(x, n)) == x
  {
    if n > 0 {
      DecodeEncode(x / 256, n - 1);
    }
  }

  lemma {:induction false} EncodeDecode(s: seq<byte>)
    ensures Encode(Decode(s), |s|) == s
  {
    if s != [] {
      hide Encode;
      EncodeDecode(s[1..]);
      FirstByte(s[0], Decode(s[1..]), |s|);
      assert s == [s[0]] + s[1..];
    }
  }

  lemma FirstByte(b: byte, rest: nat, n: nat)
    requires n > 0
    ensures Encode(b + 256 * rest, n) == [b] + Encode(rest, n - 1)
  {
    QuotientOf(256, rest, b);
  }

  /** Byte i is the digit of weight 256 to the i. */
  lemma {:induction false} EncodeAt(x: nat, n: nat, i: nat)
    requires i < n
    ensures Encode(x, n)[i] == x / Pow256(i) % 256
  {
    if i > 0 {
      EncodeAt(x / 256, n - 1, i - 1);
      DivideTwice(x, Pow256(i - 1));
    }
  }

  lemma SplitByte(y: nat, r: nat)
    ensures (256 * y + r) / 256 == y + r / 256
  {
  }

  lemma Regroup(p: nat, q: nat, m: nat)
    requires m == 256 * p
    ensures m * q == 256 * (p * q)
  {
  }

  lemma DivideTwice(x: nat, p: nat)
    requires p > 0
    ensures x / 256 / p == x / (256 * p)
  {
    var m := 256 * p;
    var q, r := Euclid(x, m);
    Regroup(p, q, m);
    var y := p * q;
    SplitByte(y, r);
    Lower(r, p);
    QuotientOf(p, q, r / 256);
  }

  lemma Lower(r: nat, p: nat)
    requires r < 256 * p
    ensures r / 256 < p
  {
  }

  lemma {:induction false} DecodeBound(s: seq<byte>)
    ensures Decode(s) < Pow256(|s|)
  {
    if s != [] {
      DecodeBound(s[1..]);
    }
  }

  lemma Powers()
    ensures Pow256(2) == 0x1_0000 && Pow256(4) == U32 && Pow256(8) == U64
  {
    assert Pow256(2) == 0x1_0000;
    assert Pow256(4) == 0x1_0000 * 0x1_0000 by {
      assert Pow256(3) == 0x100_0000;
    }
    assert Pow256(5) == 0x100_0000_0000;
    assert Pow256(6) == 0x1_0000_0000_0000;
    assert Pow256(7) == 0x100_0000_0000_0000;
  }
}
