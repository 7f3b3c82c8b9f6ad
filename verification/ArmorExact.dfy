/** Which texts are base64 to ceph_unarmor, and what bytes they stand for. */
module ArmorExact {
  import opened Armor
  import opened Basics
  import opened Bytes

  /** The number of a character, by the codes of ASCII: the alphabet of RFC 4648, table 1,
      with '-' and '_' as in table 2 besides, and '=' as 0; -1 for any other character. */
  function Number(c: char): int {
    var code := c as int;
    if 65 <= code <= 90 then code - 65
    else if 97 <= code <= 122 then code - 71
    else if 48 <= code <= 57 then code + 4
    else if c in "+-" then 62
    else if c in "/_" then 63
    else if c == '=' then 0
    else -1
  }

  lemma NumberExact(c: char)
    ensures -1 <= Number(c) < 64
    ensures DecodeBits(c) == if Number(c) < 0 then None else Some(Number(c))
  {
  }

  /** What is written for a number is read as it, and is of table 1. */
  lemma WrittenNumber(i: sextet)
    ensures Number(EncodeBits(i)) == i && EncodeBits(i) !in "-_="
  {
  }

  // ----- groups of four -----

  predicate Group(s: string, k: nat) {
    4 * k + 4 <= |s| && forall i | 4 * k <= i < 4 * k + 4 :: Number(s[i]) >= 0
  }

  predicate Padded(s: string, k: nat) {
    4 * k + 4 <= |s| && (s[4 * k + 2] == '=' || s[4 * k + 3] == '=')
  }

  /** The reading ends with k groups: there is no more text, or the next group is
      padded. */
  ghost predicate Ends(s: string, k: nat) {
    && (forall j | 0 <= j < k :: Group(s, j) && !Padded(s, j))
    && (|s| == 4 * k || (Group(s, k) && Padded(s, k)))
  }

  /** The 24 bits of a group are those of three bytes, high bits first. */
  predicate Packs(s: string, k: nat, x: byte, y: byte, z: byte)
    requires Group(s, k)
  {
    0x1_0000 * x as int + 0x100 * y as int + z as int
    == 0x4_0000 * Number(s[4 * k]) + 0x1000 * Number(s[4 * k + 1]) + 0x40 * Number(s[4 * k + 2]) + Number(s[4 * k + 3])
  }

  ghost predicate PacksOne(s: string, k: nat, x: byte)
    requires Group(s, k)
  {
    exists y, z :: Packs(s, k, x, y, z)
  }

  ghost predicate PacksTwo(s: string, k: nat, x: byte, y: byte)
    requires Group(s, k)
  {
    exists z :: Packs(s, k, x, y, z)
  }

  /** The bytes of a text whose reading ends with k groups: three for each of them, and
      the first one or two of a padded one. */
  ghost predicate BytesOf(s: string, k: nat, r: seq<byte>)
    requires Ends(s, k)
  {
    && |r| == 3 * k + (if |s| == 4 * k then 0 else if s[4 * k + 2] == '=' then 1 else 2)
    && (forall j | 0 <= j < k :: Group(s, j) && Packs(s, j, r[3 * j], r[3 * j + 1], r[3 * j + 2]))
    && (|r| == 3 * k + 1 ==> PacksOne(s, k, r[3 * k]))
    && (|r| == 3 * k + 2 ==> PacksTwo(s, k, r[3 * k], r[3 * k + 1]))
  }

  lemma Halves(a: int, p: int, q: int, u: int, v: int, d: int)
    ensures 0x1_0000 * (a * 4 + p) + 0x100 * (q * 16 + u) + (v * 64 + d)
         == 0x4_0000 * a + 0x1000 * (16 * p + q) + 0x40 * (4 * u + v) + d
  {
  }

  /** The first group, and what follows it. */
  lemma FirstGroup(s: string) returns (x: byte, y: byte, z: byte)
    requires Group(s, 0) && s[0] != '\n'
    ensures Packs(s, 0, x, y, z)
    ensures Unarmored(s)
         == if s[2] == '=' then Some([x]) else if s[3] == '=' then Some([x, y])
            else match Unarmored(s[4..]) case Some(rest) => Some([x, y, z] + rest) case None => None
  {
    hide Number, DecodeBits;
    NumberExact(s[0]);
    NumberExact(s[1]);
    NumberExact(s[2]);
    NumberExact(s[3]);
    var a, b, c, d := Number(s[0]), Number(s[1]), Number(s[2]), Number(s[3]);
    x, y, z := a * 4 + b / 16, b % 16 * 16 + c / 4, c % 4 * 64 + d;
    Halves(a, b / 16, b % 16, c / 4, c % 4, d);
  }

  lemma NoGroup(s: string)
    requires s != "" && s[0] != '\n' && !Group(s, 0)
    ensures Unarmored(s).None?
  {
    hide Number, DecodeBits;
    if |s| >= 4 {
      NumberExact(s[0]);
      NumberExact(s[1]);
      NumberExact(s[2]);
      NumberExact(s[3]);
    }
  }

  lemma GroupShift(s: string, j: nat)
    requires |s| >= 4
    ensures Group(s, j + 1) <==> Group(s[4..], j)
    ensures Padded(s, j + 1) <==> Padded(s[4..], j)
    ensures 4 * j + 8 <= |s| ==> s[4 * (j + 1) + 2] == s[4..][4 * j + 2]
    ensures Group(s, j + 1) ==>
              forall x: byte, y: byte, z: byte :: Packs(s, j + 1, x, y, z) <==> Packs(s[4..], j, x, y, z)
  {
    hide Number;
    var rest := s[4..];
    assert forall i | 0 <= i < |rest| :: rest[i] == s[i + 4];
    if Group(rest, j) {
      forall i | 4 * j + 4 <= i < 4 * j + 8 ensures Number(s[i]) >= 0 {
        assert rest[i - 4] == s[i];
      }
    }
  }

  lemma EndsShift(s: string, k: nat)
    requires Group(s, 0) && !Padded(s, 0)
    ensures Ends(s, k + 1) <==> Ends(s[4..], k)
  {
    hide Group, Padded, Packs;
    GroupLong(s);
    var rest := s[4..];
    GroupShift(s, k);
    if Ends(s, k + 1) {
      forall j | 0 <= j < k ensures Group(rest, j) && !Padded(rest, j) {
        GroupShift(s, j);
        assert Group(s, j + 1);
      }
    }
    if Ends(rest, k) {
      forall j | 0 <= j < k + 1 ensures Group(s, j) && !Padded(s, j) {
        if j > 0 {
          GroupShift(s, j - 1);
        }
      }
    }
  }

  lemma BytesShift(s: string, k: nat, x: byte, y: byte, z: byte, r: seq<byte>)
    requires Group(s, 0) && !Padded(s, 0) && Packs(s, 0, x, y, z)
    requires Ends(s[4..], k) && Ends(s, k + 1) && BytesOf(s[4..], k, r)
    ensures BytesOf(s, k + 1, [x, y, z] + r)
  {
    hide Group, Padded, Packs, PacksOne, PacksTwo;
    GroupLong(s);
    var rest, all := s[4..], [x, y, z] + r;
    forall j | 0 <= j < k + 1 ensures Group(s, j) && Packs(s, j, all[3 * j], all[3 * j + 1], all[3 * j + 2]) {
      if j > 0 {
        GroupShift(s, j - 1);
      }
    }
    if |s| != 4 * k + 4 {
      GroupShift(s, k);
      PaddedShift(s, k);
    }
  }

  lemma PaddedShift(s: string, k: nat)
    requires |s| >= 4 && Group(s, k + 1) && Group(s[4..], k)
    requires forall x: byte, y: byte, z: byte :: Packs(s, k + 1, x, y, z) <==> Packs(s[4..], k, x, y, z)
    ensures forall x: byte :: PacksOne(s[4..], k, x) ==> PacksOne(s, k + 1, x)
    ensures forall x: byte, y: byte :: PacksTwo(s[4..], k, x, y) ==> PacksTwo(s, k + 1, x, y)
    ensures 4 * k + 8 <= |s|
  {
    hide Packs;
  }

  lemma Shorter(s: string)
    requires '\n' !in s && |s| >= 4
    ensures '\n' !in s[4..] && s[0] != '\n'
  {
    assert s[0] in s;
  }

  /** What is read ends somewhere, and is the bytes up to there. */
  lemma {:induction false} ReadEnds(s: string) returns (k: nat)
    requires '\n' !in s && Unarmored(s).Some?
    ensures Ends(s, k) && BytesOf(s, k, Unarmored(s).value)
    decreases |s|
  {
    hide Group, Padded, Packs, Ends, BytesOf, Unarmored;
    if s == "" {
      k := 0;
      NothingEnds();
    } else {
      assert s[0] in s;
      if !Group(s, 0) {
        NoGroup(s);
      }
      GroupLong(s);
      Shorter(s);
      var x, y, z := FirstGroup(s);
      if Padded(s, 0) {
        k := 0;
        PaddedEnds(s, x, y, z);
      } else {
        PaddedNot(s);
        var l := ReadEnds(s[4..]);
        k := l + 1;
        EndsShift(s, l);
        BytesShift(s, l, x, y, z, Unarmored(s[4..]).value);
      }
    }
  }

  lemma NothingEnds()
    ensures Unarmored("") == Some([]) && Ends("", 0) && BytesOf("", 0, [])
  {
  }

  lemma GroupLong(s: string)
    requires Group(s, 0)
    ensures |s| >= 4
  {
  }

  lemma PaddedNot(s: string)
    requires |s| >= 4 && !Padded(s, 0)
    ensures s[2] != '=' && s[3] != '='
  {
  }

  lemma PaddedFirst(s: string)
    requires Padded(s, 0)
    ensures |s| >= 4 && (s[2] == '=' || s[3] == '=')
  {
  }

  lemma PaddedEnds(s: string, x: byte, y: byte, z: byte)
    requires Group(s, 0) && Padded(s, 0) && Packs(s, 0, x, y, z)
    ensures Ends(s, 0) && BytesOf(s, 0, if s[2] == '=' then [x] else [x, y])
    ensures s[2] == '=' || s[3] == '='
  {
    hide Packs, Number;
  }

  lemma {:induction false} EndsRead(s: string, k: nat)
    requires '\n' !in s && Ends(s, k)
    ensures Unarmored(s).Some?
    decreases |s|
  {
    hide Group, Padded, Packs, Number;
    if s == "" {
      NothingEnds();
    } else {
      assert Group(s, 0);
      GroupLong(s);
      Shorter(s);
      var x, y, z := FirstGroup(s);
      if !Padded(s, 0) {
        PaddedNot(s);
        EndsShift(s, k - 1);
        EndsRead(s[4..], k - 1);
      } else {
        PaddedFirst(s);
      }
    }
  }

  /** A text without newlines is base64 if and only if the groups of four up to its end,
      or up to the first padded one, have characters of the alphabet only; then it
      stands for their bits. */
  lemma UnarmoredExact(s: string)
    requires '\n' !in s
    ensures Unarmored(s).Some? <==> exists k :: Ends(s, k)
    ensures Unarmored(s).Some? ==> exists k :: Ends(s, k) && BytesOf(s, k, Unarmored(s).value)
  {
    hide Ends, BytesOf, Unarmored;
    if k: nat :| Ends(s, k) {
      EndsRead(s, k);
    }
    if Unarmored(s).Some? {
      var k := ReadEnds(s);
    }
  }

  function ByteAt(src: seq<byte>, i: nat): byte {
    if i < |src| then src[i] else 0
  }

  lemma QuarterBits(a: byte, b: byte, c: byte)
    ensures 0x4_0000 * (a / 4) + 0x1000 * (a % 4 * 16 + b / 16) + 0x40 * (b % 16 * 4 + c / 64) + c % 64
         == 0x1_0000 * a as int + 0x100 * b as int + c as int
  {
  }

  lemma FourNumbers(s: string, p: sextet, q: sextet, r: sextet, t: sextet)
    requires |s| >= 4 && Number(s[0]) == p && Number(s[1]) == q && Number(s[2]) == r && Number(s[3]) == t
    ensures Group(s, 0)
    ensures forall x: byte, y: byte, z: byte ::
              Packs(s, 0, x, y, z) <==>
                0x1_0000 * x as int + 0x100 * y as int + z as int == 0x4_0000 * p + 0x1000 * q + 0x40 * r + t
  {
    hide Number;
  }

  /** The first group that is written for some bytes: their bits, and zeros for those that
      are missing. */
  lemma FirstWritten(src: seq<byte>)
    requires src != []
    ensures |Armored(src)| >= 4 && Group(Armored(src), 0)
    ensures Packs(Armored(src), 0, ByteAt(src, 0), ByteAt(src, 1), ByteAt(src, 2))
  {
    hide Number, EncodeBits, Group, Packs;
    var a, b, c := ByteAt(src, 0), ByteAt(src, 1), ByteAt(src, 2);
    WrittenNumber(a / 4);
    WrittenNumber(a % 4 * 16 + b / 16);
    WrittenNumber(b % 16 * 4 + c / 64);
    WrittenNumber(c % 64);
    PaddingNumber();
    QuarterBits(a, b, c);
    FourNumbers(Armored(src), a / 4, a % 4 * 16 + b / 16, b % 16 * 4 + c / 64, c % 64);
  }

  lemma PaddingNumber()
    ensures Number('=') == 0
  {
  }

  /** Group k of a written text is bytes 3k to 3k + 2, with zeros for those that are
      missing at the end. */
  lemma {:induction false} ArmoredAt(src: seq<byte>, k: nat)
    requires 3 * k < |src|
    ensures 4 * k + 4 <= |Armored(src)| && Group(Armored(src), k)
    ensures Packs(Armored(src), k, ByteAt(src, 3 * k), ByteAt(src, 3 * k + 1), ByteAt(src, 3 * k + 2))
    decreases k
  {
    hide Number, Group, Packs, Quad;
    if k == 0 {
      FirstWritten(src);
    } else {
      var s := Armored(src);
      QuadLength(src[0], src[1], src[2]);
      assert s[4..] == Armored(src[3..]);
      ArmoredAt(src[3..], k - 1);
      GroupShift(s, k - 1);
    }
  }

  lemma QuadLength(a: byte, b: byte, c: byte)
    ensures |Quad(a, b, c)| == 4
  {
  }

  /** The text ends with n padding characters, has no others, and no variant characters. */
  predicate PaddedBy(s: string, n: nat) {
    && n <= |s| && (forall i | 0 <= i < |s| :: s[i] == '=' <==> i >= |s| - n)
    && '-' !in s && '_' !in s
  }

  /** A written text has a group for every three bytes, and a padding character for each
      that is missing at the end. */
  lemma {:induction false} ArmoredShape(src: seq<byte>)
    ensures |Armored(src)| == (|src| + 2) / 3 * 4
    ensures PaddedBy(Armored(src), if |src| % 3 == 0 then 0 else 3 - |src| % 3)
    decreases |src|
  {
    hide EncodeBits, Quad, PaddedBy, OneByte, TwoBytes;
    if |src| == 0 {
      NothingPadded();
    } else if |src| <= 2 {
      EndsPadded(src[0], if |src| == 2 then src[1] else 0);
    } else {
      QuadPlain(src[0], src[1], src[2]);
      ArmoredShape(src[3..]);
      PaddedBehind(Quad(src[0], src[1], src[2]), Armored(src[3..]), if |src| % 3 == 0 then 0 else 3 - |src| % 3);
    }
  }

  lemma NothingPadded()
    ensures PaddedBy("", 0)
  {
  }

  lemma EndsPadded(a: byte, b: byte)
    ensures |OneByte(a)| == 4 && PaddedBy(OneByte(a), 2)
    ensures |TwoBytes(a, b)| == 4 && PaddedBy(TwoBytes(a, b), 1)
  {
    hide EncodeBits;
    WrittenNumber(a / 4);
    WrittenNumber(a % 4 * 16);
    WrittenNumber(a % 4 * 16 + b / 16);
    WrittenNumber(b % 16 * 4);
  }

  lemma QuadPlain(a: byte, b: byte, c: byte)
    ensures var q := Quad(a, b, c); |q| == 4 && '=' !in q && '-' !in q && '_' !in q
  {
    hide EncodeBits;
    WrittenNumber(a / 4);
    WrittenNumber(a % 4 * 16 + b / 16);
    WrittenNumber(b % 16 * 4 + c / 64);
    WrittenNumber(c % 64);
  }

  lemma PaddedBehind(q: string, s: string, n: nat)
    requires '=' !in q && '-' !in q && '_' !in q && PaddedBy(s, n)
    ensures PaddedBy(q + s, n)
  {
    forall i | 0 <= i < |q + s| ensures (q + s)[i] == '=' <==> i >= |q + s| - n {
      assert i < |q| ==> q[i] in q;
    }
  }

  lemma NewlineSkipped(b: string)
    ensures Unarmored("\n" + b) == Unarmored(b)
  {
    assert ("\n" + b)[1..] == b;
  }

  /** Four characters without padding, in front of what is read of the rest. */
  function InFront(four: string, rest: Option<seq<byte>>): Option<seq<byte>>
    requires |four| == 4
  {
    match (DecodeBits(four[0]), DecodeBits(four[1]), DecodeBits(four[2]), DecodeBits(four[3]))
    case (Some(a), Some(b), Some(c), Some(d)) =>
      var bytes: seq<byte> := [a * 4 + b / 16, b % 16 * 16 + c / 4, c % 4 * 64 + d];
      if rest.Some? then Some(bytes + rest.value) else None
    case _ => None
  }

  lemma FourRead(s: string)
    requires |s| >= 4 && s[0] != '\n' && s[2] != '=' && s[3] != '='
    ensures Unarmored(s) == InFront(s[..4], Unarmored(s[4..]))
  {
    hide DecodeBits;
    var four := s[..4];
    assert four[0] == s[0] && four[1] == s[1] && four[2] == s[2] && four[3] == s[3];
  }

  /** A newline between groups is skipped. */
  lemma {:induction false} NewlineBetween(a: string, b: string)
    requires |a| % 4 == 0 && '\n' !in a && '=' !in a
    ensures Unarmored(a + ("\n" + b)) == Unarmored(a + b)
    decreases |a|
  {
    hide Unarmored, InFront;
    if a == "" {
      assert a + ("\n" + b) == "\n" + b && a + b == b;
      NewlineSkipped(b);
    } else {
      var s, t := a + ("\n" + b), a + b;
      assert a[0] in a && a[2] in a && a[3] in a;
      assert s[..4] == a[..4] == t[..4] && s[4..] == a[4..] + ("\n" + b) && t[4..] == a[4..] + b;
      NewlineBetween(a[4..], b);
      assert s[0] == a[0] == t[0] && s[2] == a[2] == t[2] && s[3] == a[3] == t[3];
      FourRead(s);
      FourRead(t);
    }
  }
}
