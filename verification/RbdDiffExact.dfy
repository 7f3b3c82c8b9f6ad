/** Which streams import-diff accepts, and how it refuses every other one. */
module RbdDiffExact {
  import opened Basics
  import opened Bytes
  import opened Ordered
  import opened RbdDiff
  import opened RbdDiffRoundTrip
  import opened RbdImage

  // ----- the layout of a record -----

  /** The bytes of a record on the wire: a letter, and then little-endian numbers and
      raw bytes. */
  lemma WireLayout(r: Record)
    ensures match r
            case FromSnap(name) => Wire(r) == ['f' as int] + Encode(|name|, 4) + name
            case ToSnap(name) => Wire(r) == ['t' as int] + Encode(|name|, 4) + name
            case Size(size) => Wire(r) == ['s' as int] + Encode(size, 8)
            case Data(ofs, bytes) => Wire(r) == ['w' as int] + Encode(ofs, 8) + Encode(|bytes|, 8) + bytes
            case Zero(ofs, len) => Wire(r) == ['z' as int] + Encode(ofs, 8) + Encode(len, 8)
            case End => Wire(r) == ['e' as int]
  {
    hide Encode;
    match r {
      case FromSnap(name) => Assoc(['f' as int], Encode(|name|, 4), name);
      case ToSnap(name) => Assoc(['t' as int], Encode(|name|, 4), name);
      case Data(ofs, bytes) => Assoc(['w' as int], Encode(ofs, 8) + Encode(|bytes|, 8), bytes);
      case _ =>
    }
  }

  // ----- the layout of a stream -----

  /** A letter, the length in four bytes, and the name. */
  function NamePart(letter: char, name: Option<Name>): seq<byte>
    requires letter as int < 128
  {
    if name.None? then [] else [letter as int] + Encode(|name.value|, 4) + name.value
  }

  /** 'w' or 'z', the offset and the length in eight bytes each, and after 'w' the bytes
      of the image. */
  function ExtentPart(data: seq<byte>, e: Extent): seq<byte>
    requires e.ofs + e.len <= |data|
  {
    [if e.present then 'w' as int else 'z' as int] + Encode(e.ofs, 8) + Encode(e.len, 8)
    + if e.present then data[e.ofs..e.ofs + e.len] else []
  }

  function ExtentParts(data: seq<byte>, extents: seq<Extent>): seq<byte>
    requires forall e | e in extents :: e.ofs + e.len <= |data|
  {
    if extents == [] then [] else ExtentPart(data, extents[0]) + ExtentParts(data, extents[1..])
  }

  lemma NameLayout(letter: byte, name: Option<Name>)
    ensures NameBytes(letter, name)
         == if name.None? then [] else [letter] + Encode(|name.value|, 4) + name.value
  {
    hide Encode;
    if name.Some? {
      Assoc([letter], Encode(|name.value|, 4), name.value);
    }
  }

  lemma ExtentLayout(data: seq<byte>, e: Extent)
    requires e.ofs + e.len <= |data|
    ensures Encoded([ExtentRecord(data, e)]) == ExtentPart(data, e)
  {
    hide Encode, Encoded, ExtentRecord;
    ExtentEncoded(data, e);
    var tag, ofs, len := [if e.present then 'w' as int else 'z' as int], Encode(e.ofs, 8), Encode(e.len, 8);
    Assoc(tag, ofs, len);
    if e.present {
      assert ReadBack(data, e.ofs, e.len) == data[e.ofs..e.ofs + e.len];
    }
  }

  lemma {:induction false} ExtentsLayout(data: seq<byte>, extents: seq<Extent>)
    requires forall e | e in extents :: e.ofs + e.len <= |data|
    ensures Encoded(ExtentRecords(data, extents)) == ExtentParts(data, extents)
  {
    hide Encoded, ExtentRecord, ExtentPart;
    var rs := ExtentRecords(data, extents);
    if extents == [] {
      NothingEncoded();
      assert rs == [];
    } else {
      assert extents[0] in extents;
      assert rs == [ExtentRecord(data, extents[0])] + ExtentRecords(data, extents[1..]);
      EncodedAppend([ExtentRecord(data, extents[0])], ExtentRecords(data, extents[1..]));
      ExtentLayout(data, extents[0]);
      ExtentsLayout(data, extents[1..]);
    }
  }

  /** What export-diff writes, byte by byte: the banner, the start snapshot, the end
      snapshot, the size, the extents in their order, and the end. */
  lemma StreamLayout(data: seq<byte>, from: Option<Name>, to: Option<Name>, extents: seq<Extent>)
    requires forall e | e in extents :: e.ofs + e.len <= |data|
    ensures Encoded(Records(data, from, to, extents))
         == NamePart('f', from) + NamePart('t', to) + (['s' as int] + Encode(|data|, 8))
            + ExtentParts(data, extents) + ['e' as int]
  {
    hide Encode, Encoded, HeaderRecords, ExtentRecords, ExtentParts, NameBytes, NamePart;
    EncodedAppend(HeaderRecords(|data|, from, to) + ExtentRecords(data, extents), [End]);
    EncodedAppend(HeaderRecords(|data|, from, to), ExtentRecords(data, extents));
    HeaderEncoded(|data|, from, to);
    PartsOf(from, to);
    ExtentsLayout(data, extents);
    EncodedOne(End);
    NothingMore();
  }

  lemma PartsOf(from: Option<Name>, to: Option<Name>)
    ensures NameBytes('f' as int, from) == NamePart('f', from) && NameBytes('t' as int, to) == NamePart('t', to)
  {
    hide Encode, NameBytes;
    NameLayout('f' as int, from);
    NameLayout('t' as int, to);
  }

  lemma NothingMore()
    ensures ['e' as int] + Payload(End) == ['e' as int]
  {
  }

  // ----- one record -----

  lemma ReadStringExact(s: seq<byte>)
    requires ReadString(s).Got?
    ensures var name := ReadString(s).value;
            |name| <= MAX_SNAP_NAME && s == Encode(|name|, 4) + name + ReadString(s).rest
  {
    EncodeDecode(s[..4]);
  }

  lemma ReadNumbers(b: seq<byte>)
    requires |b| >= 16
    ensures b[..16] == Encode(Decode(b[..8]), 8) + Encode(Decode(b[8..16]), 8)
    ensures Decode(b[..8]) < U64 && Decode(b[8..16]) < U64
  {
    EncodeDecode(b[..8]);
    EncodeDecode(b[8..16]);
    DecodeBound(b[..8]);
    DecodeBound(b[8..16]);
    Powers();
  }

  lemma ReadSizeExact(b: seq<byte>)
    requires |b| >= 8
    ensures b == Encode(Decode(b[..8]), 8) + b[8..] && Decode(b[..8]) < U64
  {
    EncodeDecode(b[..8]);
    DecodeBound(b[..8]);
    Powers();
  }

  lemma ReadNameSound(s: seq<byte>)
    requires ReadRecord(s).Got? && (ReadRecord(s).value.FromSnap? || ReadRecord(s).value.ToSnap?)
    ensures Transmittable(ReadRecord(s).value) && s == Wire(ReadRecord(s).value) + ReadRecord(s).rest
  {
    hide Encode, Decode, ReadString;
    ReadStringExact(s[1..]);
    assert s == [s[0]] + s[1..];
  }

  /** The parts of a record of an extent, put together again. */
  lemma PutTogether(s: seq<byte>, head: seq<byte>, bytes: seq<byte>, rest: seq<byte>)
    requires |s| >= 17 && s[1..][..16] == head && s[1..][16..] == bytes + rest
    ensures s == [s[0]] + head + bytes + rest
  {
    var b := s[1..];
    assert s == [s[0]] + b && b == b[..16] + b[16..];
  }

  lemma ReadDataSound(s: seq<byte>)
    requires ReadRecord(s).Got? && ReadRecord(s).value.Data?
    ensures Transmittable(ReadRecord(s).value) && s == Wire(ReadRecord(s).value) + ReadRecord(s).rest
  {
    hide Encode, Decode, ReadString, Wire;
    var b, r := s[1..], ReadRecord(s).value;
    ReadNumbers(b);
    assert b[16..] == r.bytes + ReadRecord(s).rest;
    PutTogether(s, b[..16], r.bytes, ReadRecord(s).rest);
    WireLayout(r);
    Assoc([s[0]], Encode(r.ofs, 8), Encode(|r.bytes|, 8));
  }

  lemma ReadZeroSound(s: seq<byte>)
    requires ReadRecord(s).Got? && ReadRecord(s).value.Zero?
    ensures Transmittable(ReadRecord(s).value) && s == Wire(ReadRecord(s).value) + ReadRecord(s).rest
  {
    hide Encode, Decode, ReadString, Wire;
    var b, r := s[1..], ReadRecord(s).value;
    ReadNumbers(b);
    assert b[16..] == [] + ReadRecord(s).rest;
    PutTogether(s, b[..16], [], ReadRecord(s).rest);
    WireLayout(r);
    Assoc([s[0]], Encode(r.ofs, 8), Encode(r.len, 8));
    assert [s[0]] + b[..16] + [] == [s[0]] + b[..16];
  }

  lemma ReadRecordSound(s: seq<byte>)
    requires ReadRecord(s).Got?
    ensures Transmittable(ReadRecord(s).value) && s == Wire(ReadRecord(s).value) + ReadRecord(s).rest
  {
    hide Encode, Decode, ReadString;
    match ReadRecord(s).value {
      case FromSnap(_) => ReadNameSound(s);
      case ToSnap(_) => ReadNameSound(s);
      case Size(_) =>
        ReadSizeExact(s[1..]);
        assert s == [s[0]] + s[1..];
      case Data(_, _) => ReadDataSound(s);
      case Zero(_, _) => ReadZeroSound(s);
      case End => assert s == [s[0]] + s[1..];
    }
  }

  /** The reader takes a record exactly when it stands in front. */
  lemma ReadRecordExact(s: seq<byte>, r: Record, rest: seq<byte>)
    ensures ReadRecord(s) == Got(r, rest) <==> Transmittable(r) && s == Wire(r) + rest
  {
    hide ReadRecord, Wire, Transmittable;
    if ReadRecord(s) == Got(r, rest) {
      ReadRecordSound(s);
    }
    if Transmittable(r) && s == Wire(r) + rest {
      ReadRecordWire(r, rest);
    }
  }

  /** The letters of the records. */
  predicate IsTag(c: byte) {
    c == 'f' as int || c == 't' as int || c == 's' as int || c == 'w' as int || c == 'z' as int || c == 'e' as int
  }

  /** A name that is announced to be longer than 4096 bytes. */
  predicate AnnouncesLongName(s: seq<byte>) {
    |s| >= 5 && (s[0] == 'f' as int || s[0] == 't' as int)
    && s[1] as int + 256 * (s[2] as int) + 0x1_0000 * (s[3] as int) + 0x100_0000 * (s[4] as int) > 4096
  }

  lemma DecodeFour(b: seq<byte>)
    requires |b| >= 4
    ensures Decode(b[..4])
         == b[0] as int + 256 * (b[1] as int) + 0x1_0000 * (b[2] as int) + 0x100_0000 * (b[3] as int)
  {
    var s := b[..4];
    assert s[1..] == b[1..4] && s[1..][1..] == b[2..4] && s[1..][1..][1..] == b[3..4] && b[3..4][1..] == [];
    assert b[2..4][1..] == b[3..4] && b[1..4][1..] == b[2..4];
    assert Decode([]) == 0 && Decode(b[3..4]) == b[3];
    assert Decode(b[2..4]) == b[2] as int + 256 * (b[3] as int);
  }

  /** Nothing else is a record: an unknown letter and a name that is too long are
      EINVAL, and otherwise the stream is at its end. */
  lemma ReadRecordRefuses(s: seq<byte>)
    requires ReadRecord(s).Failed?
    ensures ReadRecord(s).errno == if s != [] && (!IsTag(s[0]) || AnnouncesLongName(s)) then 22 else 33
  {
    hide Decode;
    if |s| >= 5 {
      DecodeFour(s[1..]);
    }
  }

  // ----- whole streams -----

  /** The effect of some records, up to the first that fails. */
  function After(t: Target, rs: seq<Record>): (Target, Option<nat>)
    decreases |rs|
  {
    if rs == [] then (t, None)
    else
      var (u, f) := Applied(t, rs[0]);
      if f.Some? then (u, f) else After(u, rs[1..])
  }

  /** Records that fit the wire, and no end among them. */
  predicate Body(rs: seq<Record>) {
    forall k | 0 <= k < |rs| :: Transmittable(rs[k]) && !rs[k].End?
  }

  lemma {:induction false} ImportBody(rs: seq<Record>, rest: seq<byte>, t: Target)
    requires Body(rs)
    ensures ImportRecords(Encoded(rs) + rest, t)
         == var (u, f) := After(t, rs); if f.Some? then (u, f) else ImportRecords(rest, u)
    decreases |rs|
  {
    hide ImportRecords, Applied, Wire, Transmittable;
    if rs == [] {
      NothingEncoded();
      assert [] + rest == rest;
    } else {
      var r, more := rs[0], Encoded(rs[1..]) + rest;
      EncodedFirst(rs);
      Assoc(Wire(r), Encoded(rs[1..]), rest);
      ImportStep(r, more, t);
      ImportBody(rs[1..], rest, Applied(t, r).0);
    }
  }

  lemma NothingEncoded()
    ensures Encoded([]) == []
  {
  }

  lemma EncodedFirst(rs: seq<Record>)
    requires rs != []
    ensures Encoded(rs) == Wire(rs[0]) + Encoded(rs[1..])
  {
  }

  lemma {:induction false} AfterKeepsSnaps(t: Target, rs: seq<Record>)
    ensures After(t, rs).0.snaps == t.snaps
    decreases |rs|
  {
    if rs != [] {
      SnapsStay(t, rs[0]);
      AfterKeepsSnaps(Applied(t, rs[0]).0, rs[1..]);
    }
  }

  /** What does not start with the banner is refused, and changes nothing. */
  lemma BannerNeeded(s: seq<byte>, t: Target)
    requires !(Ascii("rbd diff v1\n") <= s)
    ensures Import(s, t) == (t, Some(if |s| < 12 then 33 else 22))
  {
    assert |s| >= 12 && s[..12] == Ascii("rbd diff v1\n") ==> Ascii("rbd diff v1\n") <= s;
  }

  /** A byte that is no letter of a record is refused behind any records, and no
      snapshot is made. */
  lemma UnknownTagRefused(rs: seq<Record>, c: byte, rest: seq<byte>, t: Target)
    requires Body(rs) && !IsTag(c)
    ensures var (u, f) := Import(BANNER + (Encoded(rs) + ([c] + rest)), t);
            && f == (if After(t, rs).1.Some? then After(t, rs).1 else Some(22))
            && u == After(t, rs).0 && u.snaps == t.snaps
  {
    hide After, Encoded, IsTag;
    ImportStream(Encoded(rs) + ([c] + rest), t);
    ImportBody(rs, [c] + rest, t);
    AfterKeepsSnaps(t, rs);
    NoRecord(c, rest, After(t, rs).0);
  }

  lemma NoRecord(c: byte, rest: seq<byte>, t: Target)
    requires !IsTag(c)
    ensures ImportRecords([c] + rest, t) == (t, Some(22))
  {
    ReadRecordRefusesTag(c, rest);
  }

  lemma ReadRecordRefusesTag(c: byte, rest: seq<byte>)
    requires !IsTag(c)
    ensures ReadRecord([c] + rest) == Failed(22)
  {
  }

  /** The end snapshot is new, or there is none. */
  predicate EndFree(t: Target) {
    t.to == [] || CName(t.to) !in t.snaps
  }

  /** The stream consists of the banner, these records, the end, and what is not read. */
  ghost predicate Consists(s: seq<byte>, rs: seq<Record>, rest: seq<byte>) {
    Body(rs) && s == BANNER + (Encoded(rs) + (['e' as int] + rest))
  }

  lemma {:induction false} AcceptedParses(s: seq<byte>, t: Target) returns (rs: seq<Record>, rest: seq<byte>)
    requires ImportRecords(s, t).1.None?
    ensures Body(rs) && s == Encoded(rs) + (['e' as int] + rest)
    ensures After(t, rs).1.None? && EndFree(After(t, rs).0) && ImportRecords(s, t) == Finished(After(t, rs).0)
    decreases |s|
  {
    hide Wire, Transmittable, Applied, CName;
    var r := ReadRecord(s).value;
    ReadRecordSound(s);
    if r.End? {
      WireLayout(End);
      NothingEncoded();
      rs, rest := [], ReadRecord(s).rest;
      assert [] + (['e' as int] + rest) == ['e' as int] + rest;
    } else {
      var more;
      ReadRecordShrinks(s);
      more, rest := AcceptedParses(ReadRecord(s).rest, Applied(t, r).0);
      rs := [r] + more;
      assert rs[1..] == more;
      EncodedFirst(rs);
      Assoc(Wire(r), Encoded(more), ['e' as int] + rest);
    }
  }

  lemma EndRead(rest: seq<byte>, t: Target)
    ensures ImportRecords(['e' as int] + rest, t) == Finished(t)
  {
    ImportStep(End, rest, t);
  }

  /** The import of any stream over any image succeeds if and only if the stream is
      the banner, records that all succeed one after the other, and the end, and the
      end snapshot is new; then the image is what the records make of it. */
  lemma AcceptedExact(s: seq<byte>, t: Target)
    ensures Import(s, t).1.None?
       <==> exists rs, rest :: Consists(s, rs, rest) && After(t, rs).1.None? && EndFree(After(t, rs).0)
    ensures forall rs, rest | Consists(s, rs, rest) && After(t, rs).1.None? ::
              Import(s, t) == Finished(After(t, rs).0)
  {
    hide After, Encoded, ImportRecords, EndFree;
    forall rs, rest | Consists(s, rs, rest) && After(t, rs).1.None?
      ensures Import(s, t) == Finished(After(t, rs).0)
      ensures Import(s, t).1.None? <==> EndFree(After(t, rs).0)
    {
      ImportStream(Encoded(rs) + (['e' as int] + rest), t);
      ImportBody(rs, ['e' as int] + rest, t);
      EndRead(rest, After(t, rs).0);
      FinishedExact(After(t, rs).0);
    }
    if Import(s, t).1.None? {
      BannerFirst(s, t);
      var rs, rest := AcceptedParses(s[|BANNER|..], t);
      assert Consists(s, rs, rest);
    }
  }

  lemma FinishedExact(t: Target)
    ensures Finished(t).1 == if EndFree(t) then None else Some(17)
    ensures Finished(t).0 == if EndFree(t) && t.to != [] then t.(snaps := t.snaps[CName(t.to) := t.data]) else t
  {
  }

  lemma BannerFirst(s: seq<byte>, t: Target)
    requires Import(s, t).1.None?
    ensures |s| >= |BANNER| && s == BANNER + s[|BANNER|..] && Import(s, t) == ImportRecords(s[|BANNER|..], t)
  {
    hide ImportRecords;
  }

  // ----- what each record does -----

  /** Names are C strings: what follows a zero byte is not looked at. */
  lemma {:induction false} NameCut(name: Name, more: seq<byte>)
    requires 0 !in name
    ensures CName(name + [0] + more) == name
  {
    if name == [] {
      assert [] + [0] + more == [0] + more;
    } else {
      assert (name + [0] + more)[0] == name[0] && (name + [0] + more)[1..] == name[1..] + [0] + more;
      NameCut(name[1..], more);
    }
  }

  /** A start record asks for its snapshot, an end record for a new one; the others
      never fail, and only they change the image, each byte of it as they say. */
  lemma RecordEffect(t: Target, r: Record, i: nat)
    ensures var (u, f) := Applied(t, r);
            && u.snaps == t.snaps
            && f == (match r
                     case FromSnap(name) => if CName(name) in t.snaps then None else Some(22)
                     case ToSnap(name) => if CName(name) in t.snaps then Some(17) else None
                     case _ => None)
            && u.to == (if r.ToSnap? then r.name else t.to)
            && |u.data| == (if r.Size? then r.size else |t.data|)
            && (i < |u.data| ==>
                  u.data[i] == (match r
                                case Size(_) => if i < |t.data| then t.data[i] else 0
                                case Data(ofs, bytes) => if ofs <= i < ofs + |bytes| then bytes[i - ofs] else t.data[i]
                                case Zero(ofs, len) => if ofs <= i < ofs + len then 0 else t.data[i]
                                case _ => t.data[i]))
  {
  }
}
