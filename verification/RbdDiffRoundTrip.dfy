/** Importing an exported diff rebuilds the image it was taken from. */
module RbdDiffRoundTrip {
  import opened Basics
  import opened Bytes
  import opened Ordered
  import opened RbdDiff
  import opened RbdImage

  // ----- the reader inverts the writer -----

  /** Numbers fit their fields and names are short enough for the reader. */
  predicate Transmittable(r: Record) {
    match r
    case FromSnap(name) => |name| <= MAX_SNAP_NAME
    case ToSnap(name) => |name| <= MAX_SNAP_NAME
    case Size(size) => size < U64
    case Data(ofs, bytes) => ofs < U64 && |bytes| < U64
    case Zero(ofs, len) => ofs < U64 && len < U64
    case End => true
  }

  function Wire(r: Record): seq<byte> {
    [Tag(r)] + Payload(r)
  }

  lemma ReadStringWire(name: Name, rest: seq<byte>)
    requires |name| <= MAX_SNAP_NAME
    ensures ReadString(Encode(|name|, 4) + name + rest) == Got(name, rest)
  {
    Powers();
    DecodeEncode(|name|, 4);
    var s := Encode(|name|, 4) + name + rest;
    assert s[..4] == Encode(|name|, 4) && s[4..4 + |name|] == name && s[4 + |name|..] == rest;
  }

  lemma ReadSizeWire(size: nat, rest: seq<byte>)
    requires size < U64
    ensures ReadRecord(['s' as int] + (Payload(Size(size)) + rest)) == Got(Size(size), rest)
  {
    Powers();
    DecodeEncode(size, 8);
    var b := Encode(size, 8) + rest;
    assert (['s' as int] + b)[1..] == b;
    assert b[..8] == Encode(size, 8) && b[8..] == rest;
  }

  lemma ReadExtentHead(ofs: nat, len: nat, rest: seq<byte>)
    requires ofs < U64 && len < U64
    ensures var b := Encode(ofs, 8) + Encode(len, 8) + rest;
            Decode(b[..8]) == ofs && Decode(b[8..16]) == len && b[16..] == rest
  {
    Powers();
    DecodeEncode(ofs, 8);
    DecodeEncode(len, 8);
    var b := Encode(ofs, 8) + Encode(len, 8) + rest;
    assert b[..8] == Encode(ofs, 8) && b[8..16] == Encode(len, 8);
  }

  lemma ReadDataWire(ofs: nat, bytes: seq<byte>, rest: seq<byte>)
    requires ofs < U64 && |bytes| < U64
    ensures ReadRecord(['w' as int] + (Payload(Data(ofs, bytes)) + rest)) == Got(Data(ofs, bytes), rest)
  {
    hide Encode, Decode;
    ReadExtentHead(ofs, |bytes|, bytes + rest);
    var b := Payload(Data(ofs, bytes)) + rest;
    assert b == Encode(ofs, 8) + Encode(|bytes|, 8) + (bytes + rest);
    assert (['w' as int] + b)[1..] == b;
    Between(b, bytes, rest);
  }

  lemma Between(b: seq<byte>, bytes: seq<byte>, rest: seq<byte>)
    requires |b| >= 16 && b[16..] == bytes + rest
    ensures b[16..16 + |bytes|] == bytes && b[16 + |bytes|..] == rest
  {
    assert b[16..16 + |bytes|] == b[16..][..|bytes|];
    assert b[16 + |bytes|..] == b[16..][|bytes|..];
  }

  lemma ReadZeroWire(ofs: nat, len: nat, rest: seq<byte>)
    requires ofs < U64 && len < U64
    ensures ReadRecord(['z' as int] + (Payload(Zero(ofs, len)) + rest)) == Got(Zero(ofs, len), rest)
  {
    ReadExtentHead(ofs, len, rest);
    var b := Encode(ofs, 8) + Encode(len, 8) + rest;
    assert (['z' as int] + b)[1..] == b;
  }

  lemma ReadNameWire(tag: byte, name: Name, rest: seq<byte>)
    requires tag == 'f' as int || tag == 't' as int
    requires |name| <= MAX_SNAP_NAME
    ensures ReadRecord([tag] + (Encode(|name|, 4) + name + rest))
         == Got(if tag == 'f' as int then FromSnap(name) else ToSnap(name), rest)
  {
    ReadStringWire(name, rest);
    var b := Encode(|name|, 4) + name + rest;
    assert ([tag] + b)[1..] == b;
  }

  /** One record, whatever follows it. */
  lemma ReadRecordWire(r: Record, rest: seq<byte>)
    requires Transmittable(r)
    ensures ReadRecord(Wire(r) + rest) == Got(r, rest)
  {
    Assoc([Tag(r)], Payload(r), rest);
    match r
    case FromSnap(name) => ReadNameWire('f' as int, name, rest);
    case ToSnap(name) => ReadNameWire('t' as int, name, rest);
    case Size(size) => ReadSizeWire(size, rest);
    case Data(ofs, bytes) => ReadDataWire(ofs, bytes, rest);
    case Zero(ofs, len) => ReadZeroWire(ofs, len, rest);
    case End => assert ([Tag(r)] + (Payload(r) + rest))[1..] == rest;
  }

  /** A record that is cut short is refused, and nothing else happens. */
  lemma CutRecordFails(r: Record, n: nat)
    requires Transmittable(r) && n < |Wire(r)|
    ensures ReadRecord(Wire(r)[..n]) == Failed(EDOM)
  {
    var w := Wire(r);
    var s := w[..n];
    if n > 0 {
      var b := s[1..];
      assert b == Payload(r)[..n - 1];
      match r
      case FromSnap(name) => CutStringFails(name, n - 1);
      case ToSnap(name) => CutStringFails(name, n - 1);
      case Size(_) =>
      case Zero(_, _) =>
      case End =>
      case Data(ofs, bytes) =>
        if n - 1 >= 16 {
          ReadExtentHead(ofs, |bytes|, bytes);
          assert b[8..16] == Payload(r)[8..16];
        }
    }
  }

  lemma CutStringFails(name: Name, n: nat)
    requires |name| <= MAX_SNAP_NAME && n < 4 + |name|
    ensures ReadString((Encode(|name|, 4) + name)[..n]) == Failed(EDOM)
  {
    Powers();
    DecodeEncode(|name|, 4);
    var s := (Encode(|name|, 4) + name)[..n];
    if n >= 4 {
      assert s[..4] == Encode(|name|, 4);
    }
  }

  // ----- the extents -----

  predicate Covers(e: Extent, i: nat) {
    e.ofs <= i < e.ofs + e.len
  }

  predicate Covered(extents: seq<Extent>, i: nat) {
    exists k | 0 <= k < |extents| :: Covers(extents[k], i)
  }

  /** What diff_iterate reports about the image it walks: ranges inside it, and
      "does not exist" only where it reads as zero.  Order and overlap are free. */
  predicate Reported(src: seq<byte>, extents: seq<Extent>) {
    forall k | 0 <= k < |extents| ::
      && extents[k].ofs + extents[k].len <= |src|
      && (!extents[k].present ==> forall i | 0 <= i < |src| && Covers(extents[k], i) :: src[i] == 0)
  }

  /** Every byte in which the two images differ lies in some extent. */
  predicate CoversChanges(base: seq<byte>, src: seq<byte>, extents: seq<Extent>)
    requires |base| == |src|
  {
    forall i | 0 <= i < |src| :: base[i] == src[i] || Covered(extents, i)
  }

  function Painted(data: seq<byte>, src: seq<byte>, extents: seq<Extent>): (r: seq<byte>)
    ensures |r| == |data|
    decreases |extents|
  {
    if extents == [] then data
    else
      var e := extents[0];
      Painted(Written(data, e.ofs, if e.present then ReadBack(src, e.ofs, e.len) else Zeros(e.len)), src, extents[1..])
  }

  lemma {:induction false} PaintedAt(data: seq<byte>, src: seq<byte>, extents: seq<Extent>, i: nat)
    requires |data| == |src| && Reported(src, extents) && i < |src|
    ensures Painted(data, src, extents)[i] == if Covered(extents, i) then src[i] else data[i]
    decreases |extents|
  {
    if extents != [] {
      var e := extents[0];
      var next := Written(data, e.ofs, if e.present then ReadBack(src, e.ofs, e.len) else Zeros(e.len));
      assert next[i] == if Covers(e, i) then src[i] else data[i];
      PaintedAt(next, src, extents[1..], i);
      if k :| 0 <= k < |extents[1..]| && Covers(extents[1..][k], i) {
        assert Covers(extents[k + 1], i);
      }
      if k :| 0 <= k < |extents| && Covers(extents[k], i) {
        assert k > 0 ==> Covers(extents[1..][k - 1], i);
      }
    }
  }

  /** Painting the extents of src over a base gives src if and only if they cover
      the differences. */
  lemma PaintedExact(base: seq<byte>, src: seq<byte>, extents: seq<Extent>)
    requires |base| == |src| && Reported(src, extents)
    ensures Painted(base, src, extents) == src <==> CoversChanges(base, src, extents)
  {
    forall i | 0 <= i < |src|
      ensures Painted(base, src, extents)[i] == if Covered(extents, i) then src[i] else base[i]
    {
      PaintedAt(base, src, extents, i);
    }
  }

  lemma ImportStep(r: Record, rest: seq<byte>, t: Target)
    requires Transmittable(r)
    ensures ImportRecords(Wire(r) + rest, t)
         == if r.End? then Finished(t)
            else var (u, f) := Applied(t, r); if f.Some? then (u, f) else ImportRecords(rest, u)
  {
    ReadRecordWire(r, rest);
  }

  lemma EncodedCons(r: Record, rs: seq<Record>)
    ensures Encoded([r] + rs) == Wire(r) + Encoded(rs)
  {
    assert ([r] + rs)[1..] == rs;
  }

  lemma EncodedEnd()
    ensures Encoded([End]) == Wire(End) + []
  {
    EncodedOne(End);
  }

  lemma {:induction false} ImportExtents(src: seq<byte>, extents: seq<Extent>, t: Target)
    requires Reported(src, extents) && |src| < U64
    ensures ImportRecords(Encoded(ExtentRecords(src, extents) + [End]), t)
         == Finished(t.(data := Painted(t.data, src, extents)))
    decreases |extents|
  {
    hide ImportRecords, Encode, Encoded, Wire;
    if extents == [] {
      assert ExtentRecords(src, extents) + [End] == [End];
      EncodedEnd();
      ImportStep(End, [], t);
    } else {
      var r, rest := ExtentRecord(src, extents[0]), ExtentRecords(src, extents[1..]) + [End];
      assert ExtentRecords(src, extents) + [End] == [r] + rest;
      EncodedCons(r, rest);
      ImportStep(r, Encoded(rest), t);
      ImportExtents(src, extents[1..], Applied(t, r).0);
    }
  }

  // ----- the header -----

  /** A snapshot name as the tools pass it: a C string. */
  predicate CString(name: Name) {
    0 !in name && |name| < U32
  }

  lemma CNameOfCString(name: Name)
    requires 0 !in name
    ensures CName(name) == name
  {
    UntilExact(name, 0);
  }

  lemma ReadLongName(tag: byte, name: Name, rest: seq<byte>)
    requires tag == 'f' as int || tag == 't' as int
    requires MAX_SNAP_NAME < |name| < U32
    ensures ReadRecord([tag] + (Encode(|name|, 4) + name + rest)) == Failed(EINVAL)
  {
    Powers();
    DecodeEncode(|name|, 4);
    var b := Encode(|name|, 4) + name + rest;
    assert ([tag] + b)[1..] == b;
    assert b[..4] == Encode(|name|, 4);
  }

  lemma ReadNameBytes(tag: byte, name: Name, rest: seq<byte>)
    requires tag == 'f' as int || tag == 't' as int
    requires |name| < U32
    ensures ReadRecord(NameBytes(tag, Some(name)) + rest)
         == if |name| > MAX_SNAP_NAME then Failed(EINVAL)
            else Got(if tag == 'f' as int then FromSnap(name) else ToSnap(name), rest)
  {
    assert NameBytes(tag, Some(name)) + rest == [tag] + (Encode(|name|, 4) + name + rest);
    if |name| <= MAX_SNAP_NAME {
      ReadNameWire(tag, name, rest);
    } else {
      ReadLongName(tag, name, rest);
    }
  }

  /** What the start record of an export needs of the image it is imported to. */
  predicate StartOk(from: Option<Name>, snaps: map<Name, seq<byte>>) {
    from.Some? ==> |from.value| <= MAX_SNAP_NAME && from.value in snaps
  }

  /** What the end record needs. */
  predicate EndOk(to: Option<Name>, snaps: map<Name, seq<byte>>) {
    to.Some? ==> |to.value| <= MAX_SNAP_NAME && to.value !in snaps
  }

  lemma ImportFrom(from: Option<Name>, rest: seq<byte>, t: Target)
    requires from.Some? ==> CString(from.value)
    ensures StartOk(from, t.snaps) ==>
              ImportRecords(NameBytes('f' as int, from) + rest, t) == ImportRecords(rest, t)
    ensures !StartOk(from, t.snaps) ==>
              ImportRecords(NameBytes('f' as int, from) + rest, t) == (t, Some(EINVAL))
  {
    if from.Some? {
      var name := from.value;
      CNameOfCString(name);
      ReadNameBytes('f' as int, name, rest);
    } else {
      assert NameBytes('f' as int, from) + rest == rest;
    }
  }

  function Announced(t: Target, to: Option<Name>): Target {
    if to.Some? then t.(to := to.value) else t
  }

  lemma ImportTo(to: Option<Name>, rest: seq<byte>, t: Target)
    requires to.Some? ==> CString(to.value)
    ensures EndOk(to, t.snaps) ==>
              ImportRecords(NameBytes('t' as int, to) + rest, t) == ImportRecords(rest, Announced(t, to))
    ensures !EndOk(to, t.snaps) ==>
              var (u, f) := ImportRecords(NameBytes('t' as int, to) + rest, t);
              f.Some? && u.data == t.data && u.snaps == t.snaps
  {
    if to.Some? {
      var name := to.value;
      CNameOfCString(name);
      ReadNameBytes('t' as int, name, rest);
    } else {
      assert NameBytes('t' as int, to) + rest == rest;
    }
  }

  // ----- the round trip -----

  function Stream(src: seq<byte>, from: Option<Name>, to: Option<Name>, extents: seq<Extent>): seq<byte> {
    BANNER + Encoded(Records(src, from, to, extents))
  }

  lemma StreamParts(src: seq<byte>, from: Option<Name>, to: Option<Name>, extents: seq<Extent>)
    ensures Encoded(Records(src, from, to, extents))
         == NameBytes('f' as int, from)
            + (NameBytes('t' as int, to)
               + (Wire(Size(|src|)) + Encoded(ExtentRecords(src, extents) + [End])))
  {
    var head, tail := HeaderRecords(|src|, from, to), ExtentRecords(src, extents) + [End];
    assert Records(src, from, to, extents) == head + tail;
    EncodedAppend(head, tail);
    HeaderEncoded(|src|, from, to);
    var f, t, z := NameBytes('f' as int, from), NameBytes('t' as int, to), Wire(Size(|src|));
    Assoc(f, t, z);
    Assoc(f, t + z, Encoded(tail));
    Assoc(t, z, Encoded(tail));
  }

  lemma ImportStream(s: seq<byte>, t: Target)
    ensures Import(BANNER + s, t) == ImportRecords(s, t)
  {
    assert (BANNER + s)[..|BANNER|] == BANNER && (BANNER + s)[|BANNER|..] == s;
  }

  /** The image after a successful import. */
  function Rebuilt(src: seq<byte>, extents: seq<Extent>, base: seq<byte>): seq<byte> {
    Painted(Resized(base, |src|), src, extents)
  }

  /** The import of an export, exactly.  It succeeds if and only if the start
      snapshot is there, the end snapshot is not, and both names are within the
      reader's limit; then the image has the size and the content of the exported
      one if and only if the extents cover every difference, and the end snapshot
      holds it.  When it is refused, the image is as it was. */
  lemma DiffRoundTrip(src: seq<byte>, from: Option<Name>, to: Option<Name>, extents: seq<Extent>,
                      base: seq<byte>, snaps: map<Name, seq<byte>>)
    requires Reported(src, extents) && |src| < U64
    requires from.Some? ==> CString(from.value)
    requires to.Some? ==> CString(to.value)
    ensures var (t, failure) := Import(Stream(src, from, to, extents), Target(base, snaps, []));
            && (failure.None? <==> StartOk(from, snaps) && EndOk(to, snaps))
            && (failure.Some? ==> t.data == base && t.snaps == snaps)
            && (failure.None? ==>
                  && t.data == Rebuilt(src, extents, base)
                  && (t.data == src <==> CoversChanges(Resized(base, |src|), src, extents))
                  && t.snaps == if to.Some? && to.value != [] then snaps[to.value := t.data] else snaps)
  {
    var t0 := Target(base, snaps, []);
    var body := Encoded(ExtentRecords(src, extents) + [End]);
    var afterTo := Wire(Size(|src|)) + body;
    var afterFrom := NameBytes('t' as int, to) + afterTo;
    StreamParts(src, from, to, extents);
    ImportStream(NameBytes('f' as int, from) + afterFrom, t0);
    ImportFrom(from, afterFrom, t0);
    ImportTo(to, afterTo, t0);
    if StartOk(from, snaps) && EndOk(to, snaps) {
      var t1 := Announced(t0, to);
      ImportStep(Size(|src|), body, t1);
      var t2 := t1.(data := Resized(base, |src|));
      ImportExtents(src, extents, t2);
      PaintedExact(t2.data, src, extents);
      if to.Some? {
        CNameOfCString(to.value);
      }
    }
  }

  // ----- truncated streams -----

  /** Records that fit the wire, of which the last one and no other is the end. */
  predicate Ended(rs: seq<Record>) {
    && rs != [] && rs[|rs| - 1] == End
    && forall k | 0 <= k < |rs| :: Transmittable(rs[k]) && (rs[k] == End ==> k == |rs| - 1)
  }

  lemma EndedTail(rs: seq<Record>)
    requires Ended(rs)
    ensures Transmittable(rs[0])
    ensures if |rs| == 1 then rs[0] == End && Encoded(rs[1..]) == [] else rs[0] != End && Ended(rs[1..])
  {
  }

  lemma {:induction false} CutRecordsFail(rs: seq<Record>, n: nat, t: Target)
    requires Ended(rs) && n < |Encoded(rs)|
    ensures var (u, failure) := ImportRecords(Encoded(rs)[..n], t); failure.Some? && u.snaps == t.snaps
    decreases |rs|
  {
    var w, rest := Wire(rs[0]), Encoded(rs[1..]);
    EndedTail(rs);
    CutEither(w, rest, n);
    assert Encoded(rs) == w + rest;
    if n < |w| {
      CutRecordFails(rs[0], n);
    } else {
      var m := n - |w|;
      CutRecordsFail(rs[1..], m, Applied(t, rs[0]).0);
      SnapsStay(t, rs[0]);
      CutLater(rs[0], rest[..m], t);
    }
  }

  lemma CutLater(r: Record, rest: seq<byte>, t: Target)
    requires Transmittable(r) && !r.End?
    requires var (u, failure) := ImportRecords(rest, Applied(t, r).0);
             failure.Some? && u.snaps == Applied(t, r).0.snaps
    ensures var (u, failure) := ImportRecords(Wire(r) + rest, t); failure.Some? && u.snaps == t.snaps
  {
    ImportStep(r, rest, t);
    SnapsStay(t, r);
  }

  lemma SnapsStay(t: Target, r: Record)
    ensures Applied(t, r).0.snaps == t.snaps
  {
  }

  lemma CutEither(w: seq<byte>, rest: seq<byte>, n: nat)
    requires n <= |w + rest|
    ensures n < |w| ==> (w + rest)[..n] == w[..n]
    ensures n >= |w| ==> (w + rest)[..n] == w + rest[..n - |w|]
  {
  }

  lemma RecordsEnded(src: seq<byte>, from: Option<Name>, to: Option<Name>, extents: seq<Extent>)
    requires Reported(src, extents) && |src| < U64
    requires from.Some? ==> |from.value| <= MAX_SNAP_NAME
    requires to.Some? ==> |to.value| <= MAX_SNAP_NAME
    ensures Ended(Records(src, from, to, extents))
  {
  }

  /** No truncated export is taken for a whole one: the import of any proper
      prefix of the stream fails and creates no snapshot. */
  lemma TruncatedImportFails(src: seq<byte>, from: Option<Name>, to: Option<Name>, extents: seq<Extent>,
                             n: nat, t: Target)
    requires Reported(src, extents) && |src| < U64
    requires from.Some? ==> |from.value| <= MAX_SNAP_NAME
    requires to.Some? ==> |to.value| <= MAX_SNAP_NAME
    requires n < |Stream(src, from, to, extents)|
    ensures var (u, failure) := Import(Stream(src, from, to, extents)[..n], t);
            failure.Some? && u.snaps == t.snaps
  {
    var rs := Records(src, from, to, extents);
    var s := Stream(src, from, to, extents)[..n];
    assert Ended(rs) by { RecordsEnded(src, from, to, extents); }
    if n >= |BANNER| {
      assert s == BANNER + Encoded(rs)[..n - |BANNER|];
      ImportStream(Encoded(rs)[..n - |BANNER|], t);
      CutRecordsFail(rs, n - |BANNER|, t);
    }
  }
}
