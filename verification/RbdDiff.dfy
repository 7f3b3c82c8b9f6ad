/** rbd export-diff and import-diff: the tagged stream that carries the change
    between two snapshots of an image, its writer and its reader. */
module RbdDiff {
  import opened Basics
  import opened Bytes
  import opened RbdImage

  const EEXIST: nat := 17
  const EINVAL: nat := 22
  const EDOM: nat := 33

  const BANNER: seq<byte> := Ascii("rbd diff v1\n")
  const MAX_SNAP_NAME: nat := 4096

  function Ascii(s: string): (r: seq<byte>)
    ensures |r| == |s|
  {
    seq(|s|, i requires 0 <= i < |s| => if s[i] < (128 as char) then s[i] as int else 63)
  }

  /** One call of the diff_iterate callback. */
  datatype Extent = Extent(ofs: nat, len: nat, present: bool)

  datatype Record =
    | FromSnap(name: Name)
    | ToSnap(name: Name)
    | Size(size: nat)
    | Data(ofs: nat, bytes: seq<byte>)
    | Zero(ofs: nat, len: nat)
    | End

  // ----- the writer -----

  function Tag(r: Record): byte {
    match r
    case FromSnap(_) => 'f' as int
    case ToSnap(_) => 't' as int
    case Size(_) => 's' as int
    case Data(_, _) => 'w' as int
    case Zero(_, _) => 'z' as int
    case End => 'e' as int
  }

  function Payload(r: Record): seq<byte> {
    match r
    case FromSnap(name) => Encode(|name|, 4) + name
    case ToSnap(name) => Encode(|name|, 4) + name
    case Size(size) => Encode(size, 8)
    case Data(ofs, bytes) => Encode(ofs, 8) + Encode(|bytes|, 8) + bytes
    case Zero(ofs, len) => Encode(ofs, 8) + Encode(len, 8)
    case End => []
  }

  function Encoded(rs: seq<Record>): seq<byte> {
    if rs == [] then [] else [Tag(rs[0])] + Payload(rs[0]) + Encoded(rs[1..])
  }

  function ExtentRecord(data: seq<byte>, e: Extent): Record {
    if e.present then Data(e.ofs, ReadBack(data, e.ofs, e.len)) else Zero(e.ofs, e.len)
  }

  function ExtentRecords(data: seq<byte>, extents: seq<Extent>): (rs: seq<Record>)
    ensures |rs| == |extents|
    ensures forall i | 0 <= i < |rs| :: rs[i] == ExtentRecord(data, extents[i])
  {
    seq(|extents|, i requires 0 <= i < |extents| => ExtentRecord(data, extents[i]))
  }

  function HeaderRecords(size: nat, from: Option<Name>, to: Option<Name>): seq<Record> {
    (if from.Some? then [FromSnap(from.value)] else [])
    + (if to.Some? then [ToSnap(to.value)] else [])
    + [Size(size)]
  }

  function Records(data: seq<byte>, from: Option<Name>, to: Option<Name>, extents: seq<Extent>): seq<Record> {
    HeaderRecords(|data|, from, to) + ExtentRecords(data, extents) + [End]
  }

  lemma {:induction false} EncodedAppend(a: seq<Record>, b: seq<Record>)
    ensures Encoded(a + b) == Encoded(a) + Encoded(b)
  {
    if a == [] {
      assert a + b == b;
    } else {
      assert (a + b)[1..] == a[1..] + b;
      EncodedAppend(a[1..], b);
    }
  }

  lemma EncodedOne(r: Record)
    ensures Encoded([r]) == [Tag(r)] + Payload(r)
  {
  }

  /** The head of an extent record, in front of the data. */
  function ExtentHead(e: Extent): seq<byte> {
    [if e.present then 'w' as int else 'z' as int] + (Encode(e.ofs, 8) + Encode(e.len, 8))
  }

  lemma ExtentEncoded(data: seq<byte>, e: Extent)
    requires e.present ==> e.ofs + e.len <= |data|
    ensures Encoded([ExtentRecord(data, e)])
         == ExtentHead(e) + (if e.present then ReadBack(data, e.ofs, e.len) else [])
  {
    EncodedOne(ExtentRecord(data, e));
    var head, bytes := Encode(e.ofs, 8) + Encode(e.len, 8), ReadBack(data, e.ofs, e.len);
    if e.present {
      assert |bytes| == e.len;
      assert ['w' as int] + (head + bytes) == ['w' as int] + head + bytes;
    }
  }

  /** export_diff_cb: the callback writes the head of an extent record with the
      length it was given, and then what the image returns for it. */
  method ExportDiffCb(image: Image, e: Extent, out0: seq<byte>) returns (out: seq<byte>)
    requires e.present ==> e.ofs + e.len <= |image.data|
    ensures out == out0 + Encoded([ExtentRecord(image.data, e)])
  {
    hide Encoded, ExtentRecord, ExtentHead, ReadBack;
    ExtentEncoded(image.data, e);
    var bl := ExtentHead(e);
    out := out0 + bl;
    if e.present {
      bl := ReadBack(image.data, e.ofs, e.len);
      out := out + bl;
    }
  }

  /** The wire form of an optional snapshot name. */
  function NameBytes(tag: byte, name: Option<Name>): seq<byte> {
    if name.Some? then [tag] + (Encode(|name.value|, 4) + name.value) else []
  }

  lemma NameEncoded(from: Option<Name>, to: Option<Name>)
    ensures Encoded(if from.Some? then [FromSnap(from.value)] else []) == NameBytes('f' as int, from)
    ensures Encoded(if to.Some? then [ToSnap(to.value)] else []) == NameBytes('t' as int, to)
  {
    hide Encode;
    if from.Some? {
      EncodedOne(FromSnap(from.value));
    }
    if to.Some? {
      EncodedOne(ToSnap(to.value));
    }
  }

  lemma HeaderEncoded(size: nat, from: Option<Name>, to: Option<Name>)
    ensures Encoded(HeaderRecords(size, from, to))
         == NameBytes('f' as int, from) + NameBytes('t' as int, to) + (['s' as int] + Encode(size, 8))
  {
    hide Encoded, NameBytes, Encode;
    var f := if from.Some? then [FromSnap(from.value)] else [];
    var t := if to.Some? then [ToSnap(to.value)] else [];
    NameEncoded(from, to);
    EncodedOne(Size(size));
    EncodedAppend(f + t, [Size(size)]);
    EncodedAppend(f, t);
  }

  lemma HeaderJoined(f: seq<byte>, t: seq<byte>, s: seq<byte>)
    ensures BANNER + f + t + s == BANNER + (f + t + s)
  {
  }

  /** The header part of do_export_diff. */
  method ExportHeader(size: nat, from: Option<Name>, to: Option<Name>) returns (bl: seq<byte>)
    ensures bl == BANNER + Encoded(HeaderRecords(size, from, to))
  {
    HeaderEncoded(size, from, to);
    HeaderJoined(NameBytes('f' as int, from), NameBytes('t' as int, to), ['s' as int] + Encode(size, 8));
    bl := BANNER;
    bl := bl + NameBytes('f' as int, from);
    bl := bl + NameBytes('t' as int, to);
    bl := bl + (['s' as int] + Encode(size, 8));
  }

  /** The stream after the header and i extents. */
  function StreamTo(data: seq<byte>, from: Option<Name>, to: Option<Name>, extents: seq<Extent>, i: nat): seq<byte>
    requires i <= |extents|
  {
    BANNER + Encoded(HeaderRecords(|data|, from, to) + ExtentRecords(data, extents)[..i])
  }

  lemma StreamNext(data: seq<byte>, from: Option<Name>, to: Option<Name>, extents: seq<Extent>, i: nat)
    requires i < |extents|
    ensures StreamTo(data, from, to, extents, i + 1)
         == StreamTo(data, from, to, extents, i) + Encoded([ExtentRecord(data, extents[i])])
  {
    var head, body := HeaderRecords(|data|, from, to), ExtentRecords(data, extents);
    assert head + body[..i + 1] == head + body[..i] + [body[i]];
    EncodedAppend(head + body[..i], [body[i]]);
  }

  lemma StreamEnds(data: seq<byte>, from: Option<Name>, to: Option<Name>, extents: seq<Extent>)
    ensures StreamTo(data, from, to, extents, 0) == BANNER + Encoded(HeaderRecords(|data|, from, to))
    ensures StreamTo(data, from, to, extents, |extents|) + ['e' as int]
         == BANNER + Encoded(Records(data, from, to, extents))
  {
    var head, body := HeaderRecords(|data|, from, to), ExtentRecords(data, extents);
    assert head + body[..0] == head && body[..|extents|] == body;
    EncodedAppend(head + body, [End]);
    EncodedOne(End);
  }

  /** do_export_diff.  The extents are those that diff_iterate reports; they lie
      inside the image that is exported. */
  method DoExportDiff(image: Image, from: Option<Name>, to: Option<Name>, extents: seq<Extent>)
    returns (out: seq<byte>)
    requires forall e | e in extents :: e.ofs + e.len <= |image.data|
    ensures out == BANNER + Encoded(Records(image.data, from, to, extents))
  {
    StreamEnds(image.data, from, to, extents);
    out := ExportHeader(|image.data|, from, to);
    for i := 0 to |extents|
      invariant out == StreamTo(image.data, from, to, extents, i)
    {
      StreamNext(image.data, from, to, extents, i);
      out := ExportDiffCb(image, extents[i], out);
    }
    out := out + ['e' as int];
  }

  // ----- the reader -----

  /** The name a C string function sees. */
  function CName(name: Name): Name {
    Until(name, 0)
  }

  datatype Reading<T> = Got(value: T, rest: seq<byte>) | Failed(errno: nat)

  function ReadString(s: seq<byte>): Reading<Name> {
    if |s| < 4 then Failed(EDOM)
    else
      var len := Decode(s[..4]);
      if len > MAX_SNAP_NAME then Failed(EINVAL)
      else if |s| - 4 < len then Failed(EDOM)
      else Got(s[4..4 + len], s[4 + len..])
  }

  /** One record: its tag and what the tag asks for. */
  function ReadRecord(s: seq<byte>): Reading<Record> {
    if s == [] then Failed(EDOM)
    else
      var b := s[1..];
      if s[0] == 'e' as int then Got(End, b)
      else if s[0] == 'f' as int then
        (match ReadString(b) case Got(name, rest) => Got(FromSnap(name), rest) case Failed(e) => Failed(e))
      else if s[0] == 't' as int then
        (match ReadString(b) case Got(name, rest) => Got(ToSnap(name), rest) case Failed(e) => Failed(e))
      else if s[0] == 's' as int then
        if |b| < 8 then Failed(EDOM) else Got(Size(Decode(b[..8])), b[8..])
      else if s[0] == 'w' as int then
        if |b| < 16 then Failed(EDOM)
        else
          var len := Decode(b[8..16]);
          if |b| - 16 < len then Failed(EDOM)
          else Got(Data(Decode(b[..8]), b[16..16 + len]), b[16 + len..])
      else if s[0] == 'z' as int then
        if |b| < 16 then Failed(EDOM) else Got(Zero(Decode(b[..8]), Decode(b[8..16])), b[16..])
      else Failed(EINVAL)
  }

  /** The image that a diff is imported into, and the end snapshot announced. */
  datatype Target = Target(data: seq<byte>, snaps: map<Name, seq<byte>>, to: Name)

  /** The effect of one record; None is success, Some the error. */
  function Applied(t: Target, r: Record): (Target, Option<nat>) {
    match r
    case FromSnap(name) => (t, if CName(name) in t.snaps then None else Some(EINVAL))
    case ToSnap(name) => (t.(to := name), if CName(name) in t.snaps then Some(EEXIST) else None)
    case Size(size) => (t.(data := Resized(t.data, size)), None)
    case Data(ofs, bytes) => (t.(data := Written(t.data, ofs, bytes)), None)
    case Zero(ofs, len) => (t.(data := Written(t.data, ofs, Zeros(len))), None)
    case End => (t, None)
  }

  /** Taking the end snapshot: only when it has a name, and it must be new. */
  function Finished(t: Target): (Target, Option<nat>) {
    if t.to == [] then (t, None)
    else if CName(t.to) in t.snaps then (t, Some(EEXIST))
    else (t.(snaps := t.snaps[CName(t.to) := t.data]), None)
  }

  lemma ReadRecordShrinks(s: seq<byte>)
    ensures ReadRecord(s).Got? ==> |ReadRecord(s).rest| < |s|
  {
  }

  function ImportRecords(s: seq<byte>, t: Target): (Target, Option<nat>)
    decreases |s|
  {
    match ReadRecord(s)
    case Failed(e) => (t, Some(e))
    case Got(r, rest) =>
      if r.End? then Finished(t)
      else
        ReadRecordShrinks(s);
        var (u, failure) := Applied(t, r);
        if failure.Some? then (u, failure) else ImportRecords(rest, u)
  }

  function Import(s: seq<byte>, t: Target): (Target, Option<nat>) {
    if |s| < |BANNER| then (t, Some(EDOM))
    else if s[..|BANNER|] != BANNER then (t, Some(EINVAL))
    else ImportRecords(s[|BANNER|..], t)
  }

  /** read_string */
  method ReadName(fd: File) returns (failure: Option<nat>, name: Name)
    requires fd.Valid()
    modifies fd
    ensures fd.Valid()
    ensures match ReadString(old(fd.Rest()))
            case Failed(e) => failure == Some(e)
            case Got(n, rest) => failure == None && name == n && fd.Rest() == rest
  {
    ghost var s := fd.Rest();
    name := [];
    var ok, buf := fd.SafeReadExact(4);
    if !ok {
      return Some(EDOM), name;
    }
    var len := Decode(buf);
    if len > MAX_SNAP_NAME {
      return Some(EINVAL), name;
    }
    ok, name := fd.SafeReadExact(len);
    if !ok {
      return Some(EDOM), name;
    }
    failure := None;
    assert s[4..][..len] == s[4..4 + len] && s[4..][len..] == s[4 + len..];
  }

  ghost function TargetOf(image: Image, to: Name): Target
    reads image
  {
    Target(image.data, image.snaps, to)
  }

  /** What one turn of the loop in do_import_diff does, once it has the tag. */
  ghost predicate TookRecord(s: seq<byte>, before: Target, after: Target, rest: seq<byte>, failure: Option<nat>) {
    match ReadRecord(s)
    case Failed(e) => failure == Some(e) && after == before
    case Got(r, more) => (after, failure) == Applied(before, r) && rest == more
  }

  method ImportSnapName(image: Image, fd: File, from: bool, to0: Name) returns (failure: Option<nat>, to: Name)
    requires fd.Valid()
    modifies fd
    ensures fd.Valid()
    ensures TookRecord([if from then 'f' as int else 't' as int] + old(fd.Rest()), TargetOf(image, to0),
                       TargetOf(image, to), fd.Rest(), failure)
  {
    ghost var s := [if from then 'f' as int else 't' as int] + fd.Rest();
    assert s[1..] == fd.Rest();
    to := to0;
    var name;
    failure, name := ReadName(fd);
    if failure.Some? {
      return;
    }
    if from {
      if CName(name) !in image.snaps {
        failure := Some(EINVAL);
      }
    } else {
      to := name;
      if CName(name) in image.snaps {
        failure := Some(EEXIST);
      }
    }
  }

  method ImportSize(image: Image, fd: File, ghost to: Name) returns (failure: Option<nat>)
    requires fd.Valid()
    modifies fd, image`data
    ensures fd.Valid()
    ensures TookRecord(['s' as int] + old(fd.Rest()), old(TargetOf(image, to)), TargetOf(image, to), fd.Rest(), failure)
  {
    ghost var s := ['s' as int] + fd.Rest();
    assert s[1..] == fd.Rest();
    var ok, buf := fd.SafeReadExact(8);
    if !ok {
      return Some(EDOM);
    }
    var endSize := Decode(buf);
    if |image.data| != endSize {
      image.Resize(endSize);
    } else {
      assert Resized(image.data, endSize) == image.data;
    }
    failure := None;
  }

  method ImportExtent(image: Image, fd: File, write: bool, ghost to: Name) returns (failure: Option<nat>)
    requires fd.Valid()
    modifies fd, image`data, image`log
    ensures fd.Valid()
    ensures TookRecord([if write then 'w' as int else 'z' as int] + old(fd.Rest()), old(TargetOf(image, to)),
                       TargetOf(image, to), fd.Rest(), failure)
  {
    hide Decode;
    ghost var b := fd.Rest();
    ghost var s := [if write then 'w' as int else 'z' as int] + b;
    assert s[1..] == b;
    var ok, buf := fd.SafeReadExact(16);
    if !ok {
      return Some(EDOM);
    }
    assert buf[..8] == b[..8] && buf[8..] == b[8..16];
    var off, len := Decode(buf[..8]), Decode(buf[8..]);
    if write {
      var data;
      ok, data := fd.SafeReadExact(len);
      if !ok {
        return Some(EDOM);
      }
      assert b[16..][..len] == b[16..16 + len] && b[16..][len..] == b[16 + len..];
      image.Write(off, data);
    } else {
      image.Discard(off, len);
    }
    failure := None;
  }

  method ImportRecord(image: Image, fd: File, tag: byte, to0: Name) returns (failure: Option<nat>, to: Name)
    requires fd.Valid() && tag != 'e' as int
    modifies fd, image`data, image`log
    ensures fd.Valid()
    ensures TookRecord([tag] + old(fd.Rest()), old(TargetOf(image, to0)), TargetOf(image, to), fd.Rest(), failure)
  {
    to := to0;
    if tag == 'f' as int || tag == 't' as int {
      failure, to := ImportSnapName(image, fd, tag == 'f' as int, to0);
    } else if tag == 's' as int {
      failure := ImportSize(image, fd, to);
    } else if tag == 'w' as int || tag == 'z' as int {
      failure := ImportExtent(image, fd, tag == 'w' as int, to);
    } else {
      failure := Some(EINVAL);
    }
  }

  lemma ReadRecordEnds(s: seq<byte>)
    ensures s == [] ==> ReadRecord(s) == Failed(EDOM)
    ensures s != [] && s[0] == 'e' as int ==> ReadRecord(s) == Got(End, s[1..])
    ensures s != [] && s[0] != 'e' as int && ReadRecord(s).Got? ==> !ReadRecord(s).value.End?
  {
  }

  /** do_import_diff; None is success. */
  method DoImportDiff(image: Image, fd: File) returns (failure: Option<nat>)
    requires fd.Valid()
    modifies fd, image
    ensures var (t, f) := Import(old(fd.Rest()), old(TargetOf(image, [])));
            image.data == t.data && image.snaps == t.snaps && failure == f
  {
    hide ReadRecord, CName;
    var ok, buf := fd.SafeReadExact(|BANNER|);
    if !ok {
      return Some(EDOM);
    }
    if buf != BANNER {
      return Some(EINVAL);
    }
    var to: Name := [];
    ghost var finish := ImportRecords(fd.Rest(), TargetOf(image, to));
    while true
      invariant fd.Valid()
      invariant ImportRecords(fd.Rest(), TargetOf(image, to)) == finish
      decreases |fd.Rest()|
    {
      ghost var s := fd.Rest();
      ReadRecordEnds(s);
      ok, buf := fd.SafeReadExact(1);
      if !ok {
        return Some(EDOM);
      }
      assert s == [buf[0]] + s[1..];
      if buf[0] == 'e' as int {
        break;
      }
      ReadRecordShrinks(s);
      failure, to := ImportRecord(image, fd, buf[0], to);
      if failure.Some? {
        return;
      }
    }
    failure := None;
    if |to| > 0 {
      if CName(to) in image.snaps {
        return Some(EEXIST);
      }
      image.snaps := image.snaps[CName(to) := image.data];
    }
  }
}
