/** do_copy of rados.cc: an object is copied in chunks of data and pages of omap. */
module RadosCopy {
  import opened Basics
  import opened Bytes
  import opened Ordered

  type Omap = map<string, seq<byte>>

  datatype Object = Object(data: seq<byte>, xattrs: map<string, seq<byte>>, omapHeader: seq<byte>, omap: Omap)

  const COPY_CHUNK_SIZE: nat := 4 * 1024 * 1024
  const OMAP_CHUNK: nat := 1000
  const EMPTY_OBJECT := Object([], map[], [], map[])

  // ----- pages of an omap -----

  /** The entries of `page` come first among those of `all` after `startAfter`. */
  ghost predicate Initial(all: Omap, startAfter: string, page: Omap) {
    && (forall k | k in page :: k in all && page[k] == all[k] && StringLess(startAfter, k))
    && (forall k, j | k in page && j in all && j !in page && StringLess(startAfter, j) :: StringLess(k, j))
  }

  /** Nothing after `startAfter` is left out. */
  ghost predicate Whole(all: Omap, startAfter: string, page: Omap) {
    forall k | k in all && StringLess(startAfter, k) :: k in page
  }

  /** What omap_get_vals returns. */
  ghost predicate IsPage(all: Omap, startAfter: string, n: nat, page: Omap) {
    Initial(all, startAfter, page) && |page| <= n && (|page| == n || Whole(all, startAfter, page))
  }

  ghost predicate IsLast(page: Omap, last: string) {
    last in page && forall k | k in page :: k == last || StringLess(k, last)
  }

  /** A page and the page after its last entry. */
  lemma NextPage(all: Omap, startAfter: string, page: Omap, last: string, next: Omap)
    requires Initial(all, startAfter, page) && IsLast(page, last) && Initial(all, last, next)
    ensures Initial(all, startAfter, page + next)
    ensures Whole(all, last, next) ==> Whole(all, startAfter, page + next)
    ensures forall k, j | k in page && j in next :: StringLess(k, j)
  {
    forall j | StringLess(last, j) ensures StringLess(startAfter, j) {
      StringLessTransitive(startAfter, last, j);
    }
    forall k, j | k in page && StringLess(last, j) ensures StringLess(k, j) {
      if k != last {
        StringLessTransitive(k, last, j);
      }
    }
    forall j | j in all && j !in page && StringLess(startAfter, j) ensures StringLess(last, j) {}
    forall k, j | k in next && j in all && j !in page + next && StringLess(startAfter, j) ensures StringLess(k, j) {
      assert StringLess(last, j);
    }
  }

  lemma LastOfBoth(page: Omap, last: string, next: Omap, end: string)
    requires IsLast(page, last) && IsLast(next, end)
    requires forall k, j | k in page && j in next :: StringLess(k, j)
    ensures IsLast(page + next, end)
  {
    assert StringLess(last, end);
  }

  /** Everything but the entry under the empty key. */
  function Keyed(all: Omap): Omap {
    all - {""}
  }

  lemma WholeIsKeyed(all: Omap, page: Omap)
    requires Initial(all, "", page) && Whole(all, "", page)
    ensures page == Keyed(all)
  {
    forall k: string ensures StringLess("", k) <==> k != "" {}
  }

  // ----- the source: any call may fail -----

  function Chunk(data: seq<byte>, off: nat): seq<byte> {
    if off >= |data| then []
    else if off + COPY_CHUNK_SIZE <= |data| then data[off..off + COPY_CHUNK_SIZE]
    else data[off..]
  }

  method ReadChunk(src: Object, off: nat) returns (ret: int, data: seq<byte>)
    ensures ret >= 0 ==> data == Chunk(src.data, off)
  {
    if * {
      return -5, [];
    }
    ret, data := 0, Chunk(src.data, off);
  }

  method OmapGetVals(src: Object, startAfter: string, n: nat) returns (ret: int, page: Omap)
    ensures ret >= 0 ==> IsPage(src.omap, startAfter, n, page)
  {
    page := map[];
    if * {
      return -5, map[];
    }
    ret := 0;
    StringOrder();
    var left := set k | k in src.omap && StringLess(startAfter, k);
    while left != {} && |page| < n
      invariant Initial(src.omap, startAfter, page) && |page| <= n
      invariant forall k :: k in left <==> k in src.omap && StringLess(startAfter, k) && k !in page
      decreases left
    {
      FirstExists(left, StringLess);
      var m :| m in left && forall x | x in left :: x == m || StringLess(m, x);
      page := page[m := src.omap[m]];
      left := left - {m};
    }
  }

  /** The compound read that do_copy starts with. */
  method ReadFirst(src: Option<Object>) returns (ret: int, outdata: seq<byte>, attrset: map<string, seq<byte>>,
                                         header: seq<byte>, omap: Omap)
    ensures ret >= 0 ==>
              && src.Some? && outdata == Chunk(src.value.data, 0) && attrset == src.value.xattrs
              && header == src.value.omapHeader && IsPage(src.value.omap, "", OMAP_CHUNK, omap)
  {
    outdata, attrset, header, omap := [], map[], [], map[];
    if src.None? {
      return -2, outdata, attrset, header, omap;
    }
    ret, outdata := ReadChunk(src.value, 0);
    if ret >= 0 {
      ret, omap := OmapGetVals(src.value, "", OMAP_CHUNK);
    }
    attrset, header := src.value.xattrs, src.value.omapHeader;
  }

  // ----- the target -----

  datatype WriteOp =
    | Create
    | Remove
    | WriteFull(data: seq<byte>)
    | OmapSetHeader(header: seq<byte>)
    | SetXattr(name: string, value: seq<byte>)
    | OmapSet(vals: Omap)

  function Touched(o: Option<Object>): Object {
    if o.Some? then o.value else EMPTY_OBJECT
  }

  function Wrote(o: Option<Object>, op: WriteOp): Option<Object> {
    match op
    case Create => Some(Touched(o))
    case Remove => None
    case WriteFull(data) => Some(Touched(o).(data := data))
    case OmapSetHeader(header) => Some(Touched(o).(omapHeader := header))
    case SetXattr(name, value) => Some(Touched(o).(xattrs := Touched(o).xattrs[name := value]))
    case OmapSet(vals) => Some(Touched(o).(omap := Touched(o).omap + vals))
  }

  function WroteAll(o: Option<Object>, ops: seq<WriteOp>): Option<Object> {
    if ops == [] then o else Wrote(WroteAll(o, ops[..|ops| - 1]), ops[|ops| - 1])
  }

  lemma WroteSnoc(o: Option<Object>, ops: seq<WriteOp>, op: WriteOp)
    ensures WroteAll(o, ops + [op]) == Wrote(WroteAll(o, ops), op)
  {
    assert (ops + [op])[..|ops|] == ops;
  }

  /** A write at an offset, over what is there; a gap reads as zeros. */
  function Overlay(data: seq<byte>, off: nat, bl: seq<byte>): seq<byte> {
    var padded := if off <= |data| then data[..off] else data + Zeros(off - |data|);
    padded + bl + if off + |bl| < |data| then data[off + |bl|..] else []
  }

  class Pool {
    var objects: map<string, Object>
    ghost var refused: nat      // removals that failed

    ghost function At(oid: string): Option<Object>
      reads this
    {
      if oid in objects then Some(objects[oid]) else None
    }

    /** Nothing but one object differs. */
    ghost predicate Only(oid: string, before: map<string, Object>)
      reads this
    {
      objects - {oid} == before - {oid}
    }

    method Put(oid: string, o: Option<Object>)
      modifies `objects
      ensures At(oid) == o && Only(oid, old(objects))
    {
      ghost var before := objects;
      if o.Some? {
        objects := objects[oid := o.value];
      } else {
        objects := objects - {oid};
      }
      assert objects - {oid} == before - {oid};
    }

    method Get(oid: string) returns (o: Option<Object>)
      ensures o == At(oid)
    {
      o := if oid in objects then Some(objects[oid]) else None;
    }

    method Operate(oid: string, ops: seq<WriteOp>) returns (ret: int)
      modifies `objects
      ensures ret < 0 ==> objects == old(objects)
      ensures ret >= 0 ==> At(oid) == WroteAll(old(At(oid)), ops)
      ensures Only(oid, old(objects))
    {
      if * {
        return -5;
      }
      ret := 0;
      var o := Get(oid);
      Put(oid, WroteAll(o, ops));
    }

    method Write(oid: string, bl: seq<byte>, off: nat) returns (ret: int)
      modifies `objects
      ensures ret < 0 ==> objects == old(objects)
      ensures ret >= 0 ==> var o := Touched(old(At(oid))); At(oid) == Some(o.(data := Overlay(o.data, off, bl)))
      ensures Only(oid, old(objects))
    {
      if * {
        return -5;
      }
      ret := 0;
      var o := Get(oid);
      Put(oid, Some(Touched(o).(data := Overlay(Touched(o).data, off, bl))));
    }

    method RemoveObject(oid: string) returns (ret: int)
      modifies this
      ensures ret < 0 ==> objects == old(objects) && refused == old(refused) + 1
      ensures ret >= 0 ==> At(oid) == None && refused == old(refused)
      ensures Only(oid, old(objects))
    {
      if * {
        refused := refused + 1;
        return -5;
      }
      ret := 0;
      Put(oid, None);
    }
  }

  // ----- extended attributes: a name is passed as a C string -----

  /** The attributes set in this order on top of others. */
  function SetXattrs(on: map<string, seq<byte>>, names: seq<string>, attrs: map<string, seq<byte>>): map<string,
                     seq<byte>>
    requires forall n | n in names :: n in attrs
  {
    if names == [] then on
    else
      var last := names[|names| - 1];
      SetXattrs(on, names[..|names| - 1], attrs)[Until(last, '\0') := attrs[last]]
  }

  lemma {:induction false} SetXattrsKeys(names: seq<string>, attrs: map<string, seq<byte>>)
    requires forall n | n in names :: n in attrs
    ensures forall k | k in SetXattrs(map[], names, attrs) :: '\0' !in k
    ensures (forall n | n in names :: '\0' !in n) ==>
              SetXattrs(map[], names, attrs) == map n | n in names :: attrs[n]
  {
    if names != [] {
      var rest, last := names[..|names| - 1], names[|names| - 1];
      assert names == rest + [last];
      SetXattrsKeys(rest, attrs);
      UntilExact(last, '\0');
    }
  }

  ghost function CNamed(attrs: map<string, seq<byte>>): map<string, seq<byte>> {
    SetXattrs(map[], InStringOrder(attrs.Keys), attrs)
  }

  lemma CNamedExact(attrs: map<string, seq<byte>>)
    ensures CNamed(attrs) == attrs <==> forall n | n in attrs :: '\0' !in n
  {
    var names := InStringOrder(attrs.Keys);
    SetXattrsKeys(names, attrs);
    assert forall n :: n in names <==> n in attrs;
    assert (map n | n in names :: attrs[n]) == attrs;
  }

  // ----- the copy -----

  ghost function CopyOf(src: Object): Object {
    src.(xattrs := CNamed(src.xattrs), omap := Keyed(src.omap))
  }

  /** A copy equals its source except for what the calls cannot express: an omap
      entry under the empty key, and an attribute whose name contains a null. */
  lemma CopyExact(src: Object)
    ensures CopyOf(src) == src <==> "" !in src.omap && forall n | n in src.xattrs :: '\0' !in n
  {
    CNamedExact(src.xattrs);
    if "" !in src.omap {
      assert Keyed(src.omap) == src.omap;
    }
  }

  lemma {:induction false} SetXattrsLast(names: seq<string>, attrs: map<string, seq<byte>>, i: nat)
    requires forall n | n in names :: n in attrs
    requires i < |names| && forall j | i < j < |names| :: Until(names[j], '\0') != Until(names[i], '\0')
    ensures var k, r := Until(names[i], '\0'), SetXattrs(map[], names, attrs); k in r && r[k] == attrs[names[i]]
    decreases |names|
  {
    hide Until;
    var n := |names| - 1;
    assert names[n] in names;
    if i < n {
      SetXattrsLast(names[..n], attrs, i);
    }
  }

  lemma {:induction false} SetXattrsFrom(names: seq<string>, attrs: map<string, seq<byte>>)
    requires forall n | n in names :: n in attrs
    ensures forall k | k in SetXattrs(map[], names, attrs) :: exists n :: n in names && Until(n, '\0') == k
    decreases |names|
  {
    hide Until;
    if names != [] {
      var n := |names| - 1;
      assert names[n] in names;
      SetXattrsFrom(names[..n], attrs);
      forall k | k in SetXattrs(map[], names, attrs) ensures exists n :: n in names && Until(n, '\0') == k {
        if k != Until(names[n], '\0') {
          assert k in SetXattrs(map[], names[..n], attrs);
          var m :| m in names[..n] && Until(m, '\0') == k;
          assert m in names;
        }
      }
    }
  }

  /** The attributes of a copy: of the names that are the same up to their first null,
      the last in the order of the map gives the value. */
  lemma CopyAttributes(src: Object, n: string)
    requires n in src.xattrs
    requires forall m | m in src.xattrs && StringLess(n, m) :: Until(m, '\0') != Until(n, '\0')
    ensures var k := Until(n, '\0'); k in CopyOf(src).xattrs && CopyOf(src).xattrs[k] == src.xattrs[n]
    ensures forall k | k in CopyOf(src).xattrs :: exists m :: m in src.xattrs && Until(m, '\0') == k
  {
    hide Until, StringLess;
    var names := InStringOrder(src.xattrs.Keys);
    StringOrder();
    InOrderIncreasing(src.xattrs.Keys, StringLess);
    var i :| 0 <= i < |names| && names[i] == n;
    forall j | i < j < |names| ensures Until(names[j], '\0') != Until(names[i], '\0') {
      assert names[j] in names && StringLess(names[i], names[j]);
    }
    SetXattrsLast(names, src.xattrs, i);
    SetXattrsFrom(names, src.xattrs);
  }

  /** A copy that was broken off, and that could not be removed. */
  ghost predicate PartOf(o: Object, src: Object) {
    && o.data <= src.data && o.xattrs == CNamed(src.xattrs) && o.omapHeader == src.omapHeader
    && Initial(src.omap, "", o.omap)
  }

  /** Whatever was there before, these operations leave this object. */
  ghost predicate Leaves(ops: seq<WriteOp>, obj: Object) {
    forall o :: WroteAll(o, ops) == Some(obj)
  }

  lemma LeavesSnoc(ops: seq<WriteOp>, obj: Object, op: WriteOp, next: Object)
    requires Leaves(ops, obj) && Wrote(Some(obj), op) == Some(next)
    ensures Leaves(ops + [op], next)
  {
    forall o ensures WroteAll(o, ops + [op]) == Some(next) {
      WroteSnoc(o, ops, op);
    }
  }

  lemma SetXattrsNext(names: seq<string>, i: nat, attrs: map<string, seq<byte>>)
    requires i < |names| && forall n | n in names :: n in attrs
    ensures SetXattrs(map[], names[..i + 1], attrs)
         == SetXattrs(map[], names[..i], attrs)[Until(names[i], '\0') := attrs[names[i]]]
  {
    assert names[..i + 1][..i] == names[..i];
  }

  /** The compound write that do_copy starts with. */
  method FirstWrite(outdata: seq<byte>, attrset: map<string, seq<byte>>, header: seq<byte>, omap: Omap)
    returns (ops: seq<WriteOp>)
    ensures Leaves(ops, Object(outdata, CNamed(attrset), header, omap))
  {
    ops := [Create, Remove, WriteFull(outdata), OmapSetHeader(header)];
    FirstOps(outdata, header);
    var names := TraverseStrings(attrset.Keys);
    assert forall n | n in names :: n in attrset;
    for i := 0 to |names|
      invariant Leaves(ops, Object(outdata, SetXattrs(map[], names[..i], attrset), header, map[]))
    {
      var op := SetXattr(Until(names[i], '\0'), attrset[names[i]]);
      SetXattrsNext(names, i, attrset);
      LeavesSnoc(ops, Object(outdata, SetXattrs(map[], names[..i], attrset), header, map[]), op,
                 Object(outdata, SetXattrs(map[], names[..i + 1], attrset), header, map[]));
      ops := ops + [op];
    }
    assert names[..|names|] == names;
    if omap != map[] {
      assert map[] + omap == omap;
      LeavesSnoc(ops, Object(outdata, CNamed(attrset), header, map[]), OmapSet(omap),
                 Object(outdata, CNamed(attrset), header, omap));
      ops := ops + [OmapSet(omap)];
    }
  }

  lemma FirstOps(outdata: seq<byte>, header: seq<byte>)
    ensures Leaves([Create, Remove, WriteFull(outdata), OmapSetHeader(header)], Object(outdata, map[], header, map[]))
  {
    var ops := [Create, Remove, WriteFull(outdata), OmapSetHeader(header)];
    forall o ensures WroteAll(o, ops) == Some(Object(outdata, map[], header, map[])) {
      var a := [Create, Remove];
      assert [Create] + [Remove] == a;
      WroteSnoc(o, [Create], Remove);
      WroteSnoc(o, a, WriteFull(outdata));
      WroteSnoc(o, a + [WriteFull(outdata)], OmapSetHeader(header));
      assert a + [WriteFull(outdata)] + [OmapSetHeader(header)] == ops;
    }
  }

  lemma NextChunk(data: seq<byte>, off: nat)
    requires |Chunk(data, off)| == COPY_CHUNK_SIZE
    ensures off + COPY_CHUNK_SIZE <= |data|
    ensures var next := off + COPY_CHUNK_SIZE;
            Overlay(data[..next], next, Chunk(data, next)) == data[..next + |Chunk(data, next)|]
  {
    var next := off + COPY_CHUNK_SIZE;
    assert data[..next][..next] == data[..next];
  }

  /** The data loop: further chunks as long as they are full. */
  method CopyData(src: Object, target: Pool, oid: string, first: seq<byte>) returns (ret: int)
    requires first == Chunk(src.data, 0) && oid in target.objects && target.objects[oid].data == first
    modifies target`objects
    ensures target.Only(oid, old(target.objects)) && oid in target.objects
    ensures exists data | data <= src.data :: target.objects[oid] == old(target.objects[oid]).(data := data)
    ensures ret >= 0 ==> target.objects[oid].data == src.data
  {
    ghost var o := target.objects[oid];
    var off, outdata := 0, first;
    ret := 0;
    while |outdata| == COPY_CHUNK_SIZE
      invariant 0 <= off && outdata == Chunk(src.data, off) && off <= |src.data|
      invariant oid in target.objects && target.Only(oid, old(target.objects))
      invariant target.objects[oid] == o.(data := src.data[..off + |outdata|])
      invariant ret >= 0
      decreases |src.data| - off
    {
      NextChunk(src.data, off);
      off := off + |outdata|;
      ret, outdata := ReadChunk(src, off);
      if ret < 0 {
        return;
      }
      ret := target.Write(oid, outdata, off);
      if ret < 0 {
        return;
      }
    }
  }

  /** The keys of the pages, one page after the other. */
  ghost function Visited(pages: seq<Omap>): seq<string> {
    if pages == [] then [] else Visited(pages[..|pages| - 1]) + InStringOrder(pages[|pages| - 1].Keys)
  }

  lemma VisitedSnoc(pages: seq<Omap>, page: Omap, before: set<string>)
    requires Visited(pages) == InStringOrder(before)
    requires forall k, j | k in before && j in page :: StringLess(k, j)
    ensures Visited(pages + [page]) == InStringOrder(before + page.Keys)
  {
    assert (pages + [page])[..|pages|] == pages;
    OrderConcat(before, page.Keys);
  }

  lemma OrderConcat(a: set<string>, b: set<string>)
    requires forall k, j | k in a && j in b :: StringLess(k, j)
    ensures InStringOrder(a + b) == InStringOrder(a) + InStringOrder(b)
  {
    StringOrder();
    var x, y := InStringOrder(a), InStringOrder(b);
    InOrderIncreasing(a, StringLess);
    InOrderIncreasing(b, StringLess);
    forall i, j | 0 <= i < j < |x + y| ensures StringLess((x + y)[i], (x + y)[j]) {
      if i < |x| <= j {
        assert x[i] in x && y[j - |x|] in y;
      }
    }
    InOrderUnique(a + b, StringLess, x + y);
  }

  /** The last key of the traversal. */
  lemma LastListed(page: Omap)
    requires page != map[]
    ensures var keys := InStringOrder(page.Keys); keys != [] && IsLast(page, keys[|keys| - 1])
  {
    var keys := InStringOrder(page.Keys);
    StringOrder();
    InOrderIncreasing(page.Keys, StringLess);
    var some :| some in page;
    assert some in keys;
    var last := keys[|keys| - 1];
    assert last in keys;
    forall k | k in page ensures k == last || StringLess(k, last) {
      assert k in keys;
      var i :| 0 <= i < |keys| && keys[i] == k;
    }
  }

  method LastKey(page: Omap) returns (last: string)
    requires page != map[]
    ensures IsLast(page, last)
  {
    var keys := TraverseStrings(page.Keys);
    LastListed(page);
    last := keys[|keys| - 1];
  }

  /** Between the pages: all that was copied, the last page of it, and all pages. */
  ghost predicate BetweenPages(src: Omap, all: Omap, page: Omap, pages: seq<Omap>) {
    && Initial(src, "", all) && (|page| == OMAP_CHUNK || Whole(src, "", all))
    && Visited(pages) == InStringOrder(all.Keys)
    && (page == map[] || exists last :: IsLast(page, last) && IsLast(all, last))
  }

  lemma LastUnique(page: Omap, a: string, b: string)
    requires IsLast(page, a) && IsLast(page, b)
    ensures a == b
  {
    StringLessConnected(a, a);
    if a != b {
      StringLessTransitive(a, b, a);
    }
  }

  lemma NextBetween(src: Omap, all: Omap, page: Omap, pages: seq<Omap>, last: string, next: Omap)
    requires BetweenPages(src, all, page, pages) && IsLast(page, last) && IsPage(src, last, OMAP_CHUNK, next)
    ensures next == map[] ==> BetweenPages(src, all, next, pages)
    ensures next != map[] ==>
              BetweenPages(src, all + next, next, pages + [next])
              && src.Keys - (all + next).Keys < src.Keys - all.Keys
  {
    hide Visited, InStringOrder, Whole;
    var end :| IsLast(page, end) && IsLast(all, end);
    LastUnique(page, last, end);
    NextPage(src, "", all, last, next);
    if next == map[] {
      assert all + next == all;
    } else {
      VisitedSnoc(pages, next, all.Keys);
      NextEnds(all, last, next);
      FewerLeft(src, all, next);
    }
  }

  lemma NextEnds(all: Omap, last: string, next: Omap)
    requires IsLast(all, last) && next != map[] && forall k, j | k in all && j in next :: StringLess(k, j)
    ensures exists end :: IsLast(next, end) && IsLast(all + next, end)
    ensures forall k | k in next :: k !in all
  {
    forall k | k in next ensures k !in all {
      StringLessConnected(k, k);
    }
    LastExists(next);
    var end :| IsLast(next, end);
    LastOfBoth(all, last, next, end);
  }

  lemma FewerLeft(src: Omap, all: Omap, next: Omap)
    requires next != map[] && forall k | k in next :: k in src && k !in all
    ensures src.Keys - (all + next).Keys < src.Keys - all.Keys
  {
    var k :| k in next;
    assert k in src.Keys - all.Keys && k !in src.Keys - (all + next).Keys;
  }

  lemma LastExists(page: Omap)
    requires page != map[]
    ensures exists last :: IsLast(page, last)
  {
    LastListed(page);
  }

  lemma FirstBetween(src: Omap, first: Omap)
    requires IsPage(src, "", OMAP_CHUNK, first)
    ensures BetweenPages(src, first, first, [first])
  {
    assert [first][..0] == [];
    if first != map[] {
      LastExists(first);
    }
  }

  /** The omap loop: further pages as long as they are full.  The pages list every
      key but the empty one exactly once and in order. */
  method CopyOmap(src: Object, target: Pool, oid: string, first: Omap) returns (ret: int, ghost pages: seq<Omap>)
    requires IsPage(src.omap, "", OMAP_CHUNK, first) && oid in target.objects && target.objects[oid].omap == first
    modifies target`objects
    ensures target.Only(oid, old(target.objects)) && oid in target.objects
    ensures target.objects[oid] == old(target.objects[oid]).(omap := target.objects[oid].omap)
    ensures Initial(src.omap, "", target.objects[oid].omap)
    ensures ret >= 0 ==> target.objects[oid].omap == Keyed(src.omap)
    ensures ret >= 0 ==> Visited(pages) == InStringOrder(Keyed(src.omap).Keys)
  {
    ghost var o := target.objects[oid];
    ghost var all := first;
    var omap := first;
    pages := [first];
    ret := 0;
    FirstBetween(src.omap, first);
    while |omap| == OMAP_CHUNK
      invariant oid in target.objects && target.Only(oid, old(target.objects))
      invariant target.objects[oid] == o.(omap := all)
      invariant BetweenPages(src.omap, all, omap, pages)
      invariant ret >= 0
      decreases src.omap.Keys - all.Keys
    {
      var startAfter := LastKey(omap);
      ret, omap, all, pages := NextVals(src, target, oid, startAfter, all, omap, pages);
      if ret < 0 {
        return;
      }
      if omap == map[] {
        break;
      }
    }
    WholeIsKeyed(src.omap, all);
  }

  /** One turn of the omap loop: the next page is read and, unless it is empty,
      set on the target. */
  method NextVals(src: Object, target: Pool, oid: string, startAfter: string,
                  ghost before: Omap, ghost page: Omap, ghost pages: seq<Omap>)
    returns (ret: int, omap: Omap, ghost all: Omap, ghost visited: seq<Omap>)
    requires oid in target.objects && target.objects[oid].omap == before
    requires BetweenPages(src.omap, before, page, pages) && IsLast(page, startAfter)
    modifies target`objects
    ensures target.Only(oid, old(target.objects)) && oid in target.objects
    ensures target.objects[oid] == old(target.objects[oid]).(omap := all)
    ensures Initial(src.omap, "", all)
    ensures ret >= 0 ==> BetweenPages(src.omap, all, omap, visited)
    ensures ret >= 0 && omap != map[] ==> src.omap.Keys - all.Keys < src.omap.Keys - before.Keys
  {
    all, visited := before, pages;
    ret, omap := OmapGetVals(src, startAfter, OMAP_CHUNK);
    if ret < 0 {
      return;
    }
    NextBetween(src.omap, before, page, pages, startAfter, omap);
    if omap == map[] {
      return;
    }
    SetOnce(target.At(oid), omap);
    ret := target.Operate(oid, [OmapSet(omap)]);
    if ret >= 0 {
      all, visited := before + omap, pages + [omap];
    }
  }

  lemma SetOnce(o: Option<Object>, vals: Omap)
    ensures WroteAll(o, [OmapSet(vals)]) == Some(Touched(o).(omap := Touched(o).omap + vals))
  {
    assert [OmapSet(vals)][..0] == [];
  }

  /** do_copy.  A copy that succeeds leaves exactly the copy of the source; one
      that fails leaves the target as it was, removed, or, if it could not be
      removed, a part of the copy.  Nothing else in the pool changes. */
  method DoCopy(src: Option<Object>, target: Pool, oid: string) returns (ret: int)
    modifies target
    ensures target.Only(oid, old(target.objects))
    ensures ret >= 0 ==> src.Some? && target.At(oid) == Some(CopyOf(src.value))
    ensures ret < 0 ==>
              || target.objects == old(target.objects)
              || target.At(oid) == None
              || (src.Some? && target.At(oid).Some? && PartOf(target.At(oid).value, src.value)
                  && target.refused == old(target.refused) + 1)
  {
    var outdata, attrset, header, omap;
    ret, outdata, attrset, header, omap := ReadFirst(src);
    if ret < 0 {
      return;
    }
    var ops := FirstWrite(outdata, attrset, header, omap);
    ret := target.Operate(oid, ops);
    if ret < 0 {
      return;
    }
    ret := CopyData(src.value, target, oid, outdata);
    if ret >= 0 {
      ghost var pages;
      ret, pages := CopyOmap(src.value, target, oid, omap);
    }
    if ret < 0 {
      var _ := target.RemoveObject(oid);
      return;
    }
    ret := 0;
  }
}
