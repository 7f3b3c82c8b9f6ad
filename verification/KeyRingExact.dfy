/** The round trip of a whole keyring holds if and only if the keyring is readable. */
module KeyRingExact {
  import opened Basics
  import opened ConfUtils
  import opened ConfLines
  import opened ConfText
  import opened ConfRoundTrip
  import opened ConfShrink
  import opened ConfExact
  import opened ConfFileExact
  import opened Crypto
  import opened KeyRing
  import opened KeyRingRoundTrip
  import opened Ordered
  import Armor
  import Decimal

  // ----- what was decoded was written in a section -----

  predicate IsSource(lines: map<string, string>, k: string, sub: string, val: string) {
    k in lines && Respaced(k) == "caps " + sub && lines[k] == val
  }

  ghost predicate CapSourced(lines: map<string, string>, sub: string, val: string) {
    exists k :: IsSource(lines, k, sub, val)
  }

  ghost predicate CapsSourced(lines: map<string, string>, caps: map<string, string>) {
    forall sub | sub in caps :: CapSourced(lines, sub, caps[sub])
  }

  ghost predicate AuthSourced(sections: Sections, name: EntityName, auth: EntityAuth) {
    && |auth.key.secret| < 0x1_0000
    && ToStr(name) in sections && CapsSourced(sections[ToStr(name)], auth.caps)
  }

  ghost predicate RingSourced(sections: Sections, keys: Keys) {
    forall name | name in keys :: AuthSourced(sections, name, keys[name])
  }

  lemma KeyBounded(text: string)
    ensures KeyFromText(text).Some? ==> |KeyFromText(text).value.secret| < 0x1_0000
  {
  }

  lemma AtSourced(sections: Sections, keys: Keys, name: EntityName)
    requires RingSourced(sections, keys) && ToStr(name) in sections
    ensures AuthSourced(sections, name, At(keys, name))
  {
    if name in keys {
      assert AuthSourced(sections, name, keys[name]);
    }
  }

  lemma PutSourced(sections: Sections, keys: Keys, name: EntityName, auth: EntityAuth)
    requires RingSourced(sections, keys) && AuthSourced(sections, name, auth)
    ensures RingSourced(sections, keys[name := auth])
  {
    var next := keys[name := auth];
    forall n | n in next ensures AuthSourced(sections, n, next[n]) {
      assert n in keys ==> AuthSourced(sections, n, keys[n]);
    }
  }

  lemma CapPut(lines: map<string, string>, caps: map<string, string>, k: string, sub: string)
    requires CapsSourced(lines, caps) && k in lines && Respaced(k) == "caps " + sub
    ensures CapsSourced(lines, caps[sub := lines[k]])
  {
    var next := caps[sub := lines[k]];
    forall s | s in next ensures CapSourced(lines, s, next[s]) {
      if s == sub {
        assert IsSource(lines, k, sub, lines[k]);
      } else {
        assert CapSourced(lines, s, caps[s]);
      }
    }
  }

  lemma ModifiedSourced(sections: Sections, d: Decoding, name: EntityName, k: string)
    requires RingSourced(sections, d.keys) && ToStr(name) in sections && k in sections[ToStr(name)]
    requires CapsSourced(sections[ToStr(name)], d.caps)
    ensures var r := Modified(d, name, Respaced(k), sections[ToStr(name)][k]);
            RingSourced(sections, r.keys) && CapsSourced(sections[ToStr(name)], r.caps)
  {
    var typ, lines := Respaced(k), sections[ToStr(name)];
    AtSourced(sections, d.keys, name);
    var auth := At(d.keys, name);
    if typ == "key" {
      KeyBounded(lines[k]);
      if KeyFromText(lines[k]).Some? {
        PutSourced(sections, d.keys, name, auth.(key := KeyFromText(lines[k]).value));
      }
    } else if "caps " <= typ {
      if typ != "caps " {
        assert typ == "caps " + typ[5..];
        CapPut(lines, d.caps, k, typ[5..]);
        PutSourced(sections, d.keys, name, auth.(caps := d.caps[typ[5..] := lines[k]]));
      }
    } else if typ == "auid" {
      PutSourced(sections, d.keys, name, auth.(auid := Decimal.Strtoull(lines[k])));
    }
  }

  lemma {:induction false} LinesSourced(sections: Sections, d: Decoding, name: EntityName, ks: seq<string>)
    requires RingSourced(sections, d.keys) && ToStr(name) in sections
    requires CapsSourced(sections[ToStr(name)], d.caps)
    requires forall k | k in ks :: k in sections[ToStr(name)]
    ensures RingSourced(sections, DecodedLines(d, name, sections[ToStr(name)], ks).keys)
    decreases |ks|
  {
    if ks != [] && d.ok {
      if ks[0] == "" {
        LinesSourced(sections, d, name, ks[1..]);
      } else {
        ModifiedSourced(sections, d, name, ks[0]);
        LinesSourced(sections, Modified(d, name, Respaced(ks[0]), sections[ToStr(name)][ks[0]]), name, ks[1..]);
      }
    }
  }

  lemma ToStrFromStr(s: string)
    ensures FromStr(s).Some? ==> ToStr(FromStr(s).value) == s
  {
    var pos := DotAt(s);
    if pos < |s| {
      assert s == s[..pos] + "." + s[pos + 1..];
    }
  }

  lemma SectionSourced(sections: Sections, d: Decoding, section: string)
    requires RingSourced(sections, d.keys) && section in sections
    ensures RingSourced(sections, DecodedSection(d, section, sections[section]).keys)
  {
    ToStrFromStr(section);
    if section != "global" && FromStr(section).Some? {
      LinesSourced(sections, d.(caps := map[]), FromStr(section).value, InStringOrder(sections[section].Keys));
    }
  }

  lemma {:induction false} SectionsSourced(sections: Sections, d: Decoding, names: seq<string>)
    requires RingSourced(sections, d.keys) && forall s | s in names :: s in sections
    ensures RingSourced(sections, DecodedSections(d, sections, names).keys)
    decreases |names|
  {
    if names != [] && d.ok {
      SectionSourced(sections, d, names[0]);
      SectionsSourced(sections, DecodedSection(d, names[0], sections[names[0]]), names[1..]);
    }
  }

  /** Every cap that is decoded stands in the section of its entity, under the key
      that print writes for it. */
  lemma DecodedSourced(text: string, isUtf8: string -> bool)
    ensures RingSourced(Loaded(text, isUtf8), Decoded(map[], text, isUtf8).keys)
  {
    var sections := Loaded(text, isUtf8);
    SectionsSourced(sections, Decoding(map[], map[], true), InStringOrder(sections.Keys));
  }

  lemma UnderscoredRespaced(k: string)
    requires ' ' !in k
    ensures Underscored(Respaced(k)) == k && '_' !in Respaced(k)
  {
    forall i | 0 <= i < |k| ensures Underscored(Respaced(k))[i] == k[i] {
      assert k[i] in k;
    }
  }

  lemma CapHeld(lines: map<string, string>, sub: string, val: string)
    requires CleanTable(lines) && CapSourced(lines, sub, val)
    ensures '_' !in sub && Clean(sub) && Clean(val)
    ensures CapsKey(sub) in lines && lines[CapsKey(sub)] == val
  {
    var k :| IsSource(lines, k, sub, val);
    UnderscoredRespaced(k);
    assert Respaced(k)[5..] == sub;
    forall c | c in sub ensures c != '_' && c != '\n' && c != '\0' {
      var i :| 0 <= i < |sub| && sub[i] == c;
      assert Respaced(k)[i + 5] == c && Respaced(k)[i + 5] in Respaced(k) && k[i + 5] in k;
    }
  }

  // ----- the lines of a keyring -----

  function CapsTags(s: string, caps: map<string, string>, subs: seq<string>): seq<Tag>
    requires forall x | x in subs :: x in caps
  {
    if subs == [] then [] else [Quoted(s, "caps " + subs[0], caps[subs[0]])] + CapsTags(s, caps, subs[1..])
  }

  function HeadTags(s: string, auth: EntityAuth): seq<Tag> {
    [Bare(s, "key", BareLine("key", KeyText(auth.key)))]
    + (if auth.auid != AUID_DEFAULT then [Bare(s, "auid", BareLine("auid", Decimal.Printed(auth.auid)))] else [])
  }

  ghost function AuthTags(s: string, auth: EntityAuth): seq<Tag> {
    HeadTags(s, auth) + CapsTags(s, auth.caps, InStringOrder(auth.caps.Keys))
  }

  ghost function RingBlocks(keys: Keys, names: seq<EntityName>): (r: seq<Block>)
    requires forall n | n in names :: n in keys
    ensures |r| == |names|
    ensures forall i | 0 <= i < |r| :: r[i] == Block(ToStr(names[i]), AuthTags(ToStr(names[i]), keys[names[i]]))
  {
    seq(|names|, i requires 0 <= i < |names| => Block(ToStr(names[i]), AuthTags(ToStr(names[i]), keys[names[i]])))
  }

  ghost function RingTags(keys: Keys): seq<Tag> {
    TagsOf(RingBlocks(keys, InEntityOrder(keys.Keys)))
  }

  lemma {:induction false} CapsTagsTexts(s: string, caps: map<string, string>, subs: seq<string>)
    requires forall x | x in subs :: x in caps
    ensures Texts(CapsTags(s, caps, subs)) == CapsTexts(caps, subs)
  {
    if subs != [] {
      CapsTagsTexts(s, caps, subs[1..]);
      TextsJoined([Quoted(s, "caps " + subs[0], caps[subs[0]])], CapsTags(s, caps, subs[1..]));
    }
  }

  lemma AuthTagsTexts(s: string, auth: EntityAuth)
    ensures Texts(AuthTags(s, auth)) == AuthTexts(auth)
  {
    hide InStringOrder, CapsTags, BareLine, KeyLine, KeyText, Decimal.Printed;
    var subs := InStringOrder(auth.caps.Keys);
    CapsTagsTexts(s, auth.caps, subs);
    TextsJoined(HeadTags(s, auth), CapsTags(s, auth.caps, subs));
    assert Texts(HeadTags(s, auth)) == HeadTexts(auth);
  }

  lemma {:induction false} RingTagsTexts(keys: Keys, names: seq<EntityName>)
    requires forall n | n in names :: n in keys
    ensures Texts(TagsOf(RingBlocks(keys, names))) == RingTexts(keys, names)
  {
    if names != [] {
      var blocks := RingBlocks(keys, names);
      assert blocks[1..] == RingBlocks(keys, names[1..]);
      RingTagsTexts(keys, names[1..]);
      AuthTagsTexts(ToStr(names[0]), keys[names[0]]);
      BlockTexts(blocks);
    }
  }

  lemma {:induction false} CapsTagsExact(s: string, caps: map<string, string>, subs: seq<string>, t: Tag)
    requires forall x | x in subs :: x in caps
    ensures t in CapsTags(s, caps, subs) <==> exists x :: x in subs && t == Quoted(s, "caps " + x, caps[x])
  {
    if subs != [] {
      CapsTagsExact(s, caps, subs[1..], t);
    }
  }

  lemma CapsIdsDiffer(s: string, x: string, y: string, v: string, w: string)
    requires '_' !in x && '_' !in y && x != y
    ensures Different(Quoted(s, "caps " + x, v), Quoted(s, "caps " + y, w))
  {
    if CapsKey(x) == CapsKey(y) {
      CapsKeyInjective(x, y);
    }
  }

  lemma {:induction false} CapsTagsDifferent(s: string, caps: map<string, string>, subs: seq<string>)
    requires Distinct(subs) && forall x | x in subs :: x in caps && '_' !in x
    ensures AllDifferent(CapsTags(s, caps, subs))
  {
    if subs != [] {
      var x, rest := subs[0], CapsTags(s, caps, subs[1..]);
      var t := Quoted(s, "caps " + x, caps[x]);
      assert forall i, j | 0 <= i < j < |subs[1..]| :: subs[1..][i] == subs[i + 1] && subs[1..][j] == subs[j + 1];
      CapsTagsDifferent(s, caps, subs[1..]);
      forall u | u in rest ensures Different(t, u) {
        CapsTagsExact(s, caps, subs[1..], u);
        var y :| y in subs[1..] && u == Quoted(s, "caps " + y, caps[y]);
        assert x != y;
        CapsIdsDiffer(s, x, y, caps[x], caps[y]);
      }
      DifferentJoined([t], rest);
    }
  }

  predicate NoUnderscores(auth: EntityAuth) {
    forall x | x in auth.caps :: '_' !in x
  }

  lemma CapsTagsQuoted(s: string, auth: EntityAuth)
    ensures forall t | t in CapsTags(s, auth.caps, InStringOrder(auth.caps.Keys)) ::
              t.Quoted? && t.section == s && "caps " <= t.name
  {
    var subs := InStringOrder(auth.caps.Keys);
    forall t | t in CapsTags(s, auth.caps, subs) ensures t.Quoted? && t.section == s && "caps " <= t.name {
      CapsTagsExact(s, auth.caps, subs, t);
    }
  }

  lemma HeadTagsOk(s: string, auth: EntityAuth)
    ensures AllDifferent(HeadTags(s, auth)) && forall t | t in HeadTags(s, auth) :: t.Bare? && t.section == s
  {
  }

  lemma AuthTagsDifferent(s: string, auth: EntityAuth)
    requires NoUnderscores(auth)
    ensures AllDifferent(AuthTags(s, auth))
  {
    hide AllDifferent, HeadTags, CapsTags, InStringOrder;
    var subs := InStringOrder(auth.caps.Keys);
    InStringOrderDistinct(auth.caps.Keys);
    CapsTagsDifferent(s, auth.caps, subs);
    CapsTagsQuoted(s, auth);
    HeadTagsOk(s, auth);
    DifferentJoined(HeadTags(s, auth), CapsTags(s, auth.caps, subs));
  }

  lemma AuthBlockOk(s: string, auth: EntityAuth)
    requires NoUnderscores(auth)
    ensures BlockOk(Block(s, AuthTags(s, auth)))
  {
    hide AllDifferent, HeadTags, CapsTags, InStringOrder;
    AuthTagsDifferent(s, auth);
    CapsTagsQuoted(s, auth);
    HeadTagsOk(s, auth);
    var tags := AuthTags(s, auth);
    forall i | 0 <= i < |tags| ensures !tags[i].Header? && tags[i].section == s {
      assert tags[i] in HeadTags(s, auth) || tags[i] in CapsTags(s, auth.caps, InStringOrder(auth.caps.Keys));
    }
  }

  // ----- the converse -----

  function RingIds(keys: Keys): set<Id> {
    set n, x | n in keys && x in keys[n].caps :: (ToStr(n), CapsKey(x))
  }

  function RingNames(keys: Keys): set<string> {
    set n | n in keys :: ToStr(n)
  }

  ghost predicate Plain(keys: Keys) {
    forall n | n in keys :: NoUnderscores(keys[n])
  }

  lemma RingBlocksOk(keys: Keys)
    requires Plain(keys)
    ensures BlocksOk(RingBlocks(keys, InEntityOrder(keys.Keys)))
  {
    var names := InEntityOrder(keys.Keys);
    var blocks := RingBlocks(keys, names);
    EntityOrder();
    InOrderIncreasing(keys.Keys, EntityLess);
    forall i | 0 <= i < |blocks| ensures BlockOk(blocks[i]) {
      assert names[i] in names;
      AuthBlockOk(ToStr(names[i]), keys[names[i]]);
    }
    forall i, j | 0 <= i < j < |blocks| ensures blocks[i].section != blocks[j].section {
      assert EntityLess(names[i], names[j]);
      if ToStr(names[i]) == ToStr(names[j]) {
        ToStrInjective(names[i], names[j]);
      }
    }
  }

  /** The lines of an entity. */
  predicate InAuth(s: string, auth: EntityAuth, t: Tag) {
    match t
    case Header(_) => false
    case Quoted(u, k, v) => u == s && "caps " <= k && k[5..] in auth.caps && v == auth.caps[k[5..]]
    case Bare(u, k, line) =>
      && u == s
      && ((k == "key" && line == BareLine("key", KeyText(auth.key)))
          || (k == "auid" && auth.auid != AUID_DEFAULT && line == BareLine("auid", Decimal.Printed(auth.auid))))
  }

  lemma HeadTagsExact(s: string, auth: EntityAuth, t: Tag)
    ensures t in HeadTags(s, auth) <==> t.Bare? && InAuth(s, auth, t)
  {
    hide BareLine, KeyText, Decimal.Printed;
  }

  lemma QuotedTagsExact(s: string, auth: EntityAuth, t: Tag)
    ensures t in CapsTags(s, auth.caps, InStringOrder(auth.caps.Keys)) <==> t.Quoted? && InAuth(s, auth, t)
  {
    hide CapsTags, BareLine, KeyText, Decimal.Printed;
    var subs := InStringOrder(auth.caps.Keys);
    CapsTagsExact(s, auth.caps, subs, t);
    if InAuth(s, auth, t) && t.Quoted? {
      assert t.name == "caps " + t.name[5..] && t.name[5..] in subs;
    }
    if x :| x in subs && t == Quoted(s, "caps " + x, auth.caps[x]) {
      assert ("caps " + x)[5..] == x;
    }
  }

  lemma AuthTagsExact(s: string, auth: EntityAuth, t: Tag)
    ensures t in AuthTags(s, auth) <==> InAuth(s, auth, t)
  {
    hide CapsTags, HeadTags, InStringOrder, BareLine, KeyText, Decimal.Printed;
    HeadTagsExact(s, auth, t);
    QuotedTagsExact(s, auth, t);
  }

  predicate InRing(keys: Keys, n: EntityName, t: Tag) {
    n in keys && (t == Header(ToStr(n)) || InAuth(ToStr(n), keys[n], t))
  }

  lemma RingTagsSound(keys: Keys, t: Tag)
    requires t in RingTags(keys)
    ensures exists n :: InRing(keys, n, t)
  {
    var names := InEntityOrder(keys.Keys);
    var blocks := RingBlocks(keys, names);
    TagsIn(blocks, t);
    var i :| 0 <= i < |blocks| && (t == Header(blocks[i].section) || t in blocks[i].entries);
    assert names[i] in names;
    AuthTagsExact(ToStr(names[i]), keys[names[i]], t);
    assert InRing(keys, names[i], t);
  }

  lemma RingTagsComplete(keys: Keys, n: EntityName, t: Tag)
    requires InRing(keys, n, t)
    ensures t in RingTags(keys)
  {
    var names := InEntityOrder(keys.Keys);
    var blocks := RingBlocks(keys, names);
    TagsIn(blocks, t);
    assert n in names;
    var i :| 0 <= i < |names| && names[i] == n;
    AuthTagsExact(ToStr(n), keys[n], t);
    assert blocks[i].section == ToStr(n);
  }

  lemma BareReads(k: string, v: string)
    requires k == "key" || k == "auid"
    requires BareOk(v)
    ensures ParseLine(BareLine(k, v)) == Line(ConfLine(k, v, ""))
  {
    hide BareOk, ParseLine, BareLine;
    assert Underscored("key") == "key" && Underscored("auid") == "auid";
    ParseBareLine(k, v);
  }

  lemma InRingBare(keys: Keys, n: EntityName, t: Tag)
    requires InRing(keys, n, t) && t.Bare?
    ensures ParseLine(t.line).Line? && ParseLine(t.line).line.newsection == "" && ParseLine(t.line).line.key == t.key
    ensures t.key == "key" || t.key == "auid"
  {
    hide BareOk, ParseLine, BareLine, KeyText, Decimal.Printed;
    KeyTextIsBare(keys[n].key);
    PrintedIsBare(keys[n].auid);
    BareReads("key", KeyText(keys[n].key));
    BareReads("auid", Decimal.Printed(keys[n].auid));
  }

  lemma BareTagOk(keys: Keys, n: EntityName, t: Tag)
    requires InRing(keys, n, t) && t.Bare?
    ensures TagOk(t, RingIds(keys), RingNames(keys))
  {
    hide InRing, ParseLine, CapsKey;
    InRingBare(keys, n, t);
    forall p | p in RingIds(keys) ensures p.1 != t.key {
      var m, x :| m in keys && x in keys[m].caps && p == (ToStr(m), CapsKey(x));
      CapsKeyOther(x);
    }
  }

  lemma RingTagOk(keys: Keys, n: EntityName, t: Tag)
    requires InRing(keys, n, t)
    ensures TagOk(t, RingIds(keys), RingNames(keys))
  {
    match t {
      case Header(_) => {}
      case Quoted(s, k, _) =>
        assert k == "caps " + k[5..];
        assert (ToStr(n), CapsKey(k[5..])) in RingIds(keys);
      case Bare(_, _, _) =>
        BareTagOk(keys, n, t);
    }
  }

  lemma RingTagged(keys: Keys)
    requires Plain(keys)
    ensures Tagged(RingTags(keys), RingIds(keys), RingNames(keys)) && Placed(RingTags(keys))
  {
    var tags, blocks := RingTags(keys), RingBlocks(keys, InEntityOrder(keys.Keys));
    RingBlocksOk(keys);
    TagsDifferent(blocks);
    TagsPlaced(blocks);
    forall i | 0 <= i < |tags| ensures TagOk(tags[i], RingIds(keys), RingNames(keys)) {
      assert tags[i] in tags;
      RingTagsSound(keys, tags[i]);
      var n :| InRing(keys, n, tags[i]);
      RingTagOk(keys, n, tags[i]);
    }
    RingNamesProper(keys);
  }

  lemma RingNamesProper(keys: Keys)
    ensures "global" !in RingNames(keys) && forall p | p in RingIds(keys) :: p.1 != ""
  {
    forall n | n in keys ensures ToStr(n) != "global" {
      NotGlobal(n);
    }
  }

  /** Decoding what was printed gives the keyring back. */
  ghost predicate Regained(keys: Keys, isUtf8: string -> bool) {
    var d := Decoded(map[], PrintedRing(keys), isUtf8);
    d.ok && d.keys == keys
  }

  /** check_utf8 accepts every text of seven-bit characters. */
  ghost predicate AcceptsAscii(isUtf8: string -> bool) {
    forall s: string :: (forall c | c in s :: c < 128 as char) ==> isUtf8(s)
  }

  lemma RegainedCap(keys: Keys, isUtf8: string -> bool, n: EntityName, x: string)
    requires Regained(keys, isUtf8) && n in keys && x in keys[n].caps
    ensures var loaded := Loaded(PrintedRing(keys), isUtf8);
            && '_' !in x && Clean(x) && Clean(keys[n].caps[x])
            && Holds(loaded, ToStr(n), CapsKey(x)) && loaded[ToStr(n)][CapsKey(x)] == keys[n].caps[x]
  {
    var loaded := Loaded(PrintedRing(keys), isUtf8);
    DecodedSourced(PrintedRing(keys), isUtf8);
    LoadedClean(PrintedRing(keys), isUtf8);
    assert AuthSourced(loaded, n, keys[n]);
    assert CapSourced(loaded[ToStr(n)], x, keys[n].caps[x]);
    CapHeld(loaded[ToStr(n)], x, keys[n].caps[x]);
  }

  lemma RegainedName(keys: Keys, isUtf8: string -> bool, n: EntityName)
    requires Regained(keys, isUtf8) && n in keys
    ensures ToStr(n) in Loaded(PrintedRing(keys), isUtf8) && Clean(ToStr(n)) && |keys[n].key.secret| < 0x1_0000
  {
    DecodedSourced(PrintedRing(keys), isUtf8);
    LoadedClean(PrintedRing(keys), isUtf8);
    assert AuthSourced(Loaded(PrintedRing(keys), isUtf8), n, keys[n]);
  }

  lemma BareSingle(k: string, v: string)
    requires k == "key" || k == "auid"
    requires BareOk(v) && '\n' !in v
    ensures Single(BareLine(k, v))
  {
    var line := BareLine(k, v);
    if v != "" {
      assert line[|line| - 1] == v[|v| - 1] && v[|v| - 1] in v;
    }
  }

  lemma SectionLineSingle(s: string)
    requires Clean(s)
    ensures Single(SectionLine(s))
  {
  }

  lemma CapsLineSingle(x: string, v: string)
    requires Clean(x) && Clean(v)
    ensures Single(CapsLine(x, v))
  {
    var line := CapsLine(x, v);
    assert line[|line| - 1] == '"';
  }

  lemma HeadSingle(auth: EntityAuth)
    ensures Single(BareLine("key", KeyText(auth.key))) && Single(BareLine("auid", Decimal.Printed(auth.auid)))
  {
    KeyTextIsBare(auth.key);
    PrintedIsBare(auth.auid);
    BareSingle("key", KeyText(auth.key));
    BareSingle("auid", Decimal.Printed(auth.auid));
  }

  lemma RingTagSingle(keys: Keys, isUtf8: string -> bool, n: EntityName, t: Tag)
    requires Regained(keys, isUtf8) && InRing(keys, n, t)
    ensures Single(TextOf(t))
  {
    hide Regained, Loaded, PrintedRing, Single, Clean, SectionLine, BareLine, KeyText, Holds;
    match t {
      case Header(_) =>
        RegainedName(keys, isUtf8, n);
        SectionLineSingle(ToStr(n));
      case Quoted(_, k, v) =>
        var x := k[5..];
        assert k == "caps " + x;
        RegainedCap(keys, isUtf8, n, x);
        CapsLineSingle(x, v);
      case Bare(_, _, _) =>
        HeadSingle(keys[n]);
    }
  }

  lemma RegainedPlain(keys: Keys, isUtf8: string -> bool)
    requires Regained(keys, isUtf8)
    ensures Plain(keys)
  {
    hide Regained, PrintedRing, Loaded, Clean, Holds;
    forall n | n in keys ensures NoUnderscores(keys[n]) {
      forall x | x in keys[n].caps ensures '_' !in x {
        RegainedCap(keys, isUtf8, n, x);
      }
    }
  }

  lemma RingTagsSingle(keys: Keys, isUtf8: string -> bool)
    requires Regained(keys, isUtf8)
    ensures forall l | l in Texts(RingTags(keys)) :: Single(l)
  {
    hide Regained, RingTags, TextOf, Single, InRing;
    var tags := RingTags(keys);
    forall i | 0 <= i < |tags| ensures Single(TextOf(tags[i])) {
      assert tags[i] in tags;
      RingTagsSound(keys, tags[i]);
      var n :| InRing(keys, n, tags[i]);
      RingTagSingle(keys, isUtf8, n, tags[i]);
    }
  }

  lemma RegainedSeen(keys: Keys, isUtf8: string -> bool)
    requires Regained(keys, isUtf8)
    ensures Loaded(PrintedRing(keys), isUtf8) == SeenSections(RingTags(keys), isUtf8)
  {
    hide Regained, Loaded, SeenSections, Single, Texts, TagsOf;
    RingTagsSingle(keys, isUtf8);
    RingTagsTexts(keys, InEntityOrder(keys.Keys));
    LoadedSeen(RingTags(keys), isUtf8);
  }

  lemma RegainedHolds(keys: Keys, isUtf8: string -> bool)
    requires Regained(keys, isUtf8)
    ensures AllHeld(Loaded(PrintedRing(keys), isUtf8), RingIds(keys))
    ensures RingNames(keys) <= Loaded(PrintedRing(keys), isUtf8).Keys
  {
    hide Loaded, PrintedRing, Regained, Clean;
    forall p | p in RingIds(keys) ensures Holds(Loaded(PrintedRing(keys), isUtf8), p.0, p.1) {
      var n, x :| n in keys && x in keys[n].caps && p == (ToStr(n), CapsKey(x));
      RegainedCap(keys, isUtf8, n, x);
    }
    forall s | s in RingNames(keys) ensures s in Loaded(PrintedRing(keys), isUtf8) {
      var n :| n in keys && s == ToStr(n);
      RegainedName(keys, isUtf8, n);
    }
  }

  /** A keyring that is regained has every line of its caps and names seen and read. */
  lemma RegainedReads(keys: Keys, isUtf8: string -> bool)
    requires Regained(keys, isUtf8)
    ensures var tags := RingTags(keys);
            && Plain(keys) && Tagged(tags, RingIds(keys), RingNames(keys)) && Placed(tags)
            && AllRead(tags, isUtf8) && HeadersRead(tags, isUtf8)
    ensures forall s | s in RingNames(keys) :: isUtf8(SectionLine(s)) && SectionNameOk(s)
  {
    var tags, ids, names := RingTags(keys), RingIds(keys), RingNames(keys);
    hide Regained, Loaded, PrintedRing, Tagged, Placed, Plain, AllRead, HeadersRead, AllHeld, SeenSections,
         RingTags, RingIds, RingNames, SectionLine, SectionNameOk;
    RegainedPlain(keys, isUtf8);
    RegainedSeen(keys, isUtf8);
    RegainedHolds(keys, isUtf8);
    RingTagged(keys);
    EntriesCovered(tags, ids, names, isUtf8);
    SectionsCovered(tags, ids, names, isUtf8);
    RingHeadersRead(keys, isUtf8);
  }

  lemma RingHeadersRead(keys: Keys, isUtf8: string -> bool)
    requires forall s | s in RingNames(keys) :: isUtf8(SectionLine(s)) && SectionNameOk(s)
    ensures HeadersRead(RingTags(keys), isUtf8)
  {
    hide RingTags, SectionLine, SectionNameOk;
    var tags := RingTags(keys);
    forall i | 0 <= i < |tags| && tags[i].Header? ensures isUtf8(TextOf(tags[i])) && SectionNameOk(tags[i].section) {
      assert tags[i] in tags;
      RingTagsSound(keys, tags[i]);
      var n :| InRing(keys, n, tags[i]);
      assert tags[i].section in RingNames(keys);
    }
  }

  lemma CapTagged(keys: Keys, n: EntityName, x: string)
    requires n in keys && x in keys[n].caps
    ensures Quoted(ToStr(n), "caps " + x, keys[n].caps[x]) in RingTags(keys)
  {
    assert ("caps " + x)[5..] == x;
    RingTagsComplete(keys, n, Quoted(ToStr(n), "caps " + x, keys[n].caps[x]));
  }

  lemma RegainedCapOk(keys: Keys, isUtf8: string -> bool, n: EntityName, x: string)
    requires Regained(keys, isUtf8) && n in keys && x in keys[n].caps
    ensures SubsystemOk(x) && ValueOk(keys[n].caps[x]) && isUtf8(CapsLine(x, keys[n].caps[x]))
  {
    hide Regained, PrintedRing, Loaded, Tagged, Placed, AllRead, HeadersRead, RingTags, RingIds, RingNames,
         KeyLine, ValueOk, NameOk, Clean, Plain, ParseLine, SeenSections;
    RegainedReads(keys, isUtf8);
    RegainedCap(keys, isUtf8, n, x);
    RegainedSeen(keys, isUtf8);
    CapTagged(keys, n, x);
    TagNeeded(RingTags(keys), RingIds(keys), RingNames(keys), isUtf8, Quoted(ToStr(n), "caps " + x, keys[n].caps[x]));
  }

  lemma BareSeen(k: string, v: string, isUtf8: string -> bool)
    requires AcceptsAscii(isUtf8) && (k == "key" || k == "auid") && forall c | c in v :: c < 128 as char
    ensures isUtf8(BareLine(k, v))
  {
  }

  lemma HeadSeen(auth: EntityAuth, isUtf8: string -> bool)
    requires AcceptsAscii(isUtf8)
    ensures isUtf8(BareLine("key", KeyText(auth.key))) && isUtf8(BareLine("auid", Decimal.Printed(auth.auid)))
  {
    Armor.ArmorRoundTrip(EncodeKey(auth.key));
    BareSeen("key", KeyText(auth.key), isUtf8);
    Decimal.PrintedSound(auth.auid);
    BareSeen("auid", Decimal.Printed(auth.auid), isUtf8);
  }

  lemma RegainedAuth(keys: Keys, isUtf8: string -> bool, n: EntityName)
    requires Regained(keys, isUtf8) && AcceptsAscii(isUtf8) && n in keys
    ensures SectionNameOk(ToStr(n)) && '\n' !in ToStr(n) && isUtf8(SectionLine(ToStr(n)))
    ensures ReadableAuth(keys[n], isUtf8)
  {
    RegainedReads(keys, isUtf8);
    assert ToStr(n) in RingNames(keys);
    RegainedName(keys, isUtf8, n);
    HeadSeen(keys[n], isUtf8);
    forall x | x in keys[n].caps
      ensures SubsystemOk(x) && '\n' !in x && ValueOk(keys[n].caps[x]) && Clean(keys[n].caps[x])
      ensures isUtf8(CapsLine(x, keys[n].caps[x]))
    {
      RegainedCap(keys, isUtf8, n, x);
      RegainedCapOk(keys, isUtf8, n, x);
    }
  }

  /** The keyring round trip, exactly: decode_plaintext regains what print wrote if
      and only if every entity name, subsystem and cap string reads back from its
      own line, and no secret is too long for its length field. */
  lemma DecodePrintedExact(keys: Keys, isUtf8: string -> bool)
    requires AcceptsAscii(isUtf8)
    ensures Decoded(map[], PrintedRing(keys), isUtf8).ok && Decoded(map[], PrintedRing(keys), isUtf8).keys == keys
       <==> Readable(keys, isUtf8)
  {
    if Readable(keys, isUtf8) {
      DecodeInvertsPrint(keys, isUtf8);
    }
    if Regained(keys, isUtf8) {
      forall n | n in keys
        ensures SectionNameOk(ToStr(n)) && '\n' !in ToStr(n) && isUtf8(SectionLine(ToStr(n)))
        ensures ReadableAuth(keys[n], isUtf8)
      {
        RegainedAuth(keys, isUtf8, n);
      }
    }
  }
}
