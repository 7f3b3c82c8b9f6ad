/** The plaintext form of a keyring: KeyRing::print and
    KeyRing::decode_plaintext of auth/KeyRing.cc, over the configuration reader. */
module KeyRing {
  import opened Basics
  import opened ConfUtils
  import opened ConfRoundTrip
  import opened Ordered
  import opened Crypto
  import Decimal

  type u64 = Decimal.u64
  const AUID_DEFAULT: u64 := Decimal.U64_MAX

  // ----- entity names -----

  datatype EntityType = Mon | Mds | Osd | Client | Auth

  datatype EntityName = EntityName(entityType: EntityType, id: string)

  /** CEPH_ENTITY_TYPE_*; the order of entity names starts with it. */
  function TypeCode(t: EntityType): nat {
    match t
    case Mon => 0x01
    case Mds => 0x02
    case Osd => 0x04
    case Client => 0x08
    case Auth => 0x20
  }

  function TypeName(t: EntityType): string {
    match t
    case Mon => "mon"
    case Mds => "mds"
    case Osd => "osd"
    case Client => "client"
    case Auth => "auth"
  }

  function ToStr(name: EntityName): string {
    TypeName(name.entityType) + "." + name.id
  }

  /** str_to_ceph_entity_type */
  function TypeFromStr(s: string): Option<EntityType> {
    if s == "auth" then Some(Auth)
    else if s == "mon" then Some(Mon)
    else if s == "osd" then Some(Osd)
    else if s == "mds" then Some(Mds)
    else if s == "client" then Some(Client)
    else None
  }

  function DotAt(s: string): (n: nat)
    ensures n <= |s| && (n < |s| ==> s[n] == '.') && '.' !in s[..n]
  {
    if s == "" || s[0] == '.' then 0
    else
      var n := DotAt(s[1..]);
      assert s[..n + 1] == [s[0]] + s[1..][..n];
      n + 1
  }

  /** EntityName::from_str */
  function FromStr(s: string): Option<EntityName> {
    var pos := DotAt(s);
    if pos == |s| then None
    else
      match TypeFromStr(s[..pos])
      case Some(t) => Some(EntityName(t, s[pos + 1..]))
      case None => None
  }

  lemma {:induction false} FirstDot(a: string, b: string)
    requires '.' !in a
    ensures DotAt(a + "." + b) == |a|
  {
    if a != "" {
      assert a[0] in a;
      assert (a + "." + b)[1..] == a[1..] + "." + b;
      FirstDot(a[1..], b);
    }
  }

  lemma FromStrToStr(name: EntityName)
    ensures FromStr(ToStr(name)) == Some(name)
  {
    var t := TypeName(name.entityType);
    FirstDot(t, name.id);
    assert ToStr(name)[..|t|] == t && ToStr(name)[|t| + 1..] == name.id;
  }

  predicate EntityLess(a: EntityName, b: EntityName) {
    TypeCode(a.entityType) < TypeCode(b.entityType)
    || (a.entityType == b.entityType && StringLess(a.id, b.id))
  }

  lemma EntityOrder()
    ensures StrictTotalOrder(EntityLess)
  {
    StringOrder();
  }

  ghost function InEntityOrder(s: set<EntityName>): (r: seq<EntityName>)
    ensures |r| == |s| && forall x :: x in r <==> x in s
  {
    EntityOrder();
    InOrder(s, EntityLess)
  }

  method TraverseEntities(s: set<EntityName>) returns (r: seq<EntityName>)
    ensures r == InEntityOrder(s)
  {
    EntityOrder();
    r := Traverse(s, EntityLess);
  }

  // ----- keyrings -----

  /** A caps entry is the string that its buffer encodes. */
  datatype EntityAuth = EntityAuth(auid: u64, key: CryptoKey, caps: map<string, string>)

  const NO_AUTH := EntityAuth(AUID_DEFAULT, NO_KEY, map[])

  type Keys = map<EntityName, EntityAuth>

  /** keys[name]: std::map makes the entry when there is none. */
  function At(keys: Keys, name: EntityName): EntityAuth {
    if name in keys then keys[name] else NO_AUTH
  }

  /** "\tkey = value" without quotes. */
  function BareLine(key: string, val: string): string {
    "\t" + key + " = " + val
  }

  function CapsLine(subsystem: string, caps: string): string {
    KeyLine("caps " + subsystem, caps)
  }

  function CapsTexts(caps: map<string, string>, subsystems: seq<string>): seq<string>
    requires forall s | s in subsystems :: s in caps
  {
    if subsystems == [] then []
    else [CapsLine(subsystems[0], caps[subsystems[0]])] + CapsTexts(caps, subsystems[1..])
  }

  /** The first lines of an entity. */
  function HeadTexts(auth: EntityAuth): seq<string> {
    [BareLine("key", KeyText(auth.key))]
    + (if auth.auid != AUID_DEFAULT then [BareLine("auid", Decimal.Printed(auth.auid))] else [])
  }

  ghost function AuthTexts(auth: EntityAuth): seq<string> {
    HeadTexts(auth) + CapsTexts(auth.caps, InStringOrder(auth.caps.Keys))
  }

  ghost function RingTexts(keys: Keys, names: seq<EntityName>): seq<string>
    requires forall n | n in names :: n in keys
  {
    if names == [] then []
    else [SectionLine(ToStr(names[0]))] + AuthTexts(keys[names[0]]) + RingTexts(keys, names[1..])
  }

  ghost function PrintedRing(keys: Keys): string {
    Text(RingTexts(keys, InEntityOrder(keys.Keys)))
  }

  // ----- decoding -----

  /** '_' to ' ': what decode_plaintext does to a key before set_modifier. */
  function Respaced(s: string): (r: string)
    ensures |r| == |s| && forall i | 0 <= i < |s| :: r[i] == (if s[i] == '_' then ' ' else s[i])
  {
    seq(|s|, i requires 0 <= i < |s| => if s[i] == '_' then ' ' else s[i])
  }

  /** The keyring, the caps gathered in the current section, and whether no
      exception was thrown. */
  datatype Decoding = Decoding(keys: Keys, caps: map<string, string>, ok: bool)

  function Modified(d: Decoding, name: EntityName, typ: string, val: string): Decoding {
    if typ == "key" then
      match KeyFromText(val)
      case Some(key) => d.(keys := d.keys[name := At(d.keys, name).(key := key)])
      case None => d.(ok := false)
    else if "caps " <= typ then
      if typ == "caps " then d.(ok := false)
      else
        var caps := d.caps[typ[5..] := val];
        d.(keys := d.keys[name := At(d.keys, name).(caps := caps)], caps := caps)
    else if typ == "auid" then
      d.(keys := d.keys[name := At(d.keys, name).(auid := Decimal.Strtoull(val))])
    else d.(ok := false)
  }

  function DecodedLines(d: Decoding, name: EntityName, lines: map<string, string>, ks: seq<string>): Decoding
    requires forall k | k in ks :: k in lines
    decreases |ks|
  {
    if ks == [] || !d.ok then d
    else if ks[0] == "" then DecodedLines(d, name, lines, ks[1..])
    else DecodedLines(Modified(d, name, Respaced(ks[0]), lines[ks[0]]), name, lines, ks[1..])
  }

  ghost function DecodedSection(d: Decoding, section: string, lines: map<string, string>): Decoding {
    if section == "global" then d
    else
      match FromStr(section)
      case None => d.(ok := false)
      case Some(name) => DecodedLines(d.(caps := map[]), name, lines, InStringOrder(lines.Keys))
  }

  ghost function DecodedSections(d: Decoding, sections: Sections, names: seq<string>): Decoding
    requires forall s | s in names :: s in sections
    decreases |names|
  {
    if names == [] || !d.ok then d
    else DecodedSections(DecodedSection(d, names[0], sections[names[0]]), sections, names[1..])
  }

  ghost function Decoded(keys: Keys, text: string, isUtf8: string -> bool): Decoding {
    var sections := Loaded(text, isUtf8);
    DecodedSections(Decoding(keys, map[], true), sections, InStringOrder(sections.Keys))
  }

  // One turn of the two loops of decode_plaintext.

  lemma LinesNext(d: Decoding, name: EntityName, lines: map<string, string>, ks: seq<string>, l: nat)
    requires l < |ks| && d.ok && forall k | k in ks :: k in lines
    ensures ks[l] in lines
    ensures DecodedLines(d, name, lines, ks[l..])
         == if ks[l] == "" then DecodedLines(d, name, lines, ks[l + 1..])
            else DecodedLines(Modified(d, name, Respaced(ks[l]), lines[ks[l]]), name, lines, ks[l + 1..])
  {
    hide Modified, Respaced;
    assert ks[l] in ks;
    assert ks[l..][0] == ks[l] && ks[l..][1..] == ks[l + 1..];
  }

  lemma LinesDone(d: Decoding, name: EntityName, lines: map<string, string>, ks: seq<string>)
    requires forall k | k in ks :: k in lines
    requires !d.ok || ks == []
    ensures DecodedLines(d, name, lines, ks) == d
  {
  }

  lemma DecodedBy(keys: Keys, text: string, isUtf8: string -> bool, sections: Sections)
    requires sections == Load(FRESH, Logical(Lines(text), "", isUtf8)).sections
    ensures Decoded(keys, text, isUtf8)
         == DecodedSections(Decoding(keys, map[], true), sections, InStringOrder(sections.Keys))
  {
  }

  lemma SectionsNext(d: Decoding, sections: Sections, names: seq<string>, i: nat)
    requires i < |names| && d.ok && forall s | s in names :: s in sections
    ensures names[i] in sections
    ensures DecodedSections(d, sections, names[i..])
         == DecodedSections(DecodedSection(d, names[i], sections[names[i]]), sections, names[i + 1..])
  {
    hide DecodedSection;
    assert names[i] in names;
    assert names[i..][0] == names[i] && names[i..][1..] == names[i + 1..];
  }

  lemma SectionsDone(d: Decoding, sections: Sections, names: seq<string>)
    requires forall s | s in names :: s in sections
    requires !d.ok || names == []
    ensures DecodedSections(d, sections, names) == d
  {
  }

  class KeyRing {
    var keys: Keys

    constructor ()
      ensures keys == map[]
    {
      keys := map[];
    }

    method Print() returns (out: string)
      ensures out == PrintedRing(keys)
    {
      out := "";
      var names := TraverseEntities(keys.Keys);
      for p := 0 to |names|
        invariant out + Text(RingTexts(keys, names[p..])) == PrintedRing(keys)
      {
        assert names[p] in names;
        ghost var rest := RingTexts(keys, names[p + 1..]);
        var auth := keys[names[p]];
        var lines := PrintAuth(auth);
        PrintedEntity(names[p], auth, rest);
        assert names[p..][0] == names[p] && names[p..][1..] == names[p + 1..];
        Assoc(out, SectionLine(ToStr(names[p])) + "\n" + Text(AuthTexts(auth)), Text(rest));
        out := out + (SectionLine(ToStr(names[p])) + "\n" + lines);
      }
    }

    /** set_modifier.  A null value cannot happen here: values come from lines. */
    method SetModifier(typ: string, val: string, name: EntityName, caps0: map<string, string>)
      returns (ok: bool, caps: map<string, string>)
      modifies this
      ensures Decoding(keys, caps, ok) == Modified(Decoding(old(keys), caps0, true), name, typ, val)
    {
      ok, caps := true, caps0;
      if typ == "key" {
        var key := KeyFromText(val);
        if key.None? {
          return false, caps;
        }
        keys := keys[name := At(keys, name).(key := key.value)];
      } else if |typ| >= 5 && typ[..5] == "caps " {
        var capsEntity := typ[5..];
        if capsEntity == "" {
          assert typ == "caps ";
          return false, caps;
        }
        caps := caps[capsEntity := val];
        keys := keys[name := At(keys, name).(caps := caps)];
      } else if typ == "auid" {
        keys := keys[name := At(keys, name).(auid := Decimal.Strtoull(val))];
      } else {
        return false, caps;
      }
    }

    /** The loop over the lines of one section. */
    method DecodeLines(name: EntityName, lines: map<string, string>) returns (ok: bool, caps: map<string, string>)
      modifies this
      ensures Decoding(keys, caps, ok)
           == DecodedLines(Decoding(old(keys), map[], true), name, lines, InStringOrder(lines.Keys))
    {
      hide Modified, Respaced, InStringOrder, DecodedLines;
      caps := map[];
      ok := true;
      var ks := TraverseStrings(lines.Keys);
      ghost var finish := DecodedLines(Decoding(keys, map[], true), name, lines, ks);
      assert ks[0..] == ks && ks[|ks|..] == [];
      for l := 0 to |ks|
        invariant ok
        invariant DecodedLines(Decoding(keys, caps, true), name, lines, ks[l..]) == finish
      {
        LinesNext(Decoding(keys, caps, true), name, lines, ks, l);
        if ks[l] == "" {
          continue;
        }
        ok, caps := SetModifier(Respaced(ks[l]), lines[ks[l]], name, caps);
        if !ok {
          LinesDone(Decoding(keys, caps, ok), name, lines, ks[l + 1..]);
          return;
        }
      }
      LinesDone(Decoding(keys, caps, ok), name, lines, []);
    }

    /** The loop over the sections. */
    method DecodeEach(sections: Sections) returns (ok: bool, ghost caps: map<string, string>)
      modifies this
      ensures Decoding(keys, caps, ok)
           == DecodedSections(Decoding(old(keys), map[], true), sections, InStringOrder(sections.Keys))
    {
      hide DecodedSections, DecodedLines, FromStr, InStringOrder;
      ok, caps := true, map[];
      var names := TraverseStrings(sections.Keys);
      ghost var finish := DecodedSections(Decoding(keys, map[], true), sections, names);
      assert names[0..] == names && names[|names|..] == [];
      for s := 0 to |names|
        invariant ok
        invariant DecodedSections(Decoding(keys, caps, true), sections, names[s..]) == finish
      {
        SectionsNext(Decoding(keys, caps, true), sections, names, s);
        if names[s] == "global" {
          continue;
        }
        var ename := FromStr(names[s]);
        if ename.None? {
          SectionsDone(Decoding(keys, caps, false), sections, names[s + 1..]);
          return false, caps;
        }
        var c;
        ok, c := DecodeLines(ename.value, sections[names[s]]);
        caps := c;
        if !ok {
          SectionsDone(Decoding(keys, caps, ok), sections, names[s + 1..]);
          return;
        }
      }
      SectionsDone(Decoding(keys, caps, ok), sections, []);
    }

    /** decode_plaintext: false stands for the exception it throws. */
    method DecodePlaintext(text: string, isUtf8: string -> bool) returns (ok: bool)
      modifies this
      ensures keys == Decoded(old(keys), text, isUtf8).keys
      ensures ok == Decoded(old(keys), text, isUtf8).ok
    {
      hide Decoded, DecodedSections, Load, Logical, Lines, AllComplaints, InStringOrder;
      var cf := new ConfFile();
      var parseErrors := cf.ParseBufferlist(text, isUtf8);
      DecodedBy(keys, text, isUtf8, cf.sections);
      ghost var caps;
      ok, caps := DecodeEach(cf.sections);
    }
  }

  /** The lines of one entity after its header. */
  method PrintAuth(auth: EntityAuth) returns (out: string)
    ensures out == Text(AuthTexts(auth))
  {
    out := BareLine("key", KeyText(auth.key)) + "\n";
    if auth.auid != AUID_DEFAULT {
      out := out + (BareLine("auid", Decimal.Printed(auth.auid)) + "\n");
    }
    HeadPrinted(auth);
    var subsystems := TraverseStrings(auth.caps.Keys);
    TextAppend(HeadTexts(auth), CapsTexts(auth.caps, subsystems));
    for q := 0 to |subsystems|
      invariant out + Text(CapsTexts(auth.caps, subsystems[q..])) == Text(AuthTexts(auth))
    {
      assert subsystems[q] in subsystems;
      assert subsystems[q..][0] == subsystems[q] && subsystems[q..][1..] == subsystems[q + 1..];
      var line := CapsLine(subsystems[q], auth.caps[subsystems[q]]) + "\n";
      TextCons(CapsLine(subsystems[q], auth.caps[subsystems[q]]), CapsTexts(auth.caps, subsystems[q + 1..]));
      Assoc(out, line, Text(CapsTexts(auth.caps, subsystems[q + 1..])));
      out := out + line;
    }
  }

  lemma TextCons(line: string, rest: seq<string>)
    ensures Text([line] + rest) == line + "\n" + Text(rest)
  {
    assert ([line] + rest)[1..] == rest;
  }

  lemma HeadPrinted(auth: EntityAuth)
    ensures Text(HeadTexts(auth))
         == BareLine("key", KeyText(auth.key)) + "\n"
            + (if auth.auid != AUID_DEFAULT then BareLine("auid", Decimal.Printed(auth.auid)) + "\n" else "")
  {
    var key := BareLine("key", KeyText(auth.key));
    var auid := BareLine("auid", Decimal.Printed(auth.auid));
    if auth.auid != AUID_DEFAULT {
      TextCons(key, [auid]);
      assert Text([auid]) == auid + "\n" + Text([]);
    } else {
      TextCons(key, []);
    }
  }

  lemma PrintedEntity(name: EntityName, auth: EntityAuth, rest: seq<string>)
    ensures Text([SectionLine(ToStr(name))] + AuthTexts(auth) + rest)
         == SectionLine(ToStr(name)) + "\n" + Text(AuthTexts(auth)) + Text(rest)
  {
    TextAppend([SectionLine(ToStr(name))] + AuthTexts(auth), rest);
    TextCons(SectionLine(ToStr(name)), AuthTexts(auth));
  }
}
