/** What the written formats look like, character by character and byte by byte. */
module Formats {
  import opened Basics
  import opened Bytes
  import opened ConfRoundTrip
  import opened ConfUtils
  import opened Crypto
  import opened KeyRing
  import opened KeyRingExact
  import opened Ordered
  import Decimal

  // ----- the order of names -----

  /** The order of std::string: at the first difference the smaller character comes
      first, and a text comes before those that continue it. */
  ghost predicate ComesFirst(a: string, b: string) {
    exists n :: DiffersAt(a, b, n)
  }

  predicate DiffersAt(a: string, b: string, n: int) {
    0 <= n <= |a| && n < |b| && a[..n] == b[..n] && (n < |a| ==> a[n] as int < b[n] as int)
  }

  lemma {:induction false} StringLessExact(a: string, b: string)
    ensures StringLess(a, b) <==> ComesFirst(a, b)
  {
    if a == "" || b == "" || a[0] != b[0] {
      if StringLess(a, b) {
        assert DiffersAt(a, b, 0);
      }
      forall n | DiffersAt(a, b, n) ensures n == 0 {
      }
    } else {
      StringLessExact(a[1..], b[1..]);
      if n :| DiffersAt(a[1..], b[1..], n) {
        assert a[..n + 1] == [a[0]] + a[1..][..n] && b[..n + 1] == [b[0]] + b[1..][..n];
        assert DiffersAt(a, b, n + 1);
      }
      if n :| DiffersAt(a, b, n) {
        assert a[1..][..n - 1] == a[..n][1..] && b[1..][..n - 1] == b[..n][1..];
        assert DiffersAt(a[1..], b[1..], n - 1);
      }
    }
  }

  lemma EntityLessExact(a: EntityName, b: EntityName)
    ensures a.entityType == b.entityType ==> (EntityLess(a, b) <==> ComesFirst(a.id, b.id))
    ensures EntityLess(EntityName(Mon, a.id), EntityName(Mds, b.id))
         && EntityLess(EntityName(Mds, a.id), EntityName(Osd, b.id))
         && EntityLess(EntityName(Osd, a.id), EntityName(Client, b.id))
         && EntityLess(EntityName(Client, a.id), EntityName(Auth, b.id))
  {
    StringLessExact(a.id, b.id);
  }

  /** An entity is printed as its type, a dot and its id, and read from nothing else. */
  lemma EntityText(id: string, s: string, name: EntityName)
    ensures ToStr(EntityName(Mon, id)) == "mon." + id && ToStr(EntityName(Mds, id)) == "mds." + id
         && ToStr(EntityName(Osd, id)) == "osd." + id && ToStr(EntityName(Client, id)) == "client." + id
         && ToStr(EntityName(Auth, id)) == "auth." + id
    ensures FromStr(s) == Some(name) <==> s == ToStr(name)
  {
    FromStrToStr(name);
    ToStrFromStr(s);
  }

  // ----- printed files -----

  lemma OneInOrder(s: set<string>, x: string)
    requires s == {x}
    ensures InStringOrder(s) == [x]
  {
    var r := InStringOrder(s);
    assert r[0] in r;
  }

  /** A printed configuration file of one line: the section in brackets, and under a tab
      the key and the quoted value; the key "" of comments is left out. */
  lemma PrintedOne(section: string, key: string, val: string)
    ensures Printed(map[section := map[key := val]])
         == "[" + section + "]" + "\n" + if key == "" then "" else "\t" + key + " = " + "\"" + val + "\"" + "\n"
  {
    hide InStringOrder;
    var lines := map[key := val];
    var sections := map[section := lines];
    OneInOrder(lines.Keys, key);
    OneInOrder(sections.Keys, section);
    assert [key][1..] == [] && [section][1..] == [];
    assert PrintedLines(lines, []) == "" && PrintedSections(sections, []) == "";
    var line := PrintedLine(lines, key);
    assert PrintedLines(lines, [key]) == line + "" == line;
    assert PrintedSections(sections, [section]) == SectionLine(section) + "\n" + line + "";
    if key != "" {
      assert line == "\t" + key + " = " + "\"" + val + "\"" + "\n";
    }
  }

  /** Keys are printed one behind the other, in the order of the map. */
  lemma {:induction false} LinesBehind(lines: map<string, string>, keys: seq<string>, key: string)
    requires key in lines && forall k | k in keys :: k in lines
    ensures PrintedLines(lines, keys + [key])
         == PrintedLines(lines, keys)
            + if key == "" then "" else "\t" + key + " = " + "\"" + lines[key] + "\"" + "\n"
    decreases |keys|
  {
    hide PrintedLine;
    LineText(lines, key);
    if keys == [] {
      assert [] + [key] == [key] && [key][1..] == [] && PrintedLines(lines, []) == "";
    } else {
      assert (keys + [key])[0] == keys[0] && (keys + [key])[1..] == keys[1..] + [key];
      assert keys[0] in keys;
      LinesBehind(lines, keys[1..], key);
      Assoc(PrintedLine(lines, keys[0]), PrintedLines(lines, keys[1..]), PrintedLine(lines, key));
    }
  }

  lemma LineText(lines: map<string, string>, key: string)
    requires key in lines
    ensures PrintedLine(lines, key)
         == if key == "" then "" else "\t" + key + " = " + "\"" + lines[key] + "\"" + "\n"
  {
  }

  /** So are sections. */
  lemma {:induction false} SectionsBehind(sections: Sections, names: seq<string>, name: string)
    requires name in sections && forall n | n in names :: n in sections
    ensures PrintedSections(sections, names + [name])
         == PrintedSections(sections, names)
            + ("[" + name + "]" + "\n" + PrintedLines(sections[name], InStringOrder(sections[name].Keys)))
    decreases |names|
  {
    hide PrintedLines, InStringOrder;
    var part := SectionPart(sections, name);
    if names == [] {
      assert [] + [name] == [name] && [name][1..] == [] && PrintedSections(sections, []) == "";
      assert part + "" == part;
    } else {
      assert (names + [name])[0] == names[0] && (names + [name])[1..] == names[1..] + [name];
      assert names[0] in names;
      SectionsBehind(sections, names[1..], name);
      Assoc(SectionPart(sections, names[0]), PrintedSections(sections, names[1..]), part);
    }
  }

  ghost function SectionPart(sections: Sections, name: string): string
    requires name in sections
  {
    "[" + name + "]" + "\n" + PrintedLines(sections[name], InStringOrder(sections[name].Keys))
  }

  /** So are the caps of an entity. */
  lemma {:induction false} CapsBehind(caps: map<string, string>, subsystems: seq<string>, sub: string)
    requires sub in caps && forall s | s in subsystems :: s in caps
    ensures CapsTexts(caps, subsystems + [sub])
         == CapsTexts(caps, subsystems) + ["\tcaps " + sub + " = \"" + caps[sub] + "\""]
    decreases |subsystems|
  {
    hide CapsLine;
    CapText(caps, sub);
    if subsystems == [] {
      assert [] + [sub] == [sub] && [sub][1..] == [] && CapsTexts(caps, []) == [];
    } else {
      assert subsystems[0] in subsystems;
      assert (subsystems + [sub])[0] == subsystems[0] && (subsystems + [sub])[1..] == subsystems[1..] + [sub];
      CapsBehind(caps, subsystems[1..], sub);
    }
  }

  lemma CapText(caps: map<string, string>, sub: string)
    requires sub in caps
    ensures CapsLine(sub, caps[sub]) == "\tcaps " + sub + " = \"" + caps[sub] + "\""
  {
  }

  /** And so are entities. */
  lemma {:induction false} EntitiesBehind(keys: Keys, names: seq<EntityName>, name: EntityName)
    requires name in keys && forall n | n in names :: n in keys
    ensures RingTexts(keys, names + [name])
         == RingTexts(keys, names) + (["[" + ToStr(name) + "]"] + AuthTexts(keys[name]))
    decreases |names|
  {
    hide AuthTexts, ToStr;
    var part := ["[" + ToStr(name) + "]"] + AuthTexts(keys[name]);
    if names == [] {
      assert [] + [name] == [name] && [name][1..] == [] && RingTexts(keys, []) == [];
    } else {
      assert names[0] in names;
      assert (names + [name])[0] == names[0] && (names + [name])[1..] == names[1..] + [name];
      EntitiesBehind(keys, names[1..], name);
      Assoc([SectionLine(ToStr(names[0]))] + AuthTexts(keys[names[0]]), RingTexts(keys, names[1..]), part);
    }
  }

  /** A printed keyring of one client with caps for one subsystem. */
  lemma RingOne(id: string, key: CryptoKey, auid: u64, subsystem: string, caps: string)
    ensures PrintedRing(map[EntityName(Client, id) := EntityAuth(auid, key, map[subsystem := caps])])
         == "[client." + id + "]\n"
            + ("\tkey = " + KeyText(key) + "\n"
               + ((if auid == AUID_DEFAULT then "" else "\tauid = " + Decimal.Printed(auid) + "\n")
                  + ("\tcaps " + subsystem + " = \"" + caps + "\"\n")))
  {
    hide InStringOrder, InEntityOrder, KeyText, Decimal.Printed, HeadTexts, ToStr, CapsLine, Text;
    var name, auth := EntityName(Client, id), EntityAuth(auid, key, map[subsystem := caps]);
    var a, b := SectionLine(ToStr(name)) + "\n", BareLine("key", KeyText(key)) + "\n";
    var c := if auid == AUID_DEFAULT then "" else BareLine("auid", Decimal.Printed(auid)) + "\n";
    var d := CapsLine(subsystem, caps) + "\n";
    AuthOne(auth, subsystem, caps);
    RingText(name, auth);
    Joined(a, b, c, d);
    ClientLines(id, subsystem, caps);
    assert b == "\tkey = " + KeyText(key) + "\n";
    assert c == if auid == AUID_DEFAULT then "" else "\tauid = " + Decimal.Printed(auid) + "\n";
  }

  lemma ClientLines(id: string, subsystem: string, caps: string)
    ensures SectionLine(ToStr(EntityName(Client, id))) + "\n" == "[client." + id + "]\n"
    ensures CapsLine(subsystem, caps) + "\n" == "\tcaps " + subsystem + " = \"" + caps + "\"\n"
  {
  }

  lemma AuthOne(auth: EntityAuth, subsystem: string, caps: string)
    requires auth.caps == map[subsystem := caps]
    ensures Text(AuthTexts(auth))
         == BareLine("key", KeyText(auth.key)) + "\n"
            + (if auth.auid == AUID_DEFAULT then "" else BareLine("auid", Decimal.Printed(auth.auid)) + "\n")
            + (CapsLine(subsystem, caps) + "\n")
  {
    hide InStringOrder, KeyText, Decimal.Printed, HeadTexts, CapsLine, Text;
    OneInOrder(auth.caps.Keys, subsystem);
    assert [subsystem][1..] == [] && CapsTexts(auth.caps, []) == [];
    assert CapsTexts(auth.caps, [subsystem]) == [CapsLine(subsystem, caps)];
    TextAppend(HeadTexts(auth), [CapsLine(subsystem, caps)]);
    HeadPrinted(auth);
    OneText(CapsLine(subsystem, caps));
  }

  lemma RingText(name: EntityName, auth: EntityAuth)
    ensures PrintedRing(map[name := auth]) == SectionLine(ToStr(name)) + "\n" + Text(AuthTexts(auth)) + ""
  {
    hide InEntityOrder, AuthTexts, ToStr, Text;
    var ring := map[name := auth];
    OneEntity(ring, name);
    assert [name][1..] == [] && RingTexts(ring, []) == [];
    assert RingTexts(ring, [name]) == [SectionLine(ToStr(name))] + AuthTexts(auth) + [];
    PrintedEntity(name, auth, []);
    NoText();
  }

  lemma NoText()
    ensures Text([]) == ""
  {
  }

  lemma Joined(a: string, b: string, c: string, d: string)
    ensures a + ((b + c) + d) + "" == a + (b + (c + d))
  {
  }

  lemma OneEntity(keys: Keys, name: EntityName)
    requires keys.Keys == {name}
    ensures InEntityOrder(keys.Keys) == [name]
  {
    var r := InEntityOrder(keys.Keys);
    assert r[0] in r;
  }

  lemma OneText(line: string)
    ensures Text([line]) == line + "\n"
  {
    assert [line][1..] == [] && Text([]) == "";
  }

  // ----- the binary form of a key -----

  lemma TwoBytes(x: nat)
    requires x < 0x1_0000
    ensures Encode(x, 2) == [x % 0x100, x / 0x100]
  {
    assert Encode(x, 2) == [x % 256] + Encode(x / 256, 1);
    assert Encode(x / 256, 1) == [x / 256 % 256] + Encode(x / 256 / 256, 0);
  }

  lemma FourBytes(x: nat)
    requires x < 0x1_0000_0000
    ensures Encode(x, 4) == [x % 0x100, x / 0x100 % 0x100, x / 0x1_0000 % 0x100, x / 0x100_0000]
  {
    hide Encode;
    forall i | 0 <= i < 4 ensures Encode(x, 4)[i] == x / Pow256(i) % 256 {
      EncodeAt(x, 4, i);
    }
    FourPowers();
    assert x / 0x100_0000 < 256;
  }

  lemma FourPowers()
    ensures Pow256(0) == 1 && Pow256(1) == 0x100 && Pow256(2) == 0x1_0000 && Pow256(3) == 0x100_0000
  {
    assert Pow256(3) == 256 * Pow256(2);
  }

  /** The type in two bytes, the seconds and nanoseconds in four each, the length of the
      secret in two, all low byte first, and the secret. */
  lemma KeyLayout(k: CryptoKey)
    ensures var n := |k.secret| % 0x1_0000;
            EncodeKey(k)
            == [k.keyType % 0x100, k.keyType / 0x100]
               + [k.sec % 0x100, k.sec / 0x100 % 0x100, k.sec / 0x1_0000 % 0x100, k.sec / 0x100_0000]
               + [k.nsec % 0x100, k.nsec / 0x100 % 0x100, k.nsec / 0x1_0000 % 0x100, k.nsec / 0x100_0000]
               + [n % 0x100, n / 0x100] + k.secret
  {
    hide Encode;
    TwoBytes(k.keyType);
    FourBytes(k.sec);
    FourBytes(k.nsec);
    TwoBytes(|k.secret| % 0x1_0000);
  }
}
