/** What decode_plaintext makes of any text: when it throws, and which keyring it
    leaves. */
module KeyRingTable {
  import opened Basics
  import opened ConfFileExact
  import opened ConfLines
  import opened ConfRoundTrip
  import opened ConfText
  import opened ConfUtils
  import opened Crypto
  import opened KeyRing
  import opened KeyRingExact
  import opened KeyRingRoundTrip
  import opened Ordered
  import Decimal

  /** A line that set_modifier takes: a key in base64, caps of some subsystem, or an
      auid. */
  predicate Acceptable(typ: string, val: string) {
    || (typ == "key" && KeyFromText(val).Some?)
    || ("caps " <= typ && |typ| > 5)
    || typ == "auid"
  }

  /** All lines of a section but comments are taken. */
  predicate LinesAcceptable(lines: map<string, string>) {
    forall k | k in lines && k != "" :: Acceptable(Respaced(k), lines[k])
  }

  /** Every section but "global" is named by a type and an id. */
  predicate SectionsAcceptable(sections: Sections) {
    forall s | s in sections && s != "global" :: FromStr(s).Some? && LinesAcceptable(sections[s])
  }

  /** This line, among these, is for the caps of this subsystem. */
  predicate IsCaps(lines: map<string, string>, k: string, sub: string) {
    k in lines && sub != "" && Respaced(k) == "caps " + sub
  }

  /** Some of these lines are for caps. */
  ghost predicate HasCaps(lines: map<string, string>) {
    exists k, sub :: IsCaps(lines, k, sub)
  }

  /** The caps are those of the lines, each under its subsystem. */
  ghost predicate CapsOf(lines: map<string, string>, caps: map<string, string>) {
    && (forall sub | sub in caps :: exists k :: IsCaps(lines, k, sub))
    && (forall k, sub | IsCaps(lines, k, sub) :: sub in caps && caps[sub] == lines[k])
  }

  /** What an entity becomes by these lines: what they do not mention stays. */
  ghost predicate EntryOf(before: EntityAuth, after: EntityAuth, lines: map<string, string>) {
    && (if "key" in lines then Some(after.key) == KeyFromText(lines["key"]) else after.key == before.key)
    && after.auid == (if "auid" in lines then Decimal.Strtoull(lines["auid"]) else before.auid)
    && (if HasCaps(lines) then CapsOf(lines, after.caps) else after.caps == before.caps)
  }

  /** The part of a section that was read. */
  function Part(lines: map<string, string>, ks: seq<string>): map<string, string> {
    map k | k in lines && k in ks :: lines[k]
  }

  /** Lines that mention anything. */
  predicate Speaks(lines: map<string, string>) {
    exists k :: k in lines && k != ""
  }

  /** The state after these lines of a section. */
  ghost predicate After(keys: Keys, d: Decoding, name: EntityName, lines: map<string, string>) {
    && d.ok
    && (name in d.keys <==> name in keys || Speaks(lines))
    && (forall n | n != name :: (n in d.keys <==> n in keys) && (n in keys ==> d.keys[n] == keys[n]))
    && EntryOf(At(keys, name), At(d.keys, name), lines)
    && CapsOf(lines, d.caps)
  }

  lemma RespacedInjective(j: string, k: string)
    requires ' ' !in j && ' ' !in k && Respaced(j) == Respaced(k)
    ensures j == k
  {
    var r := Respaced(j);
    assert |j| == |k| == |r|;
    forall i | 0 <= i < |j| ensures j[i] == k[i] {
      assert r[i] == Respaced(k)[i] && j[i] in j && k[i] in k;
    }
  }

  /** A name without blanks and underscores is its own. */
  lemma RespacedIs(k: string, typ: string)
    requires ' ' !in typ && '_' !in typ
    ensures Respaced(k) == typ <==> k == typ
  {
    if Respaced(k) == typ {
      forall i | 0 <= i < |k| ensures k[i] == typ[i] {
        assert Respaced(k)[i] == typ[i] && typ[i] in typ;
      }
    }
    if k == typ {
      forall i | 0 <= i < |k| ensures Respaced(k)[i] == k[i] {
        assert k[i] in k;
      }
    }
  }

  // ----- one more line -----

  lemma CapsPut(lines: map<string, string>, caps: map<string, string>, k: string, val: string, sub: string)
    requires CapsOf(lines, caps) && Blankless(lines) && k !in lines && ' ' !in k
    requires sub != "" && Respaced(k) == "caps " + sub
    ensures CapsOf(lines[k := val], caps[sub := val])
  {
    hide Respaced;
    var next, more := lines[k := val], caps[sub := val];
    assert IsCaps(next, k, sub);
    forall x | x in more ensures exists j :: IsCaps(next, j, x) {
      if x != sub {
        var j :| IsCaps(lines, j, x);
        assert IsCaps(next, j, x);
      }
    }
    forall j, x | IsCaps(next, j, x) ensures x in more && more[x] == next[j] {
      assert ("caps " + x)[5..] == x && ("caps " + sub)[5..] == sub;
      if j != k {
        assert IsCaps(lines, j, x);
        if x == sub {
          RespacedInjective(j, k);
        }
      }
    }
  }

  lemma CapsSkip(lines: map<string, string>, caps: map<string, string>, k: string, val: string)
    requires k !in lines && !("caps " <= Respaced(k) && |Respaced(k)| > 5)
    ensures CapsOf(lines, caps) ==> CapsOf(lines[k := val], caps)
    ensures HasCaps(lines[k := val]) <==> HasCaps(lines)
  {
    hide Respaced;
    var next := lines[k := val];
    assert forall j, x :: IsCaps(next, j, x) <==> IsCaps(lines, j, x);
  }

  /** The entity is put back, changed as these lines say. */
  lemma EntryPut(keys: Keys, d: Decoding, name: EntityName, lines: map<string, string>, auth: EntityAuth,
                 caps: map<string, string>, more: map<string, string>)
    requires After(keys, d, name, lines) && Speaks(more)
    requires EntryOf(At(keys, name), auth, more) && CapsOf(more, caps)
    ensures After(keys, Decoding(d.keys[name := auth], caps, true), name, more)
  {
    hide EntryOf, CapsOf, Speaks;
  }

  lemma KeyRead(keys: Keys, d: Decoding, name: EntityName, lines: map<string, string>, val: string)
    requires After(keys, d, name, lines) && "key" !in lines && KeyFromText(val).Some?
    ensures After(keys, Modified(d, name, "key", val), name, lines["key" := val])
  {
    hide KeyFromText, CapsOf, HasCaps, Speaks, After;
    AfterParts(keys, d, name, lines);
    var more, auth := lines["key" := val], At(d.keys, name);
    RespacedIs("key", "key");
    CapsSkip(lines, d.caps, "key", val);
    CapsSkip(lines, auth.caps, "key", val);
    SpeaksOf(lines, "key", val);
    EntryPut(keys, d, name, lines, auth.(key := KeyFromText(val).value), d.caps, more);
  }

  lemma AfterParts(keys: Keys, d: Decoding, name: EntityName, lines: map<string, string>)
    requires After(keys, d, name, lines)
    ensures d.ok && EntryOf(At(keys, name), At(d.keys, name), lines) && CapsOf(lines, d.caps)
  {
    hide EntryOf, CapsOf;
  }

  lemma SpeaksOf(lines: map<string, string>, k: string, val: string)
    requires k != ""
    ensures Speaks(lines[k := val])
  {
    assert k in lines[k := val];
  }

  lemma AuidRead(keys: Keys, d: Decoding, name: EntityName, lines: map<string, string>, val: string)
    requires After(keys, d, name, lines) && "auid" !in lines
    ensures After(keys, Modified(d, name, "auid", val), name, lines["auid" := val])
  {
    hide KeyFromText, CapsOf, HasCaps, Speaks, After;
    AfterParts(keys, d, name, lines);
    var more, auth := lines["auid" := val], At(d.keys, name);
    RespacedIs("auid", "auid");
    CapsSkip(lines, d.caps, "auid", val);
    CapsSkip(lines, auth.caps, "auid", val);
    SpeaksOf(lines, "auid", val);
    EntryPut(keys, d, name, lines, auth.(auid := Decimal.Strtoull(val)), d.caps, more);
  }

  lemma CapsRead(keys: Keys, d: Decoding, name: EntityName, lines: map<string, string>, k: string, val: string)
    requires After(keys, d, name, lines) && Blankless(lines) && k !in lines && ' ' !in k
    requires "caps " <= Respaced(k) && |Respaced(k)| > 5
    ensures After(keys, Modified(d, name, Respaced(k), val), name, lines[k := val])
  {
    hide KeyFromText, CapsOf, Speaks, After;
    AfterParts(keys, d, name, lines);
    var typ, more, auth := Respaced(k), lines[k := val], At(d.keys, name);
    var sub := typ[5..];
    RespacedIs(k, "key");
    RespacedIs(k, "auid");
    assert typ == "caps " + sub;
    var caps := d.caps[sub := val];
    CapsPut(lines, d.caps, k, val, sub);
    assert IsCaps(more, k, sub);
    SpeaksOf(lines, k, val);
    EntryPut(keys, d, name, lines, auth.(caps := caps), caps, more);
  }

  lemma CommentRead(keys: Keys, d: Decoding, name: EntityName, lines: map<string, string>, val: string)
    requires After(keys, d, name, lines) && "" !in lines
    ensures After(keys, d, name, lines["" := val])
  {
    hide KeyFromText, CapsOf, HasCaps;
    RespacedIs("", "");
    CapsSkip(lines, d.caps, "", val);
    CapsSkip(lines, At(d.keys, name).caps, "", val);
    assert forall k :: k in lines["" := val] && k != "" <==> k in lines && k != "";
  }

  lemma LineRead(keys: Keys, d: Decoding, name: EntityName, lines: map<string, string>, k: string, val: string)
    requires After(keys, d, name, lines) && Blankless(lines) && k !in lines && ' ' !in k && k != ""
    ensures var next := Modified(d, name, Respaced(k), val);
            && (next.ok <==> Acceptable(Respaced(k), val))
            && (next.ok ==> After(keys, next, name, lines[k := val]))
  {
    hide After, KeyFromText, Respaced;
    var typ := Respaced(k);
    RespacedIs(k, "key");
    RespacedIs(k, "auid");
    AfterParts(keys, d, name, lines);
    if Acceptable(typ, val) {
      if typ == "key" {
        KeyRead(keys, d, name, lines, val);
      } else if "caps " <= typ {
        CapsRead(keys, d, name, lines, k, val);
      } else {
        AuidRead(keys, d, name, lines, val);
      }
    }
  }

  // ----- a whole section -----

  lemma NoPart(lines: map<string, string>, done: map<string, string>)
    ensures done + Part(lines, []) == done
  {
  }

  lemma PartMore(lines: map<string, string>, done: map<string, string>, ks: seq<string>)
    requires ks != [] && ks[0] in lines && Distinct(ks)
    ensures done[ks[0] := lines[ks[0]]] + Part(lines, ks[1..]) == done + Part(lines, ks)
  {
    assert ks == [ks[0]] + ks[1..];
  }

  lemma BlanklessMore(lines: map<string, string>, done: map<string, string>, k: string)
    requires Blankless(lines) && Blankless(done) && k in lines
    ensures ' ' !in k && Blankless(done[k := lines[k]])
  {
  }

  lemma {:induction false} LinesRead(keys: Keys, d: Decoding, name: EntityName, lines: map<string, string>,
                                     done: map<string, string>, ks: seq<string>)
    requires After(keys, d, name, done) && Blankless(lines) && Blankless(done)
    requires forall i | 0 <= i < |ks| :: ks[i] in lines && ks[i] !in done
    requires Distinct(ks)
    ensures var r := DecodedLines(d, name, lines, ks);
            && (r.ok <==> forall i | 0 <= i < |ks| :: ks[i] != "" ==> Acceptable(Respaced(ks[i]), lines[ks[i]]))
            && (r.ok ==> After(keys, r, name, done + Part(lines, ks)))
    decreases |ks|
  {
    hide After, Modified, Acceptable, Respaced, EntryOf, CapsOf, Blankless, Part;
    AfterParts(keys, d, name, done);
    if ks == [] {
      NoPart(lines, done);
    } else {
      var k, rest := ks[0], ks[1..];
      var val := lines[k];
      var more := done[k := val];
      PartMore(lines, done, ks);
      BlanklessMore(lines, done, k);
      assert forall i | 0 <= i < |rest| :: rest[i] == ks[i + 1];
      if k == "" {
        CommentRead(keys, d, name, done, val);
        LinesRead(keys, d, name, lines, more, rest);
      } else {
        LineRead(keys, d, name, done, k, val);
        var next := Modified(d, name, Respaced(k), val);
        if next.ok {
          LinesRead(keys, next, name, lines, more, rest);
        }
      }
    }
  }

  lemma NothingRead(keys: Keys, name: EntityName)
    ensures After(keys, Decoding(keys, map[], true), name, map[])
  {
    assert !HasCaps(map[]);
  }

  lemma SectionRead(d: Decoding, s: string, lines: map<string, string>)
    requires d.ok && Blankless(lines) && s != "global"
    ensures var r := DecodedSection(d, s, lines);
            && (r.ok <==> FromStr(s).Some? && LinesAcceptable(lines))
            && (r.ok ==> After(d.keys, r, FromStr(s).value, lines))
  {
    hide After, Acceptable, FromStr, Respaced, DecodedLines, Blankless, Part, InStringOrder;
    if FromStr(s).Some? {
      var name, ks := FromStr(s).value, InStringOrder(lines.Keys);
      NothingRead(d.keys, name);
      NoLinesBlankless();
      InStringOrderDistinct(lines.Keys);
      assert forall i | 0 <= i < |ks| :: ks[i] in lines by {
        assert forall i | 0 <= i < |ks| :: ks[i] in ks;
      }
      LinesRead(d.keys, Decoding(d.keys, map[], true), name, lines, map[], ks);
      AllRead(lines, ks);
    }
  }

  lemma NoLinesBlankless()
    ensures Blankless(map[])
  {
  }

  lemma AllRead(lines: map<string, string>, ks: seq<string>)
    requires forall k :: k in ks <==> k in lines
    ensures map[] + Part(lines, ks) == lines
    ensures (forall i | 0 <= i < |ks| :: ks[i] != "" ==> ks[i] in lines && Acceptable(Respaced(ks[i]), lines[ks[i]]))
       <==> LinesAcceptable(lines)
  {
    hide Acceptable, Respaced;
    assert forall i | 0 <= i < |ks| :: ks[i] in ks;
  }

  // ----- the whole text -----

  /** What an entity becomes by its section. */
  ghost predicate EntityRead(before: Keys, after: Keys, name: EntityName, lines: map<string, string>) {
    && (name in after <==> name in before || Speaks(lines))
    && EntryOf(At(before, name), At(after, name), lines)
  }

  ghost predicate Untouched(before: Keys, after: Keys, name: EntityName) {
    (name in after <==> name in before) && (name in before ==> after[name] == before[name])
  }

  /** Every entity is read from its section, if there is one. */
  ghost predicate RingRead(before: Keys, after: Keys, sections: Sections, done: seq<string>) {
    forall n: EntityName ::
      if ToStr(n) in sections && ToStr(n) in done then EntityRead(before, after, n, sections[ToStr(n)])
      else Untouched(before, after, n)
  }

  lemma RingNext(before: Keys, d: Decoding, r: Decoding, sections: Sections, done: seq<string>, name: EntityName)
    requires RingRead(before, d.keys, sections, done) && ToStr(name) in sections && ToStr(name) !in done
    requires After(d.keys, r, name, sections[ToStr(name)])
    ensures RingRead(before, r.keys, sections, done + [ToStr(name)])
  {
    hide ToStr, EntryOf, CapsOf, Speaks;
    var s := ToStr(name);
    forall n: EntityName
      ensures if ToStr(n) in sections && ToStr(n) in done + [s] then EntityRead(before, r.keys, n, sections[ToStr(n)])
              else Untouched(before, r.keys, n)
    {
      if n == name {
        assert Untouched(before, d.keys, n);
      } else {
        OtherName(n, name);
      }
    }
  }

  lemma OtherName(a: EntityName, b: EntityName)
    requires a != b
    ensures ToStr(a) != ToStr(b)
  {
    FromStrToStr(a);
    FromStrToStr(b);
  }

  lemma RingSkips(before: Keys, after: Keys, sections: Sections, done: seq<string>)
    requires RingRead(before, after, sections, done)
    ensures RingRead(before, after, sections, done + ["global"])
  {
    hide ToStr, EntityRead, Untouched;
    forall n: EntityName ensures ToStr(n) in done + ["global"] <==> ToStr(n) in done {
      NotGlobal(n);
    }
  }

  predicate SectionAcceptable(s: string, lines: map<string, string>) {
    s == "global" || (FromStr(s).Some? && LinesAcceptable(lines))
  }

  lemma TailNames(names: seq<string>)
    requires names != [] && Distinct(names)
    ensures Distinct(names[1..]) && names[0] !in names[1..]
    ensures forall s :: s in names <==> s == names[0] || s in names[1..]
  {
    assert names == [names[0]] + names[1..];
  }

  lemma {:induction false} SectionsRead(before: Keys, d: Decoding, sections: Sections, done: seq<string>,
                                        names: seq<string>)
    requires d.ok && RingRead(before, d.keys, sections, done) && NoBlanks(sections)
    requires Distinct(names) && forall s | s in names :: s in sections && s !in done
    ensures var r := DecodedSections(d, sections, names);
            && (r.ok <==> forall s | s in names :: SectionAcceptable(s, sections[s]))
            && (r.ok ==> RingRead(before, r.keys, sections, done + names))
    decreases |names|
  {
    hide RingRead, LinesAcceptable, FromStr, DecodedSection, After, Blankless, Distinct;
    if names == [] {
      assert done + names == done;
    } else {
      var s, rest := names[0], names[1..];
      var r := DecodedSection(d, s, sections[s]);
      assert done + [s] + rest == done + names;
      TailNames(names);
      if s == "global" {
        GlobalRead(d, sections[s]);
        RingSkips(before, d.keys, sections, done);
      } else {
        SectionRead(d, s, sections[s]);
        if r.ok {
          ToStrFromStr(s);
          RingNext(before, d, r, sections, done, FromStr(s).value);
        }
      }
      if r.ok {
        SectionsRead(before, r, sections, done + [s], rest);
      }
    }
  }

  lemma GlobalRead(d: Decoding, lines: map<string, string>)
    ensures DecodedSection(d, "global", lines) == d
  {
  }

  lemma ApplyBlankless(st: Loading, r: LineResult)
    requires InSection(st) && NoBlanks(st.sections) && (r.Line? ==> ' ' !in r.line.key)
    ensures NoBlanks(Apply(st, r).sections)
  {
    var next := Apply(st, r).sections;
    forall s | s in next ensures Blankless(next[s]) {
      assert s in st.sections ==> Blankless(st.sections[s]);
    }
  }

  lemma {:induction false} LoadBlankless(st: Loading, logical: seq<string>)
    requires InSection(st) && NoBlanks(st.sections)
    ensures NoBlanks(Load(st, logical).sections)
    decreases |logical|
  {
    hide ParseLine, NoBlanks, Apply;
    if logical != [] {
      var r := ParseLine(logical[0]);
      KeyBlankless(logical[0]);
      ApplyBlankless(st, r);
      LoadBlankless(Apply(st, r), logical[1..]);
    }
  }

  lemma KeyBlankless(l: string)
    ensures ParseLine(l).Line? ==> ' ' !in ParseLine(l).line.key
  {
    hide Scan, Trim, DropLeading, Normalize;
    var r := Scan(DropLeading(l), KEY_STOPS, "", false);
    NormalizeSound(r.text);
  }

  /** decode_plaintext, of any text over any keyring: it throws unless every section but
      "global" names an entity and every line of it is a key in base64, caps of some
      subsystem, or an auid.  Otherwise every entity takes from its section the key,
      the auid and, all at once, the caps, as far as they are there, and nothing else
      changes. */
  lemma DecodedExact(keys: Keys, text: string, isUtf8: string -> bool)
    ensures var sections, r := Loaded(text, isUtf8), Decoded(keys, text, isUtf8);
            && (r.ok <==> SectionsAcceptable(sections))
            && (r.ok ==> forall n: EntityName ::
                  if ToStr(n) in sections then EntityRead(keys, r.keys, n, sections[ToStr(n)])
                  else Untouched(keys, r.keys, n))
  {
    hide LinesAcceptable, FromStr, ToStr, EntityRead, Untouched, NoBlanks, Load, Lines, Logical, DecodedSections,
         InStringOrder, Distinct;
    var sections := Loaded(text, isUtf8);
    var names := InStringOrder(sections.Keys);
    FreshBlankless();
    LoadBlankless(FRESH, Logical(Lines(text), "", isUtf8));
    InStringOrderDistinct(sections.Keys);
    NoneRead(keys, sections);
    SectionsRead(keys, Decoding(keys, map[], true), sections, [], names);
    AllNamed(names);
  }

  lemma FreshBlankless()
    ensures NoBlanks(FRESH.sections)
  {
  }

  lemma NoneRead(keys: Keys, sections: Sections)
    ensures RingRead(keys, keys, sections, [])
  {
    hide ToStr;
  }

  lemma AllNamed(names: seq<string>)
    ensures [] + names == names
  {
  }
}
