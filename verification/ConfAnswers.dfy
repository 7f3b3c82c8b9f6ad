/** When printing and loading a configuration file keeps every answer of read():
    an exact condition on the keys, the values and the section names. */
module ConfAnswers {
  import opened Basics
  import opened ConfExact
  import opened ConfFileExact
  import opened ConfLines
  import opened ConfRoundTrip
  import opened ConfShrink
  import opened ConfText
  import opened ConfUtils
  import opened Covering
  import opened Ordered

  /** read() gives the same answer, for every section and every key but the empty one. */
  ghost predicate SameAnswers(a: Sections, b: Sections) {
    forall section, key | Normalize(key) != "" :: Lookup(a, section, key) == Lookup(b, section, key)
  }

  predicate SameAt(a: Sections, b: Sections, s: string, k: string) {
    && (Holds(a, s, k) <==> Holds(b, s, k))
    && (Holds(a, s, k) ==> a[s][k] == b[s][k])
  }

  ghost predicate SameEntries(a: Sections, b: Sections) {
    forall s, k | k != "" :: SameAt(a, b, s, k)
  }

  // ----- what is loaded has normalized keys -----

  predicate NormalTable(lines: map<string, string>) {
    forall k | k in lines && k != "" :: Normalized(k)
  }

  predicate NormalKeys(sections: Sections) {
    forall s | s in sections :: NormalTable(sections[s])
  }

  lemma ParsedKeyNormal(name: Scanned)
    ensures var r := ParseKey(name); r.Line? && r.line.key != "" ==> Normalized(r.line.key)
  {
    hide Normalize, Normalized, Scan, Trim, DropLeading;
    NormalizeSound(name.text);
  }

  lemma ParsedSectionKey(name: Scanned)
    ensures var r := ParseSection(name); r.Line? ==> r.line.key == ""
  {
    hide Trim, DropLeading;
  }

  lemma KeyNormal(line: string)
    ensures var r := ParseLine(line); r.Line? && r.line.key != "" ==> Normalized(r.line.key)
  {
    hide ParseKey, ParseSection, Scan, DropLeading, Normalized;
    var t := DropLeading(line);
    if t != "" {
      ParsedKeyNormal(Scan(t, KEY_STOPS, "", false));
      ParsedSectionKey(Scan(t[1..], SECTION_STOPS, "", false));
    }
  }

  lemma ApplyNormal(st: Loading, r: LineResult)
    requires InSection(st) && NormalKeys(st.sections)
    requires r.Line? && r.line.key != "" ==> Normalized(r.line.key)
    ensures NormalKeys(Apply(st, r).sections)
  {
  }

  lemma {:induction false} LoadNormal(st: Loading, logical: seq<string>)
    requires InSection(st) && NormalKeys(st.sections)
    ensures NormalKeys(Load(st, logical).sections)
    decreases |logical|
  {
    hide ParseLine, NormalKeys, Apply, Normalized;
    if logical != [] {
      KeyNormal(logical[0]);
      ApplyNormal(st, ParseLine(logical[0]));
      LoadNormal(Apply(st, ParseLine(logical[0])), logical[1..]);
    }
  }

  lemma LoadedNormal(text: string, isUtf8: string -> bool)
    ensures NormalKeys(Loaded(text, isUtf8))
  {
    LoadNormal(FRESH, Logical(Lines(text), "", isUtf8));
  }

  lemma EntryAnswered(a: Sections, b: Sections, s: string, k: string)
    requires NormalKeys(a) && NormalKeys(b) && SameAnswers(a, b) && k != ""
    ensures SameAt(a, b, s, k)
  {
    if Holds(a, s, k) || Holds(b, s, k) {
      NormalizeSound(k);
      assert Lookup(a, s, k) == Lookup(b, s, k);
    }
  }

  /** On normalized keys, the answers are the entries. */
  lemma AnswersAreEntries(a: Sections, b: Sections)
    requires NormalKeys(a) && NormalKeys(b)
    ensures SameAnswers(a, b) <==> SameEntries(a, b)
  {
    hide NormalKeys, Lookup, SameAt, Normalize;
    if SameAnswers(a, b) {
      forall s, k | k != "" ensures SameAt(a, b, s, k) {
        EntryAnswered(a, b, s, k);
      }
    }
    if SameEntries(a, b) {
      forall section, key | Normalize(key) != "" ensures Lookup(a, section, key) == Lookup(b, section, key) {
        assert SameAt(a, b, section, Normalize(key));
        EntryLooksUp(a, b, section, key);
      }
    }
  }

  lemma EntryLooksUp(a: Sections, b: Sections, section: string, key: string)
    requires SameAt(a, b, section, Normalize(key))
    ensures Lookup(a, section, key) == Lookup(b, section, key)
  {
    hide Normalize;
  }

  // ----- where the lines of a section land -----

  /** A section line opens what it reads as, or nothing. */
  function Entered(st: Loading, s: string, isUtf8: string -> bool): (st': Loading)
    requires InSection(st)
    ensures InSection(st')
  {
    var o := Opened(s, isUtf8);
    if o == "" then st
    else Loading(if o in st.sections then st.sections else st.sections[o := map[]], o)
  }

  /** The tables of the sections, each put where its section line leads. */
  function Rehomed(st: Loading, sections: Sections, names: seq<string>, isUtf8: string -> bool): (st': Loading)
    requires InSection(st) && forall s | s in names :: s in sections
    ensures InSection(st')
    decreases |names|
  {
    if names == [] then st
    else Rehomed(Extended(Entered(st, names[0], isUtf8), Visible(sections[names[0]])), sections, names[1..], isUtf8)
  }

  /** Every key and value reads back from its own line. */
  predicate KeysReadable(sections: Sections, isUtf8: string -> bool) {
    forall s | s in sections :: PrintableLines(sections[s], isUtf8)
  }

  lemma HeaderEnters(st: Loading, s: string, isUtf8: string -> bool)
    requires InSection(st)
    ensures Apply(st, ParseLine(Seen(SectionLine(s), isUtf8))) == Entered(st, s, isUtf8)
  {
    hide SectionLine, ParseLine;
    SeenBlank(SectionLine(s), isUtf8);
    SectionLineShrinks(s);
  }

  lemma {:induction false} KeysSeen(lines: map<string, string>, keys: seq<string>, isUtf8: string -> bool)
    requires PrintableLines(lines, isUtf8) && forall k | k in keys :: k in lines
    ensures forall l | l in KeyTexts(lines, keys) :: isUtf8(l)
  {
    hide KeyLine, KeyOk, ValueOk;
    if keys != [] {
      KeysSeen(lines, keys[1..], isUtf8);
    }
  }

  lemma AllSeenWhole(lines: seq<string>, isUtf8: string -> bool)
    requires forall l | l in lines :: isUtf8(l)
    ensures AllSeen(lines, isUtf8) == lines
  {
  }

  lemma AllSeenAppend(a: seq<string>, b: seq<string>, isUtf8: string -> bool)
    ensures AllSeen(a + b, isUtf8) == AllSeen(a, isUtf8) + AllSeen(b, isUtf8)
  {
  }

  lemma SectionLands(st: Loading, s: string, lines: map<string, string>, isUtf8: string -> bool)
    requires InSection(st) && PrintableLines(lines, isUtf8)
    ensures Load(st, AllSeen(SectionText(s, lines), isUtf8)) == Extended(Entered(st, s, isUtf8), Visible(lines))
  {
    hide PrintableLines, ParseLine, SectionLine, Entered, Load, KeyTexts, Visible, InStringOrder, Apply;
    var keys := InStringOrder(lines.Keys);
    var texts, head := KeyTexts(lines, keys), [SectionLine(s)];
    KeysSeen(lines, keys, isUtf8);
    AllSeenAppend(head, texts, isUtf8);
    AllSeenWhole(texts, isUtf8);
    assert AllSeen(head, isUtf8) == [Seen(SectionLine(s), isUtf8)];
    LoadCons(st, Seen(SectionLine(s), isUtf8), texts);
    HeaderEnters(st, s, isUtf8);
    LoadKeys(Entered(st, s, isUtf8), lines, keys, isUtf8);
    ListedInOrder(lines);
  }

  lemma {:induction false} SectionsLand(st: Loading, sections: Sections, names: seq<string>, isUtf8: string -> bool)
    requires InSection(st) && KeysReadable(sections, isUtf8) && forall s | s in names :: s in sections
    ensures Load(st, AllSeen(SectionTexts(sections, names), isUtf8)) == Rehomed(st, sections, names, isUtf8)
    decreases |names|
  {
    hide Load, Entered, Visible, PrintableLines, SectionText, SectionTexts, AllSeen;
    if names == [] {
      NoTexts(sections, isUtf8);
      LoadNothing(st, AllSeen(SectionTexts(sections, names), isUtf8));
    } else {
      var s := names[0];
      var text, rest := SectionText(s, sections[s]), SectionTexts(sections, names[1..]);
      var next := Extended(Entered(st, s, isUtf8), Visible(sections[s]));
      SectionTextsCons(sections, names);
      AllSeenAppend(text, rest, isUtf8);
      LoadAppend(st, AllSeen(text, isUtf8), AllSeen(rest, isUtf8));
      SectionLands(st, s, sections[s], isUtf8);
      SectionsLand(next, sections, names[1..], isUtf8);
    }
  }

  lemma NoTexts(sections: Sections, isUtf8: string -> bool)
    ensures AllSeen(SectionTexts(sections, []), isUtf8) == []
  {
  }

  /** What is loaded of a printed file, line by line as it is seen. */
  lemma PrintedSeen(sections: Sections, isUtf8: string -> bool)
    requires CleanSections(sections)
    ensures Loaded(Printed(sections), isUtf8) == SeenSections(FileTags(sections), isUtf8)
    ensures SeenTexts(FileTags(sections), isUtf8)
         == AllSeen(SectionTexts(sections, InStringOrder(sections.Keys)), isUtf8)
  {
    hide Loaded, Printed, SeenSections, Single, InStringOrder, TextOf, SectionTexts;
    var tags := FileTags(sections);
    VisibleClean(sections);
    FileTagsSingle(sections);
    FilePrinted(sections);
    LoadedSeen(tags, isUtf8);
    FileTexts(sections, InStringOrder(sections.Keys));
    SeenIsAllSeen(tags, isUtf8);
  }

  lemma SeenIsAllSeen(tags: seq<Tag>, isUtf8: string -> bool)
    ensures SeenTexts(tags, isUtf8) == AllSeen(Texts(tags), isUtf8)
  {
    hide TextOf;
  }

  lemma VisibleClean(sections: Sections)
    requires CleanSections(sections)
    ensures CleanSections(VisibleSections(sections)) && NoBlanks(sections)
  {
    hide Clean;
  }

  /** With readable keys, what is loaded is what the section lines make of the tables. */
  lemma PrintedRehomed(sections: Sections, isUtf8: string -> bool)
    requires CleanSections(sections) && KeysReadable(sections, isUtf8)
    ensures Loaded(Printed(sections), isUtf8)
         == Rehomed(FRESH, sections, InStringOrder(sections.Keys), isUtf8).sections
  {
    hide CleanSections, KeysReadable, Loaded, Printed, FileTags, Rehomed, SeenTexts, AllSeen, SectionTexts;
    PrintedSeen(sections, isUtf8);
    SectionsLand(FRESH, sections, InStringOrder(sections.Keys), isUtf8);
  }

  // ----- answers that are kept need readable keys -----

  /** The length of the value of an entry. */
  function ValueLength(sections: Sections, p: Id): nat {
    if Holds(sections, p.0, p.1) then |sections[p.0][p.1]| else 0
  }

  /** The line of p is the last to define what it defines. */
  ghost predicate IsFinal(tags: seq<Tag>, isUtf8: string -> bool, p: Id) {
    && p in Ids(tags)
    && var texts, i := SeenTexts(tags, isUtf8), IndexOf(tags, p);
       var q := Made(texts, i);
       LastDefinition(texts, |texts|, i, q.0, q.1)
  }

  ghost function FinalMap(tags: seq<Tag>, isUtf8: string -> bool): map<Id, Id> {
    map p | p in Ids(tags) && IsFinal(tags, isUtf8, p) :: Made(SeenTexts(tags, isUtf8), IndexOf(tags, p))
  }

  lemma {:induction false} LastExists(texts: seq<string>, n: nat, i: nat, section: string, key: string)
    requires i < n <= |texts| && Defines(texts, i, section, key)
    ensures exists j: nat :: LastDefinition(texts, n, j, section, key)
    decreases n
  {
    hide Defines;
    if Defines(texts, n - 1, section, key) {
      assert LastDefinition(texts, n, n - 1, section, key);
    } else {
      LastExists(texts, n - 1, i, section, key);
      var j: nat :| LastDefinition(texts, n - 1, j, section, key);
      assert LastDefinition(texts, n, j, section, key);
    }
  }

  lemma FinalReached(tags: seq<Tag>, ids: set<Id>, names: set<string>, isUtf8: string -> bool, q: Id)
    requires Tagged(tags, ids, names) && q in ids && Holds(SeenSections(tags, isUtf8), q.0, q.1)
    ensures Reached(FinalMap(tags, isUtf8), q)
  {
    hide ParseLine, Load, SectionOf, Holds;
    var texts := SeenTexts(tags, isUtf8);
    assert texts[..|texts|] == texts;
    LastDefinitionUpTo(texts, |texts|, q.0, q.1);
    var i: nat :| i < |texts| && Defines(texts, i, q.0, q.1);
    LastExists(texts, |texts|, i, q.0, q.1);
    var j: nat :| LastDefinition(texts, |texts|, j, q.0, q.1);
    FinalAt(tags, ids, names, isUtf8, j, q);
  }

  lemma FinalAt(tags: seq<Tag>, ids: set<Id>, names: set<string>, isUtf8: string -> bool, j: nat, q: Id)
    requires Tagged(tags, ids, names) && q in ids
    requires LastDefinition(SeenTexts(tags, isUtf8), |tags|, j, q.0, q.1)
    ensures Reached(FinalMap(tags, isUtf8), q)
  {
    hide ParseLine, Load, SectionOf, AllDifferent;
    OnlyQuoted(tags, ids, names, isUtf8, j, q);
    var p := IdOf(tags[j]);
    IndexUnique(tags, p, j);
    assert p in FinalMap(tags, isUtf8) && FinalMap(tags, isUtf8)[p] == q;
  }

  /** A printed value reads as no longer one, and as one as long only if it needs no
      escaping. */
  lemma ValueShrinks(k: string, v: string)
    requires NameOk(k) && ParseLine(KeyLine(k, v)).Line?
    ensures var r := ParseLine(KeyLine(k, v));
            |r.line.val| <= |v| && (|r.line.val| == |v| ==> ValueOk(v))
  {
    hide ParseLine, NameOk, KeyLine, Scan;
    ParseKeyLine(k, v);
    var s := v + "\"";
    var r := Scan(s, QUOTE_STOPS, "", false);
    if |r.text| == |v| && r.rest != "" {
      ScanLossless(s, QUOTE_STOPS, "");
      assert s[..|s| - |r.rest|] == v;
    }
  }

  function Lengths(sections: Sections): Id -> nat {
    p => ValueLength(sections, p)
  }

  /** The quoted lines are made for the entries of these sections. */
  ghost predicate MadeFor(tags: seq<Tag>, sections: Sections) {
    forall i | 0 <= i < |tags| && tags[i].Quoted? ::
      var p := IdOf(tags[i]); Holds(sections, p.0, p.1) && sections[p.0][p.1] == tags[i].val
  }

  lemma FinalShrinks(tags: seq<Tag>, sections: Sections, isUtf8: string -> bool, i: nat, p: Id, q: Id)
    requires AllRead(tags, isUtf8) && MadeFor(tags, sections) && i < |tags| && tags[i].Quoted? && IdOf(tags[i]) == p
    requires LastDefinition(SeenTexts(tags, isUtf8), |tags|, i, q.0, q.1) && q.1 != ""
    requires SameEntries(SeenSections(tags, isUtf8), sections)
    ensures ValueLength(sections, q) <= ValueLength(sections, p)
    ensures ValueLength(sections, q) == ValueLength(sections, p) && Holds(sections, q.0, q.1) ==> ValueOk(tags[i].val)
  {
    hide ParseLine, Load, SectionOf, NameOk, ValueOk, KeyLine;
    var texts, t := SeenTexts(tags, isUtf8), tags[i];
    assert EntryReads(t, isUtf8);
    SeenBlank(TextOf(t), isUtf8);
    ValueShrinks(t.name, t.val);
    assert texts[..|texts|] == texts;
    LastDefinitionUpTo(texts, |texts|, q.0, q.1);
    assert SameAt(SeenSections(tags, isUtf8), sections, q.0, q.1);
  }

  lemma MadeKey(tags: seq<Tag>, isUtf8: string -> bool, i: nat)
    requires AllRead(tags, isUtf8) && i < |tags| && tags[i].Quoted?
    ensures Made(SeenTexts(tags, isUtf8), i).1 == Underscored(tags[i].name) != ""
  {
    hide ParseLine, SectionOf, NameOk, Underscored;
    assert EntryReads(tags[i], isUtf8);
    SeenBlank(TextOf(tags[i]), isUtf8);
  }

  lemma FinalMapShrinks(tags: seq<Tag>, sections: Sections, isUtf8: string -> bool)
    requires AllRead(tags, isUtf8) && MadeFor(tags, sections)
    requires SameEntries(SeenSections(tags, isUtf8), sections)
    ensures NoneGrows(FinalMap(tags, isUtf8), Lengths(sections))
  {
    hide AllRead, SameEntries, SeenSections, MadeFor, ValueLength, SeenTexts, Made, LastDefinition;
    var m := FinalMap(tags, isUtf8);
    forall p | p in m ensures Lengths(sections)(m[p]) <= Lengths(sections)(p) {
      var i := IndexOf(tags, p);
      MadeKey(tags, isUtf8, i);
      FinalShrinks(tags, sections, isUtf8, i, p, m[p]);
    }
  }

  lemma FinalMapLevel(tags: seq<Tag>, ids: set<Id>, names: set<string>, sections: Sections, isUtf8: string -> bool)
    requires Tagged(tags, ids, names) && AllRead(tags, isUtf8) && MadeFor(tags, sections) && Ids(tags) == ids
    requires AllHeld(SeenSections(tags, isUtf8), ids) && SameEntries(SeenSections(tags, isUtf8), sections)
    ensures Level(FinalMap(tags, isUtf8), ids, Lengths(sections))
  {
    hide Tagged, AllRead, MadeFor, SeenSections, SameEntries, IsFinal, Holds;
    var m := FinalMap(tags, isUtf8);
    forall q | q in ids ensures Reached(m, q) {
      FinalReached(tags, ids, names, isUtf8, q);
    }
    FinalMapShrinks(tags, sections, isUtf8);
    Covered(m, ids, Lengths(sections));
  }

  /** If the entries come back, every line defines its own key, and its value needs
      no escaping. */
  lemma ValuesCovered(tags: seq<Tag>, ids: set<Id>, names: set<string>, sections: Sections, isUtf8: string -> bool,
                      i: nat)
    requires Tagged(tags, ids, names) && AllRead(tags, isUtf8) && MadeFor(tags, sections) && Ids(tags) == ids
    requires AllHeld(SeenSections(tags, isUtf8), ids) && SameEntries(SeenSections(tags, isUtf8), sections)
    requires AllHeld(sections, ids) && i < |tags| && tags[i].Quoted?
    ensures ValueOk(tags[i].val)
  {
    hide Tagged, AllRead, MadeFor, SeenSections, SameEntries, ValueOk, Holds, ValueLength, SeenTexts, Made,
         LastDefinition;
    var p := IdOf(tags[i]);
    FinalMapLevel(tags, ids, names, sections, isUtf8);
    IndexOfTag(tags, ids, names, i);
    var q := FinalMap(tags, isUtf8)[p];
    MadeKey(tags, isUtf8, i);
    FinalShrinks(tags, sections, isUtf8, i, p, q);
  }

  lemma IndexOfTag(tags: seq<Tag>, ids: set<Id>, names: set<string>, i: nat)
    requires Tagged(tags, ids, names) && i < |tags| && tags[i].Quoted?
    ensures IdOf(tags[i]) in Ids(tags) && IndexOf(tags, IdOf(tags[i])) == i
  {
    IndexUnique(tags, IdOf(tags[i]), i);
  }

  lemma KeptReads(sections: Sections, isUtf8: string -> bool)
    requires CleanSections(sections) && SameEntries(SeenSections(FileTags(sections), isUtf8), sections)
    ensures var tags, ids := FileTags(sections), WantedIds(sections);
            && Tagged(tags, ids, WantedNames(sections)) && AllRead(tags, isUtf8) && Ids(tags) == ids
            && AllHeld(SeenSections(tags, isUtf8), ids) && AllHeld(sections, ids)
  {
    hide SeenSections, FileTags, AllRead, Tagged, CleanSections;
    var tags, ids := FileTags(sections), WantedIds(sections);
    VisibleClean(sections);
    FileTagged(sections);
    forall p | p in ids ensures Holds(sections, p.0, p.1) && Holds(SeenSections(tags, isUtf8), p.0, p.1) {
      assert SameAt(SeenSections(tags, isUtf8), sections, p.0, p.1);
    }
    EntriesCovered(tags, ids, WantedNames(sections), isUtf8);
  }

  lemma FileMadeFor(sections: Sections)
    requires NoBlanks(sections)
    ensures MadeFor(FileTags(sections), sections)
  {
    hide FileTags;
    var tags := FileTags(sections);
    forall i | 0 <= i < |tags| && tags[i].Quoted?
      ensures var p := IdOf(tags[i]); Holds(sections, p.0, p.1) && sections[p.0][p.1] == tags[i].val
    {
      assert tags[i] in tags;
      FileTagsExact(sections, tags[i]);
      UnderscoredFixed(tags[i].name);
    }
  }

  lemma KeptLine(sections: Sections, isUtf8: string -> bool, s: string, k: string)
    requires CleanSections(sections) && SameEntries(SeenSections(FileTags(sections), isUtf8), sections)
    requires s in sections && k in sections[s] && k != ""
    ensures KeyOk(k) && ValueOk(sections[s][k]) && isUtf8(KeyLine(k, sections[s][k]))
  {
    hide SeenSections, FileTags, AllRead, Tagged, CleanSections, SameEntries, MadeFor, KeyLine, ValueOk, NoBlanks,
         AllHeld;
    var tags, t := FileTags(sections), Quoted(s, k, sections[s][k]);
    VisibleClean(sections);
    FileMadeFor(sections);
    KeptReads(sections, isUtf8);
    FileTagsExact(sections, t);
    var i :| 0 <= i < |tags| && tags[i] == t;
    ValuesCovered(tags, WantedIds(sections), WantedNames(sections), sections, isUtf8, i);
    ReadAt(tags, isUtf8, i);
    NoBlankIn(sections, s, k);
    NameIsKey(k);
  }

  lemma ReadAt(tags: seq<Tag>, isUtf8: string -> bool, i: nat)
    requires AllRead(tags, isUtf8) && i < |tags| && tags[i].Quoted?
    ensures EntryReads(tags[i], isUtf8)
  {
  }

  lemma NoBlankIn(sections: Sections, s: string, k: string)
    requires NoBlanks(sections) && s in sections && k in sections[s]
    ensures ' ' !in k
  {
  }

  lemma KeptTable(sections: Sections, isUtf8: string -> bool, s: string)
    requires CleanSections(sections) && SameEntries(SeenSections(FileTags(sections), isUtf8), sections)
    requires s in sections
    ensures PrintableLines(sections[s], isUtf8)
  {
    hide SameEntries, SeenSections, FileTags, KeyOk, ValueOk, KeyLine;
    var lines := sections[s];
    assert CleanTable(lines);
    forall k | k in lines && k != ""
      ensures KeyOk(k) && ValueOk(lines[k]) && isUtf8(KeyLine(k, lines[k])) && Clean(k) && Clean(lines[k])
    {
      KeptLine(sections, isUtf8, s, k);
    }
  }

  lemma KeptReadable(sections: Sections, isUtf8: string -> bool)
    requires CleanSections(sections) && SameEntries(Loaded(Printed(sections), isUtf8), sections)
    ensures KeysReadable(sections, isUtf8)
  {
    hide CleanSections, SameEntries, SeenSections, FileTags, Loaded, Printed, PrintableLines;
    PrintedSeen(sections, isUtf8);
    forall s | s in sections ensures PrintableLines(sections[s], isUtf8) {
      KeptTable(sections, isUtf8, s);
    }
  }

  /** Every answer is kept if and only if every key and value is readable, and the
      section lines lead every table to where it was. */
  lemma AnswersExact(sections: Sections, isUtf8: string -> bool)
    requires CleanSections(sections) && NormalKeys(sections)
    ensures SameAnswers(Loaded(Printed(sections), isUtf8), sections)
       <==> && KeysReadable(sections, isUtf8)
            && SameEntries(Rehomed(FRESH, sections, InStringOrder(sections.Keys), isUtf8).sections, sections)
  {
    hide CleanSections, NormalKeys, SameEntries, SameAnswers, KeysReadable, Loaded, Printed, Rehomed;
    LoadedNormal(Printed(sections), isUtf8);
    AnswersAreEntries(Loaded(Printed(sections), isUtf8), sections);
    if SameEntries(Loaded(Printed(sections), isUtf8), sections) {
      KeptReadable(sections, isUtf8);
    }
    if KeysReadable(sections, isUtf8) {
      PrintedRehomed(sections, isUtf8);
    }
  }

  /** The same for every file that was loaded. */
  lemma LoadedAnswersExact(text: string, isUtf8: string -> bool)
    ensures var sections := Loaded(text, isUtf8);
            SameAnswers(Loaded(Printed(sections), isUtf8), sections)
            <==> && KeysReadable(sections, isUtf8)
                 && SameEntries(Rehomed(FRESH, sections, InStringOrder(sections.Keys), isUtf8).sections, sections)
  {
    hide Loaded, Printed, Rehomed, SameEntries, SameAnswers, KeysReadable, CleanSections, NormalKeys;
    LoadedClean(text, isUtf8);
    LoadedNormal(text, isUtf8);
    AnswersExact(Loaded(text, isUtf8), isUtf8);
  }

  // ----- sections without visible keys do not matter -----

  /** A section whose lines matter has a line that is read. */
  predicate SectionsReadable(sections: Sections, isUtf8: string -> bool) {
    forall s | s in sections && Visible(sections[s]) != map[] :: SectionNameOk(s) && isUtf8(SectionLine(s))
  }

  /** The entries of the sections in `done`, and no others. */
  ghost predicate HoldsThese(st: Sections, sections: Sections, done: seq<string>) {
    forall s, k | k != "" ::
      && (Holds(st, s, k) <==> s in done && Holds(sections, s, k))
      && (Holds(st, s, k) ==> s in sections && st[s][k] == sections[s][k])
  }

  lemma OwnLanding(st: Loading, s: string, isUtf8: string -> bool)
    requires InSection(st) && SectionNameOk(s) && isUtf8(SectionLine(s)) && '\0' !in s
    ensures Entered(st, s, isUtf8).current == s
  {
    hide ParseLine, SectionLine;
    SectionLineExact(s);
    SeenBlank(SectionLine(s), isUtf8);
  }

  lemma EnteredHolds(st: Loading, s: string, isUtf8: string -> bool, t: string, k: string)
    requires InSection(st)
    ensures Holds(Entered(st, s, isUtf8).sections, t, k) <==> Holds(st.sections, t, k)
    ensures Holds(st.sections, t, k) ==> Entered(st, s, isUtf8).sections[t][k] == st.sections[t][k]
  {
    hide Opened;
  }

  lemma ExtendedHolds(st: Loading, more: map<string, string>, t: string, k: string)
    requires InSection(st)
    ensures var next := Extended(st, more).sections;
            && (Holds(next, t, k) <==> Holds(st.sections, t, k) || (t == st.current && k in more))
            && (Holds(next, t, k) ==>
                  next[t][k] == if t == st.current && k in more then more[k] else st.sections[t][k])
  {
  }

  lemma LandsNext(st: Loading, sections: Sections, done: seq<string>, s: string, isUtf8: string -> bool)
    requires InSection(st) && s in sections && s !in done && HoldsThese(st.sections, sections, done)
    requires Visible(sections[s]) != map[] ==> Entered(st, s, isUtf8).current == s
    ensures HoldsThese(Extended(Entered(st, s, isUtf8), Visible(sections[s])).sections, sections, done + [s])
  {
    hide Entered, Extended;
    var mid, more := Entered(st, s, isUtf8), Visible(sections[s]);
    var next := Extended(mid, more).sections;
    forall t, k | k != ""
      ensures Holds(next, t, k) <==> t in done + [s] && Holds(sections, t, k)
      ensures Holds(next, t, k) ==> t in sections && next[t][k] == sections[t][k]
    {
      EnteredHolds(st, s, isUtf8, t, k);
      ExtendedHolds(mid, more, t, k);
      assert k in more <==> Holds(sections, s, k);
      assert Holds(st.sections, t, k) <==> t in done && Holds(sections, t, k);
    }
  }

  lemma {:induction false} AllLand(st: Loading, sections: Sections, done: seq<string>, names: seq<string>,
                                   isUtf8: string -> bool)
    requires InSection(st) && SectionsReadable(sections, isUtf8) && CleanSections(sections)
    requires Distinct(done + names) && forall s | s in names :: s in sections
    requires HoldsThese(st.sections, sections, done)
    ensures HoldsThese(Rehomed(st, sections, names, isUtf8).sections, sections, done + names)
    decreases |names|
  {
    hide Entered, Extended, HoldsThese, Distinct, Clean;
    if names == [] {
      assert done + names == done;
    } else {
      var s := names[0];
      if Visible(sections[s]) != map[] {
        NoNull(sections, s);
        OwnLanding(st, s, isUtf8);
      }
      NotDone(done, names);
      LandsNext(st, sections, done, s, isUtf8);
      assert done + [s] + names[1..] == done + names;
      AllLand(Extended(Entered(st, s, isUtf8), Visible(sections[s])), sections, done + [s], names[1..], isUtf8);
    }
  }

  lemma NoNull(sections: Sections, s: string)
    requires CleanSections(sections) && s in sections
    ensures '\0' !in s
  {
  }

  lemma NotDone(done: seq<string>, names: seq<string>)
    requires Distinct(done + names) && names != []
    ensures names[0] !in done
  {
    var all := done + names;
    forall i | 0 <= i < |done| ensures done[i] != names[0] {
      assert all[i] != all[|done|];
    }
  }

  lemma FreshHoldsNone(sections: Sections)
    ensures HoldsThese(FRESH.sections, sections, [])
  {
  }

  lemma TheseAreAll(st: Sections, sections: Sections)
    requires HoldsThese(st, sections, InStringOrder(sections.Keys))
    ensures SameEntries(st, sections)
  {
  }

  /** Readable keys, and readable names of the sections that have keys, are enough:
      sections without them are printed and need not read back. */
  lemma ReadableKeepsAnswers(sections: Sections, isUtf8: string -> bool)
    requires CleanSections(sections) && NormalKeys(sections)
    requires KeysReadable(sections, isUtf8) && SectionsReadable(sections, isUtf8)
    ensures SameAnswers(Loaded(Printed(sections), isUtf8), sections)
  {
    hide CleanSections, NormalKeys, KeysReadable, SectionsReadable, SameAnswers, SameEntries, Loaded, Printed, Rehomed,
         HoldsThese;
    var names := InStringOrder(sections.Keys);
    InStringOrderDistinct(sections.Keys);
    FreshHoldsNone(sections);
    assert [] + names == names;
    AllLand(FRESH, sections, [], names, isUtf8);
    TheseAreAll(Rehomed(FRESH, sections, names, isUtf8).sections, sections);
    AnswersExact(sections, isUtf8);
  }
}
