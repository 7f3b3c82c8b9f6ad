/** When a printed file reads back: exactly when each of its lines does. */
module ConfExact {
  import opened ConfUtils
  import opened ConfLines
  import opened ConfText
  import opened ConfRoundTrip
  import opened ConfShrink
  import opened Covering

  // ----- the lines of a printed file -----

  /** A section line, a line with a quoted value, or another line, of which only
      the key it defines matters. */
  datatype Tag =
    | Header(section: string)
    | Quoted(section: string, name: string, val: string)
    | Bare(section: string, key: string, line: string)

  type Id = (string, string)

  /** What a quoted line is to define. */
  function IdOf(t: Tag): Id
    requires t.Quoted?
  {
    (t.section, Underscored(t.name))
  }

  function TextOf(t: Tag): string {
    match t
    case Header(s) => SectionLine(s)
    case Quoted(_, k, v) => KeyLine(k, v)
    case Bare(_, _, line) => line
  }

  /** A line as it is loaded: one that is not UTF-8 counts as empty. */
  function Seen(line: string, isUtf8: string -> bool): string {
    if isUtf8(line) then line else ""
  }

  function SeenTexts(tags: seq<Tag>, isUtf8: string -> bool): (r: seq<string>)
    ensures |r| == |tags| && forall i | 0 <= i < |r| :: r[i] == Seen(TextOf(tags[i]), isUtf8)
  {
    seq(|tags|, i requires 0 <= i < |tags| => Seen(TextOf(tags[i]), isUtf8))
  }

  predicate Different(a: Tag, b: Tag) {
    && !(a.Header? && b.Header? && a.section == b.section)
    && !(a.Quoted? && b.Quoted? && IdOf(a) == IdOf(b))
  }

  ghost predicate AllDifferent(tags: seq<Tag>) {
    forall i, j | 0 <= i < j < |tags| :: Different(tags[i], tags[j])
  }

  /** A line of a file whose quoted lines define `ids` and whose sections are
      `names` and, perhaps, the global one. */
  predicate TagOk(t: Tag, ids: set<Id>, names: set<string>) {
    match t
    case Header(s) => s in names || s == "global"
    case Quoted(_, k, _) => k != "" && IdOf(t) in ids
    case Bare(_, key, line) =>
      && (ParseLine(line).Line? ==> ParseLine(line).line.newsection == "" && ParseLine(line).line.key == key)
      && forall p | p in ids :: p.1 != key
  }

  ghost predicate Tagged(tags: seq<Tag>, ids: set<Id>, names: set<string>) {
    && AllDifferent(tags) && "global" !in names
    && (forall i | 0 <= i < |tags| :: TagOk(tags[i], ids, names))
    && (forall p | p in ids :: p.1 != "")
  }

  // ----- every wanted entry needs its own line -----

  /** What a line defines; the empty key when it defines none. */
  function Made(texts: seq<string>, i: nat): Id
    requires i < |texts|
  {
    (SectionOf(texts, i), if DefinesKey(ParseLine(texts[i])) then ParseLine(texts[i]).line.key else "")
  }

  predicate IsAt(tags: seq<Tag>, i: nat, p: Id) {
    i < |tags| && tags[i].Quoted? && IdOf(tags[i]) == p
  }

  function Ids(tags: seq<Tag>): set<Id> {
    set i | 0 <= i < |tags| && tags[i].Quoted? :: IdOf(tags[i])
  }

  ghost function IndexOf(tags: seq<Tag>, p: Id): (i: nat)
    requires p in Ids(tags)
    ensures IsAt(tags, i, p)
  {
    var i :| 0 <= i < |tags| && tags[i].Quoted? && IdOf(tags[i]) == p;
    i
  }

  lemma IndexUnique(tags: seq<Tag>, p: Id, i: nat)
    requires AllDifferent(tags) && IsAt(tags, i, p)
    ensures p in Ids(tags) && IndexOf(tags, p) == i
  {
    var j := IndexOf(tags, p);
    assert IsAt(tags, j, p);
  }

  ghost function MadeMap(tags: seq<Tag>, isUtf8: string -> bool): map<Id, Id> {
    map p | p in Ids(tags) :: Made(SeenTexts(tags, isUtf8), IndexOf(tags, p))
  }

  function KeyLength(p: Id): nat {
    |p.1|
  }

  /** What is loaded from the lines as they are seen. */
  function SeenSections(tags: seq<Tag>, isUtf8: string -> bool): Sections {
    Load(FRESH, SeenTexts(tags, isUtf8)).sections
  }

  lemma SeenBlank(line: string, isUtf8: string -> bool)
    ensures ParseLine(Seen(line, isUtf8)) == if isUtf8(line) then ParseLine(line) else Blank
  {
  }

  /** A line that defines a wanted entry is a quoted one. */
  lemma OnlyQuoted(tags: seq<Tag>, ids: set<Id>, names: set<string>, isUtf8: string -> bool, i: nat, p: Id)
    requires Tagged(tags, ids, names) && p in ids && i < |tags|
    requires Defines(SeenTexts(tags, isUtf8), i, p.0, p.1)
    ensures tags[i].Quoted? && Made(SeenTexts(tags, isUtf8), i) == p
  {
    var t := tags[i];
    assert TagOk(t, ids, names);
    SeenBlank(TextOf(t), isUtf8);
    if t.Header? {
      SectionLineShrinks(t.section);
    }
  }

  lemma WantedReached(tags: seq<Tag>, ids: set<Id>, names: set<string>, isUtf8: string -> bool, p: Id)
    requires Tagged(tags, ids, names) && p in ids && Holds(SeenSections(tags, isUtf8), p.0, p.1)
    ensures Reached(MadeMap(tags, isUtf8), p)
  {
    var texts := SeenTexts(tags, isUtf8);
    assert texts[..|texts|] == texts;
    LastDefinitionUpTo(texts, |texts|, p.0, p.1);
    var i: nat :| i < |texts| && Defines(texts, i, p.0, p.1);
    OnlyQuoted(tags, ids, names, isUtf8, i, p);
    var q := IdOf(tags[i]);
    IndexUnique(tags, q, i);
    assert q in MadeMap(tags, isUtf8) && MadeMap(tags, isUtf8)[q] == p;
  }

  lemma MadeShrinks(tags: seq<Tag>, ids: set<Id>, names: set<string>, isUtf8: string -> bool, p: Id)
    requires Tagged(tags, ids, names) && p in Ids(tags)
    ensures p in ids && KeyLength(MadeMap(tags, isUtf8)[p]) <= KeyLength(p)
  {
    var i := IndexOf(tags, p);
    assert TagOk(tags[i], ids, names);
    SeenBlank(TextOf(tags[i]), isUtf8);
    KeyLineShrinks(tags[i].name, tags[i].val);
  }

  ghost predicate AllHeld(sections: Sections, ids: set<Id>) {
    forall p | p in ids :: Holds(sections, p.0, p.1)
  }

  /** The line of a tag reads as what it is to define. */
  predicate EntryReads(t: Tag, isUtf8: string -> bool)
    requires t.Quoted?
  {
    var r := ParseLine(TextOf(t));
    isUtf8(TextOf(t)) && NameOk(t.name) && DefinesKey(r) && r.line.key == Underscored(t.name)
  }

  lemma MadeMapCovers(tags: seq<Tag>, ids: set<Id>, names: set<string>, isUtf8: string -> bool)
    requires Tagged(tags, ids, names) && AllHeld(SeenSections(tags, isUtf8), ids)
    ensures Covers(MadeMap(tags, isUtf8), ids)
  {
    var m := MadeMap(tags, isUtf8);
    forall p | p in ids ensures Reached(m, p) {
      WantedReached(tags, ids, names, isUtf8, p);
    }
  }

  lemma MadeMapShrinks(tags: seq<Tag>, ids: set<Id>, names: set<string>, isUtf8: string -> bool)
    requires Tagged(tags, ids, names)
    ensures MadeMap(tags, isUtf8).Keys == Ids(tags) <= ids && NoneGrows(MadeMap(tags, isUtf8), KeyLength)
  {
    var m := MadeMap(tags, isUtf8);
    forall p | p in Ids(tags) ensures p in ids && KeyLength(m[p]) <= KeyLength(p) {
      MadeShrinks(tags, ids, names, isUtf8, p);
    }
  }

  lemma MadeMapLevel(tags: seq<Tag>, ids: set<Id>, names: set<string>, isUtf8: string -> bool)
    requires Tagged(tags, ids, names) && AllHeld(SeenSections(tags, isUtf8), ids)
    ensures Ids(tags) == ids && Level(MadeMap(tags, isUtf8), ids, KeyLength)
  {
    MadeMapCovers(tags, ids, names, isUtf8);
    MadeMapShrinks(tags, ids, names, isUtf8);
    Covered(MadeMap(tags, isUtf8), ids, KeyLength);
  }

  ghost predicate AllRead(tags: seq<Tag>, isUtf8: string -> bool) {
    forall i | 0 <= i < |tags| && tags[i].Quoted? :: EntryReads(tags[i], isUtf8)
  }

  /** If everything wanted is loaded, then every line is there, and defines its
      own key. */
  lemma EntriesCovered(tags: seq<Tag>, ids: set<Id>, names: set<string>, isUtf8: string -> bool)
    requires Tagged(tags, ids, names) && AllHeld(SeenSections(tags, isUtf8), ids)
    ensures Ids(tags) == ids && AllRead(tags, isUtf8)
  {
    MadeMapLevel(tags, ids, names, isUtf8);
    forall i | 0 <= i < |tags| && tags[i].Quoted? ensures EntryReads(tags[i], isUtf8) {
      LevelReads(tags, ids, names, isUtf8, i);
    }
  }

  lemma LevelReads(tags: seq<Tag>, ids: set<Id>, names: set<string>, isUtf8: string -> bool, i: nat)
    requires Tagged(tags, ids, names) && i < |tags| && tags[i].Quoted?
    requires Level(MadeMap(tags, isUtf8), ids, KeyLength)
    ensures EntryReads(tags[i], isUtf8)
  {
    var p := IdOf(tags[i]);
    IndexUnique(tags, p, i);
    assert p in MadeMap(tags, isUtf8);
    MadeReads(tags, ids, names, isUtf8, i);
  }

  lemma MadeReads(tags: seq<Tag>, ids: set<Id>, names: set<string>, isUtf8: string -> bool, i: nat)
    requires Tagged(tags, ids, names) && i < |tags| && tags[i].Quoted?
    requires Made(SeenTexts(tags, isUtf8), i) in ids
    requires KeyLength(Made(SeenTexts(tags, isUtf8), i)) == KeyLength(IdOf(tags[i]))
    ensures EntryReads(tags[i], isUtf8)
  {
    SeenBlank(TextOf(tags[i]), isUtf8);
    KeyLineShrinks(tags[i].name, tags[i].val);
  }

  // ----- every wanted section needs its own line -----

  predicate Opens(line: string, section: string) {
    OpensSection(line) && ParseLine(line).line.newsection == section
  }

  lemma {:induction false} SectionOpened(texts: seq<string>, n: nat, section: string)
    requires n <= |texts| && section in Load(FRESH, texts[..n]).sections
    ensures section == "global" || exists i: nat :: i < n && Opens(texts[i], section)
  {
    hide ParseLine, Load;
    if n == 0 {
      LoadNothing(FRESH, texts[..0]);
    } else {
      LoadPrefix(texts, n - 1);
      if section in Load(FRESH, texts[..n - 1]).sections {
        SectionOpened(texts, n - 1, section);
      } else {
        assert Opens(texts[n - 1], section);
      }
    }
  }

  /** The section that a section line opens, if it is seen and read. */
  function Opened(s: string, isUtf8: string -> bool): string {
    var r := ParseLine(Seen(SectionLine(s), isUtf8));
    if r.Line? then r.line.newsection else ""
  }

  lemma OpenedShrinks(s: string, isUtf8: string -> bool)
    ensures |Opened(s, isUtf8)| <= |s|
    ensures |Opened(s, isUtf8)| == |s| && Opened(s, isUtf8) != "" ==>
              isUtf8(SectionLine(s)) && SectionNameOk(s) && Opened(s, isUtf8) == s
  {
    SeenBlank(SectionLine(s), isUtf8);
    SectionLineShrinks(s);
  }

  function Headers(tags: seq<Tag>): set<string> {
    set i | 0 <= i < |tags| && tags[i].Header? && tags[i].section != "global" :: tags[i].section
  }

  function OpenMap(tags: seq<Tag>, isUtf8: string -> bool): map<string, string> {
    map s | s in Headers(tags) :: Opened(s, isUtf8)
  }

  lemma HeaderIn(tags: seq<Tag>, i: nat)
    requires i < |tags| && tags[i].Header?
    ensures tags[i].section == "global" || tags[i].section in Headers(tags)
  {
  }

  lemma GlobalReads()
    ensures ParseLine(SectionLine("global")) == Line(ConfLine("", "", "global"))
  {
    hide ParseLine, SectionLine;
    SectionLineExact("global");
  }

  lemma SeenOne(tags: seq<Tag>, ids: set<Id>, names: set<string>, isUtf8: string -> bool, i: nat)
    requires Tagged(tags, ids, names) && i < |tags|
    ensures SeenTexts(tags, isUtf8)[i] == Seen(TextOf(tags[i]), isUtf8) && TagOk(tags[i], ids, names)
    ensures "global" !in names
  {
  }

  lemma OnlyHeaders(tags: seq<Tag>, ids: set<Id>, names: set<string>, isUtf8: string -> bool, i: nat, s: string)
    requires Tagged(tags, ids, names) && s in names && i < |tags|
    requires tags[i].Quoted? ==> EntryReads(tags[i], isUtf8)
    requires Opens(SeenTexts(tags, isUtf8)[i], s)
    ensures tags[i].Header? && tags[i].section in Headers(tags) && Opened(tags[i].section, isUtf8) == s
  {
    hide Tagged, ParseLine, SectionLine, Seen, SeenTexts, Underscored;
    SeenOne(tags, ids, names, isUtf8, i);
    SeenBlank(TextOf(tags[i]), isUtf8);
    GlobalReads();
    if tags[i].Header? {
      HeaderIn(tags, i);
    }
  }

  lemma SectionReached(tags: seq<Tag>, ids: set<Id>, names: set<string>, isUtf8: string -> bool, s: string)
    requires Tagged(tags, ids, names) && AllRead(tags, isUtf8)
    requires s in names && s in SeenSections(tags, isUtf8)
    ensures s != "" && Reached(OpenMap(tags, isUtf8), s)
  {
    var texts := SeenTexts(tags, isUtf8);
    assert texts[..|texts|] == texts;
    SectionOpened(texts, |texts|, s);
    var i: nat :| i < |texts| && Opens(texts[i], s);
    OnlyHeaders(tags, ids, names, isUtf8, i, s);
    var h := tags[i].section;
    assert h in OpenMap(tags, isUtf8) && OpenMap(tags, isUtf8)[h] == s;
  }

  function Length(s: string): nat {
    |s|
  }

  lemma HeadersNamed(tags: seq<Tag>, ids: set<Id>, names: set<string>)
    requires Tagged(tags, ids, names)
    ensures Headers(tags) <= names
  {
    forall i | 0 <= i < |tags| && tags[i].Header? ensures tags[i].section in names || tags[i].section == "global" {
      assert TagOk(tags[i], ids, names);
    }
  }

  lemma OpenMapKeys(tags: seq<Tag>, isUtf8: string -> bool)
    ensures OpenMap(tags, isUtf8).Keys == Headers(tags)
  {
  }

  lemma OpenMapLevel(tags: seq<Tag>, ids: set<Id>, names: set<string>, isUtf8: string -> bool)
    requires Tagged(tags, ids, names) && AllRead(tags, isUtf8)
    requires names <= SeenSections(tags, isUtf8).Keys
    ensures Headers(tags) == names && "" !in names && Level(OpenMap(tags, isUtf8), names, Length)
  {
    hide Tagged, AllRead, SeenSections, Covers, NoneGrows, OpenMap, Headers;
    HeadersNamed(tags, ids, names);
    OpenMapKeys(tags, isUtf8);
    OpenMapCovers(tags, ids, names, isUtf8);
    OpenMapShrinks(tags, isUtf8);
    Covered(OpenMap(tags, isUtf8), names, Length);
  }

  lemma OpenMapCovers(tags: seq<Tag>, ids: set<Id>, names: set<string>, isUtf8: string -> bool)
    requires Tagged(tags, ids, names) && AllRead(tags, isUtf8)
    requires names <= SeenSections(tags, isUtf8).Keys
    ensures "" !in names && Covers(OpenMap(tags, isUtf8), names)
  {
    forall s | s in names ensures s != "" && Reached(OpenMap(tags, isUtf8), s) {
      SectionReached(tags, ids, names, isUtf8, s);
    }
  }

  lemma OpenMapShrinks(tags: seq<Tag>, isUtf8: string -> bool)
    ensures NoneGrows(OpenMap(tags, isUtf8), Length)
  {
    forall s | s in Headers(tags) ensures |Opened(s, isUtf8)| <= |s| {
      OpenedShrinks(s, isUtf8);
    }
  }

  /** If every wanted section is loaded, then each has its line, and every section
      line reads as what it is. */
  lemma SectionsCovered(tags: seq<Tag>, ids: set<Id>, names: set<string>, isUtf8: string -> bool)
    requires Tagged(tags, ids, names) && AllRead(tags, isUtf8)
    requires names <= SeenSections(tags, isUtf8).Keys
    ensures Headers(tags) == names
    ensures forall s | s in names :: isUtf8(SectionLine(s)) && SectionNameOk(s)
  {
    OpenMapLevel(tags, ids, names, isUtf8);
    forall s | s in names ensures isUtf8(SectionLine(s)) && SectionNameOk(s) {
      OpenedShrinks(s, isUtf8);
      LevelOpens(OpenMap(tags, isUtf8), names, s);
    }
  }

  lemma LevelOpens(m: map<string, string>, names: set<string>, s: string)
    requires Level(m, names, Length) && s in names && "" !in names
    ensures s in m && m[s] != "" && |m[s]| == |s|
  {
    assert m[s] in names && Length(m[s]) == Length(s);
  }

  // ----- every value has to be readable -----

  /** Every line is behind the line of its section, or behind another of its lines. */
  ghost predicate Placed(tags: seq<Tag>) {
    forall i | 0 <= i < |tags| && !tags[i].Header? :: i > 0 && tags[i - 1].section == tags[i].section
  }

  ghost predicate HeadersRead(tags: seq<Tag>, isUtf8: string -> bool) {
    forall i | 0 <= i < |tags| && tags[i].Header? :: isUtf8(TextOf(tags[i])) && SectionNameOk(tags[i].section)
  }

  lemma {:induction false} SectionOfTag(tags: seq<Tag>, ids: set<Id>, names: set<string>, isUtf8: string -> bool,
                                        i: nat)
    requires Tagged(tags, ids, names) && AllRead(tags, isUtf8) && HeadersRead(tags, isUtf8) && Placed(tags)
    requires 0 < i <= |tags|
    ensures SectionOf(SeenTexts(tags, isUtf8), i) == tags[i - 1].section
  {
    var t := tags[i - 1];
    assert TagOk(t, ids, names);
    SeenBlank(TextOf(t), isUtf8);
    if t.Header? {
      SectionLineExact(t.section);
    } else {
      assert tags[i - 2].section == t.section;
      SectionOfTag(tags, ids, names, isUtf8, i - 1);
    }
  }

  lemma DefinedOnce(tags: seq<Tag>, ids: set<Id>, names: set<string>, isUtf8: string -> bool, i: nat, j: nat)
    requires Tagged(tags, ids, names) && AllRead(tags, isUtf8) && HeadersRead(tags, isUtf8) && Placed(tags)
    requires i < |tags| && j < |tags| && tags[i].Quoted?
    requires Defines(SeenTexts(tags, isUtf8), j, tags[i].section, Underscored(tags[i].name))
    ensures i == j
  {
    var p := IdOf(tags[i]);
    assert TagOk(tags[i], ids, names);
    OnlyQuoted(tags, ids, names, isUtf8, j, p);
    assert !tags[j].Header? && j > 0;
    SectionOfTag(tags, ids, names, isUtf8, j);
    SeenBlank(TextOf(tags[j]), isUtf8);
    IndexUnique(tags, p, i);
    IndexUnique(tags, p, j);
  }

  lemma ValueRead(tags: seq<Tag>, ids: set<Id>, names: set<string>, isUtf8: string -> bool, i: nat)
    requires Tagged(tags, ids, names) && AllRead(tags, isUtf8) && HeadersRead(tags, isUtf8) && Placed(tags)
    requires i < |tags| && tags[i].Quoted?
    ensures var p, sections := IdOf(tags[i]), SeenSections(tags, isUtf8);
            Holds(sections, p.0, p.1) && sections[p.0][p.1] == ParseLine(TextOf(tags[i])).line.val
  {
    var p := IdOf(tags[i]);
    var texts := SeenTexts(tags, isUtf8);
    assert tags[i - 1].section == tags[i].section;
    SectionOfTag(tags, ids, names, isUtf8, i);
    SeenBlank(TextOf(tags[i]), isUtf8);
    assert Defines(texts, i, p.0, p.1);
    forall j: nat | i < j < |texts| ensures !Defines(texts, j, p.0, p.1) {
      if Defines(texts, j, p.0, p.1) {
        DefinedOnce(tags, ids, names, isUtf8, i, j);
      }
    }
    assert LastDefinition(texts, |texts|, i, p.0, p.1);
    assert texts[..|texts|] == texts;
    LastDefinitionUpTo(texts, |texts|, p.0, p.1);
  }

  /** A value that comes back needs no escaping. */
  lemma ValueNeeded(tags: seq<Tag>, ids: set<Id>, names: set<string>, isUtf8: string -> bool, i: nat)
    requires Tagged(tags, ids, names) && AllRead(tags, isUtf8) && HeadersRead(tags, isUtf8) && Placed(tags)
    requires i < |tags| && tags[i].Quoted?
    requires var p, sections := IdOf(tags[i]), SeenSections(tags, isUtf8);
             Holds(sections, p.0, p.1) ==> sections[p.0][p.1] == tags[i].val
    ensures ValueOk(tags[i].val)
  {
    ValueRead(tags, ids, names, isUtf8, i);
    var t := tags[i];
    assert EntryReads(t, isUtf8);
    QuotedLineExact(t.name, t.val);
  }

  /** The same for a tag that stands somewhere among the tags. */
  lemma TagNeeded(tags: seq<Tag>, ids: set<Id>, names: set<string>, isUtf8: string -> bool, t: Tag)
    requires Tagged(tags, ids, names) && AllRead(tags, isUtf8) && HeadersRead(tags, isUtf8) && Placed(tags)
    requires t in tags && t.Quoted?
    requires var p, sections := IdOf(t), SeenSections(tags, isUtf8);
             Holds(sections, p.0, p.1) ==> sections[p.0][p.1] == t.val
    ensures ValueOk(t.val) && EntryReads(t, isUtf8)
  {
    hide Tagged, HeadersRead, Placed, SeenSections, Holds, ValueOk, EntryReads;
    var i :| 0 <= i < |tags| && tags[i] == t;
    ValueNeeded(tags, ids, names, isUtf8, i);
  }
}
