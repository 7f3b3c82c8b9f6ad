/** The round trip of a whole configuration file holds if and only if the file is
    printable. */
module ConfFileExact {
  import opened Basics
  import opened ConfUtils
  import opened ConfLines
  import opened ConfText
  import opened ConfRoundTrip
  import opened ConfShrink
  import opened ConfExact
  import opened Ordered

  // ----- a file in blocks -----

  /** A section line and the lines behind it. */
  datatype Block = Block(section: string, entries: seq<Tag>)

  function TagsOf(blocks: seq<Block>): seq<Tag> {
    if blocks == [] then [] else [Header(blocks[0].section)] + blocks[0].entries + TagsOf(blocks[1..])
  }

  ghost predicate BlockOk(b: Block) {
    && AllDifferent(b.entries)
    && forall i | 0 <= i < |b.entries| :: !b.entries[i].Header? && b.entries[i].section == b.section
  }

  ghost predicate BlocksOk(blocks: seq<Block>) {
    && (forall i | 0 <= i < |blocks| :: BlockOk(blocks[i]))
    && (forall i, j | 0 <= i < j < |blocks| :: blocks[i].section != blocks[j].section)
  }

  lemma BlocksTail(blocks: seq<Block>)
    requires BlocksOk(blocks) && blocks != []
    ensures BlockOk(blocks[0]) && BlocksOk(blocks[1..])
    ensures forall i | 0 <= i < |blocks[1..]| :: blocks[1..][i].section != blocks[0].section
  {
  }

  /** Every tag is at home in some block. */
  lemma {:induction false} TagsAtHome(blocks: seq<Block>)
    requires BlocksOk(blocks)
    ensures forall t | t in TagsOf(blocks) :: exists i :: 0 <= i < |blocks| && blocks[i].section == t.section
  {
    if blocks != [] {
      BlocksTail(blocks);
      TagsAtHome(blocks[1..]);
      forall t | t in TagsOf(blocks) ensures exists i :: 0 <= i < |blocks| && blocks[i].section == t.section {
        if t in TagsOf(blocks[1..]) {
          var i :| 0 <= i < |blocks[1..]| && blocks[1..][i].section == t.section;
          assert blocks[i + 1].section == t.section;
        } else {
          assert blocks[0].section == t.section;
        }
      }
    }
  }

  lemma DifferentJoined(a: seq<Tag>, b: seq<Tag>)
    requires AllDifferent(a) && AllDifferent(b)
    requires forall s, t | s in a && t in b :: Different(s, t)
    ensures AllDifferent(a + b)
  {
    var r := a + b;
    forall i, j | 0 <= i < j < |r| ensures Different(r[i], r[j]) {
      if i < |a| <= j {
        assert r[i] in a && r[j] in b;
      }
    }
  }

  lemma BlockDifferent(b: Block)
    requires BlockOk(b)
    ensures AllDifferent([Header(b.section)] + b.entries)
    ensures forall t | t in [Header(b.section)] + b.entries :: t.section == b.section
  {
    DifferentJoined([Header(b.section)], b.entries);
  }

  lemma {:induction false} TagsDifferent(blocks: seq<Block>)
    requires BlocksOk(blocks)
    ensures AllDifferent(TagsOf(blocks))
  {
    if blocks != [] {
      BlocksTail(blocks);
      TagsDifferent(blocks[1..]);
      BlockDifferent(blocks[0]);
      TagsAtHome(blocks[1..]);
      var head := [Header(blocks[0].section)] + blocks[0].entries;
      forall s, t | s in head && t in TagsOf(blocks[1..]) ensures Different(s, t) {
        var i :| 0 <= i < |blocks[1..]| && blocks[1..][i].section == t.section;
      }
      DifferentJoined(head, TagsOf(blocks[1..]));
    }
  }

  lemma PlacedJoined(a: seq<Tag>, b: seq<Tag>)
    requires Placed(a) && Placed(b)
    ensures Placed(a + b)
  {
    var r := a + b;
    forall i | 0 <= i < |r| && !r[i].Header? ensures i > 0 && r[i - 1].section == r[i].section {
      if i >= |a| {
        assert !b[i - |a|].Header?;
      }
    }
  }

  lemma {:induction false} TagsPlaced(blocks: seq<Block>)
    requires BlocksOk(blocks)
    ensures Placed(TagsOf(blocks))
  {
    if blocks != [] {
      BlocksTail(blocks);
      TagsPlaced(blocks[1..]);
      PlacedJoined([Header(blocks[0].section)] + blocks[0].entries, TagsOf(blocks[1..]));
    }
  }

  // ----- loading the lines as they are seen -----

  /** A line that cannot be continued, nor split. */
  predicate Single(line: string) {
    Clean(line) && line != "" && line[|line| - 1] != '\\'
  }

  function Texts(tags: seq<Tag>): (r: seq<string>)
    ensures |r| == |tags| && forall i | 0 <= i < |r| :: r[i] == TextOf(tags[i])
  {
    seq(|tags|, i requires 0 <= i < |tags| => TextOf(tags[i]))
  }

  function AllSeen(lines: seq<string>, isUtf8: string -> bool): (r: seq<string>)
    ensures |r| == |lines| && forall i | 0 <= i < |r| :: r[i] == Seen(lines[i], isUtf8)
  {
    seq(|lines|, i requires 0 <= i < |lines| => Seen(lines[i], isUtf8))
  }

  lemma AllSeenCons(lines: seq<string>, isUtf8: string -> bool)
    requires lines != []
    ensures AllSeen(lines, isUtf8) == [Seen(lines[0], isUtf8)] + AllSeen(lines[1..], isUtf8)
  {
  }

  lemma {:induction false} LoadSeen(st: Loading, lines: seq<string>, isUtf8: string -> bool)
    requires InSection(st) && forall l | l in lines :: Single(l)
    ensures Load(st, Logical(lines, "", isUtf8)) == Load(st, AllSeen(lines, isUtf8))
    decreases |lines|
  {
    if lines != [] {
      var l, rest := lines[0], AllSeen(lines[1..], isUtf8);
      AllSeenCons(lines, isUtf8);
      LoadCons(st, Seen(l, isUtf8), rest);
      LogicalSingle(lines, isUtf8);
      SeenBlank(l, isUtf8);
      if isUtf8(l) {
        LoadCons(st, l, Logical(lines[1..], "", isUtf8));
        LoadSeen(Apply(st, ParseLine(l)), lines[1..], isUtf8);
      } else {
        LoadSeen(st, lines[1..], isUtf8);
      }
    }
  }

  lemma LogicalSingle(lines: seq<string>, isUtf8: string -> bool)
    requires lines != [] && Single(lines[0])
    ensures Logical(lines, "", isUtf8)
         == if isUtf8(lines[0]) then [lines[0]] + Logical(lines[1..], "", isUtf8) else Logical(lines[1..], "", isUtf8)
  {
    assert "" + lines[0] == lines[0];
  }

  /** What a text of single lines loads. */
  lemma LoadedSeen(tags: seq<Tag>, isUtf8: string -> bool)
    requires forall l | l in Texts(tags) :: Single(l)
    ensures Loaded(Text(Texts(tags)), isUtf8) == SeenSections(tags, isUtf8)
  {
    LinesOfText(Texts(tags));
    LoadSeen(FRESH, Texts(tags), isUtf8);
    assert AllSeen(Texts(tags), isUtf8) == SeenTexts(tags, isUtf8);
  }

  lemma {:induction false} QuietIsWhole(lines: seq<string>, before: nat, isUtf8: string -> bool)
    requires forall l | l in lines :: Single(l)
    requires Complaints(lines, "", before, isUtf8) == []
    ensures forall l | l in lines :: isUtf8(l)
  {
    if lines != [] {
      assert lines[0] in lines;
      QuietIsWhole(lines[1..], before + 1, isUtf8);
    }
  }

  /** No complaint: every line was seen. */
  lemma QuietIsSeen(tags: seq<Tag>, isUtf8: string -> bool)
    requires forall l | l in Texts(tags) :: Single(l)
    requires AllComplaints(Text(Texts(tags)), isUtf8) == []
    ensures forall l | l in Texts(tags) :: isUtf8(l)
  {
    LinesOfText(Texts(tags));
    QuietIsWhole(Texts(tags), 0, isUtf8);
  }

  // ----- the blocks of a configuration file -----

  function KeyTags(s: string, lines: map<string, string>, keys: seq<string>): seq<Tag>
    requires forall k | k in keys :: k in lines
  {
    if keys == [] then []
    else (if keys[0] == "" then [] else [Quoted(s, keys[0], lines[keys[0]])]) + KeyTags(s, lines, keys[1..])
  }

  ghost function BlockOf(s: string, lines: map<string, string>): Block {
    Block(s, KeyTags(s, lines, InStringOrder(lines.Keys)))
  }

  ghost function FileBlocks(sections: Sections, names: seq<string>): (r: seq<Block>)
    requires forall s | s in names :: s in sections
    ensures |r| == |names| && forall i | 0 <= i < |r| :: r[i] == BlockOf(names[i], sections[names[i]])
  {
    seq(|names|, i requires 0 <= i < |names| => BlockOf(names[i], sections[names[i]]))
  }

  lemma TextsJoined(a: seq<Tag>, b: seq<Tag>)
    ensures Texts(a + b) == Texts(a) + Texts(b)
  {
  }

  lemma {:induction false} KeyTagsTexts(s: string, lines: map<string, string>, keys: seq<string>)
    requires forall k | k in keys :: k in lines
    ensures Texts(KeyTags(s, lines, keys)) == KeyTexts(lines, keys)
  {
    hide KeyLine;
    if keys != [] {
      var rest := KeyTags(s, lines, keys[1..]);
      KeyTagsTexts(s, lines, keys[1..]);
      if keys[0] != "" {
        var t := Quoted(s, keys[0], lines[keys[0]]);
        TextsJoined([t], rest);
        assert Texts([t]) == [KeyLine(keys[0], lines[keys[0]])];
      } else {
        assert KeyTags(s, lines, keys) == rest;
      }
    }
  }

  lemma {:induction false} FileTexts(sections: Sections, names: seq<string>)
    requires forall s | s in names :: s in sections
    ensures Texts(TagsOf(FileBlocks(sections, names))) == SectionTexts(sections, names)
  {
    if names != [] {
      var s := names[0];
      var blocks := FileBlocks(sections, names);
      assert blocks[1..] == FileBlocks(sections, names[1..]);
      FileTexts(sections, names[1..]);
      KeyTagsTexts(s, sections[s], InStringOrder(sections[s].Keys));
      BlockTexts(blocks);
    }
  }

  lemma BlockTexts(blocks: seq<Block>)
    requires blocks != []
    ensures Texts(TagsOf(blocks))
         == [SectionLine(blocks[0].section)] + Texts(blocks[0].entries) + Texts(TagsOf(blocks[1..]))
  {
    var head := [Header(blocks[0].section)];
    TextsJoined(head, blocks[0].entries);
    TextsJoined(head + blocks[0].entries, TagsOf(blocks[1..]));
    assert Texts(head) == [SectionLine(blocks[0].section)];
  }

  /** The tags of a key list: one for each visible key. */
  lemma {:induction false} KeyTagsExact(s: string, lines: map<string, string>, keys: seq<string>)
    requires forall k | k in keys :: k in lines
    ensures forall t :: t in KeyTags(s, lines, keys) <==>
              t.Quoted? && t.section == s && t.name != "" && t.name in keys && t.val == lines[t.name]
  {
    if keys != [] {
      KeyTagsExact(s, lines, keys[1..]);
    }
  }

  /** No key has a blank: as in everything that was loaded. */
  predicate Blankless(lines: map<string, string>) {
    forall k | k in lines :: ' ' !in k
  }

  lemma {:induction false} KeyTagsDifferent(s: string, lines: map<string, string>, keys: seq<string>)
    requires Blankless(lines) && Distinct(keys) && forall k | k in keys :: k in lines
    ensures AllDifferent(KeyTags(s, lines, keys))
  {
    if keys != [] {
      var rest := KeyTags(s, lines, keys[1..]);
      KeyTagsDifferent(s, lines, keys[1..]);
      KeyTagsExact(s, lines, keys[1..]);
      if keys[0] != "" {
        var t := Quoted(s, keys[0], lines[keys[0]]);
        forall u | u in rest ensures Different(t, u) {
          UnderscoredFixed(keys[0]);
          UnderscoredFixed(u.name);
          assert keys[0] !in keys[1..];
        }
        DifferentJoined([t], rest);
      } else {
        assert [] + rest == rest;
      }
    }
  }

  lemma BlockOfOk(s: string, lines: map<string, string>)
    requires Blankless(lines)
    ensures BlockOk(BlockOf(s, lines))
  {
    var keys := InStringOrder(lines.Keys);
    InStringOrderDistinct(lines.Keys);
    KeyTagsDifferent(s, lines, keys);
    KeyTagsExact(s, lines, keys);
    var tags := KeyTags(s, lines, keys);
    forall i | 0 <= i < |tags| ensures !tags[i].Header? && tags[i].section == s {
      assert tags[i] in tags;
    }
  }

  // ----- the converse -----

  /** The entries that a printed file is to define, and the sections it is to open. */
  function WantedIds(sections: Sections): set<Id> {
    set s, k | s in sections && k in sections[s] && k != "" :: (s, k)
  }

  function WantedNames(sections: Sections): set<string> {
    sections.Keys - {"global"}
  }

  ghost function FileTags(sections: Sections): seq<Tag> {
    TagsOf(FileBlocks(sections, InStringOrder(sections.Keys)))
  }

  ghost predicate NoBlanks(sections: Sections) {
    forall s | s in sections :: Blankless(sections[s])
  }

  lemma FileBlocksOk(sections: Sections)
    requires NoBlanks(sections)
    ensures BlocksOk(FileBlocks(sections, InStringOrder(sections.Keys)))
  {
    var names := InStringOrder(sections.Keys);
    var blocks := FileBlocks(sections, names);
    InStringOrderDistinct(sections.Keys);
    forall i | 0 <= i < |blocks| ensures BlockOk(blocks[i]) {
      assert names[i] in names;
      BlockOfOk(names[i], sections[names[i]]);
    }
  }

  lemma {:induction false} TagsIn(blocks: seq<Block>, t: Tag)
    ensures t in TagsOf(blocks) <==>
              exists i :: 0 <= i < |blocks| && (t == Header(blocks[i].section) || t in blocks[i].entries)
  {
    if blocks != [] {
      TagsIn(blocks[1..], t);
      if i :| 0 <= i < |blocks| && (t == Header(blocks[i].section) || t in blocks[i].entries) {
        if i > 0 {
          assert blocks[1..][i - 1] == blocks[i];
        }
      }
      if t in TagsOf(blocks[1..]) {
        var i :| 0 <= i < |blocks[1..]| && (t == Header(blocks[1..][i].section) || t in blocks[1..][i].entries);
        assert blocks[i + 1] == blocks[1..][i];
      }
    }
  }

  /** The tags of a file are its sections and its visible entries. */
  lemma FileTagsExact(sections: Sections, t: Tag)
    ensures t in FileTags(sections) <==>
              match t
              case Header(s) => s in sections
              case Quoted(s, k, v) => s in sections && k in sections[s] && k != "" && v == sections[s][k]
              case Bare(_, _, _) => false
  {
    hide TagsOf, InStringOrder, KeyTags;
    var names := InStringOrder(sections.Keys);
    var blocks := FileBlocks(sections, names);
    TagsIn(blocks, t);
    forall i | 0 <= i < |blocks|
      ensures names[i] in sections
      ensures t in blocks[i].entries <==>
                t.Quoted? && t.section == names[i] && t.name != "" && t.name in sections[names[i]]
                && t.val == sections[names[i]][t.name]
    {
      assert names[i] in names;
      KeyTagsExact(names[i], sections[names[i]], InStringOrder(sections[names[i]].Keys));
    }
    if t.section in sections {
      assert t.section in names;
      var i :| 0 <= i < |names| && names[i] == t.section;
      assert blocks[i].section == t.section;
    }
  }

  lemma FileTagged(sections: Sections)
    requires NoBlanks(sections)
    ensures Tagged(FileTags(sections), WantedIds(sections), WantedNames(sections)) && Placed(FileTags(sections))
  {
    var tags := FileTags(sections);
    FileBlocksOk(sections);
    TagsDifferent(FileBlocks(sections, InStringOrder(sections.Keys)));
    TagsPlaced(FileBlocks(sections, InStringOrder(sections.Keys)));
    forall i | 0 <= i < |tags| ensures TagOk(tags[i], WantedIds(sections), WantedNames(sections)) {
      assert tags[i] in tags;
      FileTagsExact(sections, tags[i]);
      if tags[i].Quoted? {
        UnderscoredFixed(tags[i].name);
      }
    }
  }

  /** What was loaded comes back as it was. */
  ghost predicate Restored(sections: Sections, isUtf8: string -> bool) {
    && AllComplaints(Printed(sections), isUtf8) == []
    && Loaded(Printed(sections), isUtf8) == FRESH.sections + VisibleSections(sections)
  }

  lemma RestoredClean(sections: Sections, isUtf8: string -> bool)
    requires Restored(sections, isUtf8)
    ensures CleanSections(VisibleSections(sections)) && NoBlanks(sections)
  {
    hide Printed, Loaded, AllComplaints, Clean;
    var loaded := Loaded(Printed(sections), isUtf8);
    LoadedClean(Printed(sections), isUtf8);
    forall s | s in sections ensures Clean(s) && CleanTable(Visible(sections[s])) && Blankless(sections[s]) {
      assert loaded[s] == Visible(sections[s]);
    }
  }

  lemma FileTagsSingle(sections: Sections)
    requires CleanSections(VisibleSections(sections))
    ensures forall l | l in Texts(FileTags(sections)) :: Single(l)
  {
    var tags := FileTags(sections);
    forall i | 0 <= i < |tags| ensures Single(TextOf(tags[i])) {
      assert tags[i] in tags;
      FileTagsExact(sections, tags[i]);
      TagSingle(sections, tags[i]);
    }
  }

  lemma TagSingle(sections: Sections, t: Tag)
    requires CleanSections(VisibleSections(sections)) && t.section in sections && !t.Bare?
    requires t.Quoted? ==> t.name in sections[t.section] && t.name != "" && t.val == sections[t.section][t.name]
    ensures Single(TextOf(t))
  {
    assert t.section in VisibleSections(sections);
    if t.Quoted? {
      assert t.name in VisibleSections(sections)[t.section];
    }
  }

  lemma FilePrinted(sections: Sections)
    ensures Printed(sections) == Text(Texts(FileTags(sections)))
  {
    var names := InStringOrder(sections.Keys);
    SectionsPrinted(sections, names);
    FileTexts(sections, names);
  }

  lemma VisibleHeld(sections: Sections)
    ensures var loaded := FRESH.sections + VisibleSections(sections);
            AllHeld(loaded, WantedIds(sections)) && WantedNames(sections) <= loaded.Keys
  {
  }

  /** A restored file has every line seen and read. */
  lemma RestoredReads(sections: Sections, isUtf8: string -> bool)
    requires Restored(sections, isUtf8)
    ensures var tags := FileTags(sections);
            && NoBlanks(sections) && CleanSections(VisibleSections(sections))
            && (forall l | l in Texts(tags) :: isUtf8(l))
            && SeenSections(tags, isUtf8) == FRESH.sections + VisibleSections(sections)
            && AllRead(tags, isUtf8) && HeadersRead(tags, isUtf8)
  {
    hide AllHeld, Tagged, Placed, AllRead, HeadersRead, SeenSections, VisibleSections, Printed, FileTags, Loaded,
         AllComplaints, CleanSections, NoBlanks, Text, WantedIds, WantedNames;
    var tags, ids, names := FileTags(sections), WantedIds(sections), WantedNames(sections);
    RestoredClean(sections, isUtf8);
    FileTagsSingle(sections);
    FilePrinted(sections);
    LoadedSeen(tags, isUtf8);
    QuietIsSeen(tags, isUtf8);
    FileTagged(sections);
    VisibleHeld(sections);
    EntriesCovered(tags, ids, names, isUtf8);
    SectionsCovered(tags, ids, names, isUtf8);
    FileHeadersRead(sections, isUtf8);
  }

  lemma FileHeadersRead(sections: Sections, isUtf8: string -> bool)
    requires forall l | l in Texts(FileTags(sections)) :: isUtf8(l)
    requires forall s | s in WantedNames(sections) :: SectionNameOk(s)
    ensures HeadersRead(FileTags(sections), isUtf8)
  {
    var tags := FileTags(sections);
    forall i | 0 <= i < |tags| && tags[i].Header? ensures isUtf8(TextOf(tags[i])) && SectionNameOk(tags[i].section) {
      TextSeen(tags, isUtf8, i);
      HeaderNamed(sections, i);
      GlobalIsOk();
    }
  }

  lemma TextSeen(tags: seq<Tag>, isUtf8: string -> bool, i: nat)
    requires i < |tags| && forall l | l in Texts(tags) :: isUtf8(l)
    ensures isUtf8(TextOf(tags[i]))
  {
    assert Texts(tags)[i] in Texts(tags);
  }

  lemma HeaderNamed(sections: Sections, i: nat)
    requires i < |FileTags(sections)| && FileTags(sections)[i].Header?
    ensures FileTags(sections)[i].section in WantedNames(sections) || FileTags(sections)[i].section == "global"
  {
    FileTagsExact(sections, FileTags(sections)[i]);
  }

  lemma GlobalIsOk()
    ensures SectionNameOk("global")
  {
  }

  lemma RestoredEntry(sections: Sections, isUtf8: string -> bool, s: string, k: string)
    requires Restored(sections, isUtf8) && s in sections && k in sections[s] && k != ""
    ensures KeyOk(k) && ValueOk(sections[s][k]) && Clean(k) && Clean(sections[s][k])
    ensures isUtf8(KeyLine(k, sections[s][k]))
  {
    hide AllDifferent, Tagged, Placed, Printed, FileTags, Loaded, KeyLine, AllRead, HeadersRead, SeenSections;
    var tags := FileTags(sections);
    var t := Quoted(s, k, sections[s][k]);
    RestoredReads(sections, isUtf8);
    FileTagsExact(sections, t);
    UnderscoredFixed(k);
    FileTagged(sections);
    assert VisibleSections(sections)[s][k] == sections[s][k];
    TagNeeded(tags, WantedIds(sections), WantedNames(sections), isUtf8, t);
    NameIsKey(k);
  }

  lemma NameIsKey(k: string)
    requires NameOk(k) && ' ' !in k
    ensures KeyOk(k)
  {
  }

  lemma RestoredSection(sections: Sections, isUtf8: string -> bool, s: string)
    requires Restored(sections, isUtf8) && s in sections
    ensures SectionNameOk(s) && Clean(s) && isUtf8(SectionLine(s))
  {
    var tags := FileTags(sections);
    RestoredReads(sections, isUtf8);
    FileTagsExact(sections, Header(s));
    var i :| 0 <= i < |tags| && tags[i] == Header(s);
    assert s in VisibleSections(sections);
  }

  /** The file round trip, exactly: a printed file loads without a complaint and
      restores every section and visible key if and only if it is printable. */
  lemma PrintedExact(sections: Sections, isUtf8: string -> bool)
    ensures AllComplaints(Printed(sections), isUtf8) == []
            && Loaded(Printed(sections), isUtf8) == FRESH.sections + VisibleSections(sections)
       <==> Printable(sections, isUtf8)
  {
    if Printable(sections, isUtf8) {
      LoadPrinted(sections, isUtf8);
    }
    if Restored(sections, isUtf8) {
      forall s | s in sections
        ensures SectionNameOk(s) && '\n' !in s && isUtf8(SectionLine(s)) && PrintableLines(sections[s], isUtf8)
      {
        RestoredSection(sections, isUtf8, s);
        forall k | k in sections[s] && k != ""
          ensures KeyOk(k) && ValueOk(sections[s][k]) && Clean(k) && Clean(sections[s][k])
          ensures isUtf8(KeyLine(k, sections[s][k]))
        {
          RestoredEntry(sections, isUtf8, s, k);
        }
      }
    }
  }
}
