/** The configuration file reader and printer: ConfFile of common/ConfUtils.cc.

    `ConfFile.LoadFromBuffer` moves a cursor over the buffer and updates the
    sections as it goes; `Load` over `Logical` lines is the same result as a
    fold, which the rest of the development reasons about. */
module ConfUtils {
  import opened Basics
  import opened ConfLines
  import opened ConfText
  import opened Ordered

  type Sections = map<string, map<string, string>>

  /** An entry of the error list; final complaints carry no line of their own. */
  datatype Complaint = Complaint(lineNo: nat, error: ParseError)

  // ----- physical lines -----

  /** memchr: the place of the first newline, or the length. */
  function NewlineAt(s: string): (n: nat)
    ensures n <= |s| && '\n' !in s[..n]
    ensures n < |s| ==> s[n] == '\n'
  {
    if s == [] || s[0] == '\n' then 0
    else
      var n := NewlineAt(s[1..]);
      assert s[..n + 1] == [s[0]] + s[1..][..n];
      n + 1
  }

  /** The lines that a newline ends. */
  function Lines(s: string): seq<string> {
    var n := NewlineAt(s);
    if n == |s| then [] else [s[..n]] + Lines(s[n + 1..])
  }

  /** Text remains after the last newline. */
  predicate EndsMidLine(s: string) {
    s != "" && s[|s| - 1] != '\n'
  }

  lemma LinesFrom(buf: string, b: nat, end: nat)
    requires b <= |buf| && end == b + NewlineAt(buf[b..])
    ensures end == |buf| ==> Lines(buf[b..]) == []
    ensures end < |buf| ==> Lines(buf[b..]) == [buf[b..end]] + Lines(buf[end + 1..])
  {
    var t := buf[b..];
    if end < |buf| {
      assert t[..end - b] == buf[b..end];
      assert t[end - b + 1..] == buf[end + 1..];
    }
  }

  // ----- logical lines -----

  datatype Piece = Dropped(error: ParseError) | Continued(text: string) | Ended(text: string)

  function Classify(line: string, isUtf8: string -> bool): Piece {
    if '\0' in line then Dropped(EmbeddedNull)
    else if !isUtf8(line) then Dropped(NotUtf8)
    else if line != "" && line[|line| - 1] == '\\' then Continued(line[..|line| - 1])
    else Ended(line)
  }

  /** Joins continued lines; a dropped line takes the prefix before it along. */
  function Logical(lines: seq<string>, acc: string, isUtf8: string -> bool): seq<string> {
    if lines == [] then []
    else
      match Classify(lines[0], isUtf8)
      case Dropped(_) => Logical(lines[1..], "", isUtf8)
      case Continued(text) => Logical(lines[1..], acc + text, isUtf8)
      case Ended(text) => [acc + text] + Logical(lines[1..], "", isUtf8)
  }

  /** The prefix that never got its last line. */
  function Pending(lines: seq<string>, acc: string, isUtf8: string -> bool): string {
    if lines == [] then acc
    else
      match Classify(lines[0], isUtf8)
      case Dropped(_) => Pending(lines[1..], "", isUtf8)
      case Continued(text) => Pending(lines[1..], acc + text, isUtf8)
      case Ended(_) => Pending(lines[1..], "", isUtf8)
  }

  /** One complaint for each dropped line and each logical line in error,
      numbered by the physical line that ends it. */
  function Complaints(lines: seq<string>, acc: string, before: nat, isUtf8: string -> bool): seq<Complaint> {
    if lines == [] then []
    else
      match Classify(lines[0], isUtf8)
      case Dropped(e) => [Complaint(before + 1, e)] + Complaints(lines[1..], "", before + 1, isUtf8)
      case Continued(text) => Complaints(lines[1..], acc + text, before + 1, isUtf8)
      case Ended(text) =>
        var r := ParseLine(acc + text);
        (if r.Bad? then [Complaint(before + 1, r.error)] else [])
        + Complaints(lines[1..], "", before + 1, isUtf8)
  }

  /** The last two complaints of load_from_buffer, after its loop. */
  function Closing(errors: seq<Complaint>, lines: nat, midLine: bool, acc: string): seq<Complaint> {
    var e := if midLine then errors + [Complaint(lines + 1, NoNewline)] else errors;
    if acc != "" then e + [Complaint(0, TrailingBackslash)] else e
  }

  function AllComplaints(s: string, isUtf8: string -> bool): seq<Complaint> {
    Closing(Complaints(Lines(s), "", 0, isUtf8), |Lines(s)|, EndsMidLine(s), Pending(Lines(s), "", isUtf8))
  }

  // ----- the fold -----

  datatype Loading = Loading(sections: Sections, current: string)

  predicate InSection(st: Loading) {
    st.current in st.sections
  }

  function Apply(st: Loading, r: LineResult): (st': Loading)
    requires InSection(st)
    ensures InSection(st')
  {
    if !r.Line? then st
    else if r.line.newsection != "" then
      Loading(if r.line.newsection in st.sections then st.sections
              else st.sections[r.line.newsection := map[]],
              r.line.newsection)
    else
      st.(sections := st.sections[st.current := st.sections[st.current][r.line.key := r.line.val]])
  }

  function Load(st: Loading, logical: seq<string>): (st': Loading)
    requires InSection(st)
    ensures InSection(st')
    decreases |logical|
  {
    if logical == [] then st else Load(Apply(st, ParseLine(logical[0])), logical[1..])
  }

  // ----- one physical line at a time -----

  /** What the loop of load_from_buffer carries from line to line. */
  datatype Progress = Progress(st: Loading, acc: string, lineNo: nat, errors: seq<Complaint>)

  function Report(p: Progress, r: LineResult): seq<Complaint> {
    if r.Bad? then p.errors + [Complaint(p.lineNo + 1, r.error)] else p.errors
  }

  function TakeLine(p: Progress, line: string, isUtf8: string -> bool): (p': Progress)
    requires InSection(p.st)
    ensures InSection(p'.st)
  {
    match Classify(line, isUtf8)
    case Dropped(e) => Progress(p.st, "", p.lineNo + 1, p.errors + [Complaint(p.lineNo + 1, e)])
    case Continued(text) => Progress(p.st, p.acc + text, p.lineNo + 1, p.errors)
    case Ended(text) =>
      var r := ParseLine(p.acc + text);
      Progress(Apply(p.st, r), "", p.lineNo + 1, Report(p, r))
  }

  function TakeLines(p: Progress, lines: seq<string>, isUtf8: string -> bool): (p': Progress)
    requires InSection(p.st)
    ensures InSection(p'.st)
    decreases |lines|
  {
    if lines == [] then p else TakeLines(TakeLine(p, lines[0], isUtf8), lines[1..], isUtf8)
  }

  /** Line-by-line work is the fold over logical lines. */
  lemma {:induction false} TakeLinesFold(p: Progress, lines: seq<string>, isUtf8: string -> bool)
    requires InSection(p.st)
    ensures TakeLines(p, lines, isUtf8).st == Load(p.st, Logical(lines, p.acc, isUtf8))
    ensures TakeLines(p, lines, isUtf8).acc == Pending(lines, p.acc, isUtf8)
    ensures TakeLines(p, lines, isUtf8).lineNo == p.lineNo + |lines|
    decreases |lines|
  {
    if lines != [] {
      var next := TakeLine(p, lines[0], isUtf8);
      TakeLinesFold(next, lines[1..], isUtf8);
      var piece := Classify(lines[0], isUtf8);
      if piece.Ended? {
        LoadCons(p.st, p.acc + piece.text, Logical(lines[1..], "", isUtf8));
      }
    }
  }

  lemma NoComplaints(acc: string, before: nat, isUtf8: string -> bool)
    ensures Complaints([], acc, before, isUtf8) == []
  {
  }

  lemma ReportAdds(p: Progress, r: LineResult)
    ensures Report(p, r) == p.errors + if r.Bad? then [Complaint(p.lineNo + 1, r.error)] else []
  {
  }

  lemma EndedNext(p: Progress, lines: seq<string>, text: string, isUtf8: string -> bool)
    requires InSection(p.st) && lines != [] && Classify(lines[0], isUtf8) == Ended(text)
    ensures var next := TakeLine(p, lines[0], isUtf8);
            p.errors + Complaints(lines, p.acc, p.lineNo, isUtf8)
            == next.errors + Complaints(lines[1..], next.acc, next.lineNo, isUtf8)
  {
    hide ParseLine, Apply, Classify, Report;
    var r := ParseLine(p.acc + text);
    ReportAdds(p, r);
    Assoc(p.errors, if r.Bad? then [Complaint(p.lineNo + 1, r.error)] else [],
          Complaints(lines[1..], "", p.lineNo + 1, isUtf8));
  }

  lemma ComplaintsNext(p: Progress, lines: seq<string>, isUtf8: string -> bool)
    requires InSection(p.st) && lines != []
    ensures var next := TakeLine(p, lines[0], isUtf8);
            p.errors + Complaints(lines, p.acc, p.lineNo, isUtf8)
            == next.errors + Complaints(lines[1..], next.acc, next.lineNo, isUtf8)
  {
    hide ParseLine, Apply, Classify, Report;
    var next := TakeLine(p, lines[0], isUtf8);
    var rest := Complaints(lines[1..], next.acc, next.lineNo, isUtf8);
    match Classify(lines[0], isUtf8) {
      case Dropped(e) =>
        Assoc(p.errors, [Complaint(p.lineNo + 1, e)], rest);
      case Continued(_) =>
      case Ended(text) =>
        EndedNext(p, lines, text, isUtf8);
    }
  }

  lemma {:induction false} TakeLinesComplaints(p: Progress, lines: seq<string>, isUtf8: string -> bool)
    requires InSection(p.st)
    ensures TakeLines(p, lines, isUtf8).errors == p.errors + Complaints(lines, p.acc, p.lineNo, isUtf8)
    decreases |lines|
  {
    hide TakeLine, Complaints;
    if lines == [] {
      NoComplaints(p.acc, p.lineNo, isUtf8);
    } else {
      ComplaintsNext(p, lines, isUtf8);
      TakeLinesComplaints(TakeLine(p, lines[0], isUtf8), lines[1..], isUtf8);
    }
  }

  /** Line by line from the start is the fold over all logical lines. */
  lemma TakeAll(p: Progress, lines: seq<string>, isUtf8: string -> bool)
    requires InSection(p.st) && p.acc == "" && p.lineNo == 0 && p.errors == []
    ensures TakeLines(p, lines, isUtf8)
         == Progress(Load(p.st, Logical(lines, "", isUtf8)), Pending(lines, "", isUtf8), |lines|,
                     Complaints(lines, "", 0, isUtf8))
  {
    TakeLinesFold(p, lines, isUtf8);
    TakeLinesComplaints(p, lines, isUtf8);
  }

  lemma TakeNext(p: Progress, lines: seq<string>, line: string, rest: seq<string>, isUtf8: string -> bool)
    requires InSection(p.st) && lines == [line] + rest
    ensures TakeLines(p, lines, isUtf8) == TakeLines(TakeLine(p, line, isUtf8), rest, isUtf8)
  {
    assert lines[0] == line && lines[1..] == rest;
  }

  /** One turn of the loop of load_from_buffer. */
  lemma TakeNextLine(p: Progress, buf: string, b: nat, end: nat, isUtf8: string -> bool)
    requires InSection(p.st)
    requires b <= |buf| && end == b + NewlineAt(buf[b..]) && end < |buf|
    ensures TakeLines(p, Lines(buf[b..]), isUtf8)
         == TakeLines(TakeLine(p, buf[b..end], isUtf8), Lines(buf[end + 1..]), isUtf8)
  {
    LinesFrom(buf, b, end);
    TakeNext(p, Lines(buf[b..]), buf[b..end], Lines(buf[end + 1..]), isUtf8);
  }

  /** What is still to be read leads from here to the end of the fold. */
  predicate Ahead(p: Progress, buf: string, at: nat, isUtf8: string -> bool, finish: Progress) {
    InSection(p.st) && at <= |buf| && TakeLines(p, Lines(buf[at..]), isUtf8) == finish
  }

  lemma AheadNext(p: Progress, buf: string, b: nat, end: nat, isUtf8: string -> bool, finish: Progress)
    requires Ahead(p, buf, b, isUtf8, finish)
    requires end == b + NewlineAt(buf[b..]) && end < |buf|
    ensures Ahead(TakeLine(p, buf[b..end], isUtf8), buf, end + 1, isUtf8, finish)
  {
    TakeNextLine(p, buf, b, end, isUtf8);
  }

  /** Nothing is ahead at the end, or when no newline is. */
  lemma AheadNothing(p: Progress, buf: string, at: nat, isUtf8: string -> bool, finish: Progress)
    requires Ahead(p, buf, at, isUtf8, finish) && NewlineAt(buf[at..]) == |buf| - at
    ensures p == finish
  {
    LinesFrom(buf, at, |buf|);
  }

  lemma LoadCons(st: Loading, line: string, rest: seq<string>)
    requires InSection(st)
    ensures Load(st, [line] + rest) == Load(Apply(st, ParseLine(line)), rest)
  {
    assert ([line] + rest)[1..] == rest;
  }

  const FRESH := Loading(map["global" := map[]], "global")

  /** ConfFile::read on the section map. */
  function Lookup(sections: Sections, section: string, key: string): (r: Option<string>) {
    var k := Normalize(key);
    if section in sections && k in sections[section] then Some(sections[section][k]) else None
  }

  // ----- printing -----

  ghost function PrintedLines(lines: map<string, string>, keys: seq<string>): string {
    if keys == [] || keys[0] !in lines then ""
    else PrintedLine(lines, keys[0]) + PrintedLines(lines, keys[1..])
  }

  function PrintedLine(lines: map<string, string>, key: string): string
    requires key in lines
  {
    if key == "" then "" else KeyLine(key, lines[key]) + "\n"
  }

  function SectionLine(section: string): string {
    "[" + section + "]"
  }

  function KeyLine(key: string, val: string): string {
    "\t" + key + " = \"" + val + "\""
  }

  ghost function PrintedSections(sections: Sections, names: seq<string>): string {
    if names == [] || names[0] !in sections then ""
    else
      SectionLine(names[0]) + "\n"
      + PrintedLines(sections[names[0]], InStringOrder(sections[names[0]].Keys))
      + PrintedSections(sections, names[1..])
  }

  ghost function Printed(sections: Sections): string {
    PrintedSections(sections, InStringOrder(sections.Keys))
  }

  class ConfFile {
    var sections: Sections

    constructor ()
      ensures sections == map[]
    {
      sections := map[];
    }

    method Clear()
      modifies this
      ensures sections == map[]
    {
      sections := map[];
    }

    /** The rest of load_from_buffer's loop body, once the line is measured. */
    method TakeText(line: string, foundNull: bool, acc0: string, curSection0: string, lineNo: nat,
                    errors0: seq<Complaint>, isUtf8: string -> bool, ghost before: Progress)
      returns (acc: string, curSection: string, errors: seq<Complaint>, ghost after: Progress)
      requires foundNull <==> '\0' in line
      requires '\0' !in acc0 && curSection0 in sections && lineNo > 0
      requires before == Progress(Loading(sections, curSection0), acc0, lineNo - 1, errors0)
      modifies this
      ensures '\0' !in acc && curSection in sections
      ensures after == Progress(Loading(sections, curSection), acc, lineNo, errors)
      ensures after == TakeLine(before, line, isUtf8)
    {
      after := TakeLine(before, line, isUtf8);
      acc, curSection, errors := acc0, curSection0, errors0;
      if foundNull {
        errors := errors + [Complaint(lineNo, EmbeddedNull)];
        acc := "";
        return;
      }
      if !isUtf8(line) {
        errors := errors + [Complaint(lineNo, NotUtf8)];
        acc := "";
        return;
      }
      if |line| >= 1 && line[|line| - 1] == '\\' {
        acc := acc + line[..|line| - 1];
        return;
      }
      acc := acc + line;
      var cline := ProcessLine(acc);
      acc := "";
      if !cline.Line? {
        if cline.Bad? {
          errors := errors + [Complaint(lineNo, cline.error)];
        }
        return;
      }
      var csection := cline.line.newsection;
      if csection != "" {
        if csection !in sections {
          sections := sections[csection := map[]];
        }
        curSection := csection;
      } else {
        sections := sections[curSection := sections[curSection][cline.line.key := cline.line.val]];
      }
    }

    /** The loop body of load_from_buffer; false for the line that has no newline. */
    method ReadLine(buf: string, b: nat, acc0: string, curSection0: string, lineNo: nat, errors0: seq<Complaint>,
                    isUtf8: string -> bool, ghost before: Progress, ghost finish: Progress)
      returns (more: bool, lineLen: int, acc: string, curSection: string, errors: seq<Complaint>, ghost after: Progress)
      requires b < |buf| && '\0' !in acc0 && curSection0 in sections && lineNo > 0
      requires before == Progress(Loading(sections, curSection0), acc0, lineNo - 1, errors0)
      requires Ahead(before, buf, b, isUtf8, finish)
      modifies this
      ensures '\0' !in acc && curSection in sections
      ensures more ==>
                && 0 <= lineLen < |buf| - b && buf[b + lineLen] == '\n'
                && after == Progress(Loading(sections, curSection), acc, lineNo, errors)
                && Ahead(after, buf, b + lineLen + 1, isUtf8, finish)
      ensures !more ==>
                && before == finish && buf[|buf| - 1] != '\n'
                && sections == old(sections) && acc == acc0 && curSection == curSection0
                && errors == errors0 + [Complaint(lineNo, NoNewline)]
    {
      hide Ahead, NewlineAt, TakeLine, InSection;
      more, lineLen, acc, curSection, errors, after := false, -1, acc0, curSection0, errors0, before;
      var end := FindNewline(buf, b);
      if end == |buf| {
        AheadNothing(before, buf, b, isUtf8, finish);
        assert buf[|buf| - 1] == buf[b..][|buf| - 1 - b];
        errors := errors + [Complaint(lineNo, NoNewline)];
        return;
      }
      assert buf[end] == buf[b..][end - b];
      more := true;
      var foundNull;
      lineLen, foundNull := Measure(buf, b, end);
      AheadNext(before, buf, b, end, isUtf8, finish);
      acc, curSection, errors, after :=
        TakeText(buf[b..end], foundNull, acc, curSection, lineNo, errors, isUtf8, before);
    }

    /** The loop of load_from_buffer. */
    method ReadLines(buf: string, isUtf8: string -> bool, ghost finish: Progress)
      returns (acc: string, curSection: string, errors: seq<Complaint>)
      requires "global" in sections
      requires Ahead(Progress(Loading(sections, "global"), "", 0, []), buf, 0, isUtf8, finish)
      modifies this
      ensures '\0' !in acc && sections == finish.st.sections && acc == finish.acc
      ensures errors == Closing(finish.errors, finish.lineNo, EndsMidLine(buf), "")
    {
      errors, curSection, acc := [], "global", "";
      var b := 0;
      var lineNo: nat := 0;
      var lineLen := -1;
      var rem := |buf|;
      ghost var now := Progress(Loading(sections, "global"), "", 0, []);
      while true
        invariant 0 <= b + lineLen + 1 <= |buf| && lineLen >= -1 && b + rem == |buf|
        invariant '\0' !in acc && curSection in sections
        invariant now == Progress(Loading(sections, curSection), acc, lineNo, errors)
        invariant Ahead(now, buf, b + lineLen + 1, isUtf8, finish)
        invariant b + lineLen >= 0 ==> buf[b + lineLen] == '\n'
        decreases rem - lineLen
      {
        b := b + lineLen + 1;
        rem := rem - (lineLen + 1);
        if rem == 0 {
          AheadNothing(now, buf, b, isUtf8, finish);
          return;
        }
        lineNo := lineNo + 1;
        var more;
        more, lineLen, acc, curSection, errors, now :=
          ReadLine(buf, b, acc, curSection, lineNo, errors, isUtf8, now, finish);
        if !more {
          return;
        }
      }
    }

    /** load_from_buffer.  The "global" section must be new, as the source
        asserts. */
    method LoadFromBuffer(buf: string, isUtf8: string -> bool) returns (errors: seq<Complaint>)
      requires "global" !in sections
      modifies this
      ensures sections == Load(Loading(old(sections)["global" := map[]], "global"),
                               Logical(Lines(buf), "", isUtf8)).sections
      ensures errors == AllComplaints(buf, isUtf8)
    {
      sections := sections["global" := map[]];
      ghost var begin := Progress(Loading(sections, "global"), "", 0, []);
      ghost var finish := TakeLines(begin, Lines(buf), isUtf8);
      TakeAll(begin, Lines(buf), isUtf8);
      assert buf[0..] == buf;
      var acc, curSection;
      acc, curSection, errors := ReadLines(buf, isUtf8, finish);
      if acc != "" {
        errors := errors + [Complaint(0, TrailingBackslash)];
      }
    }

    method ParseBufferlist(buf: string, isUtf8: string -> bool) returns (errors: seq<Complaint>)
      modifies this
      ensures sections == Load(FRESH, Logical(Lines(buf), "", isUtf8)).sections
      ensures errors == AllComplaints(buf, isUtf8)
    {
      Clear();
      errors := LoadFromBuffer(buf, isUtf8);
      assert map[]["global" := map[]] == FRESH.sections;
    }

    method Read(section: string, key: string) returns (r: Option<string>)
      ensures r == Lookup(sections, section, key)
    {
      var k := NormalizeKeyName(key);
      if section !in sections {
        return None;
      }
      if k !in sections[section] {
        return None;
      }
      return Some(sections[section][k]);
    }

    /** operator<<: the sections in order. */
    method Print() returns (out: string)
      ensures out == Printed(sections)
    {
      out := "";
      var names := TraverseStrings(sections.Keys);
      for s := 0 to |names|
        invariant out + PrintedSections(sections, names[s..]) == Printed(sections)
      {
        assert names[s] in names;
        assert names[s..][1..] == names[s + 1..];
        var lines := PrintSection(sections[names[s]]);
        Assoc(out, SectionLine(names[s]) + "\n" + lines, PrintedSections(sections, names[s + 1..]));
        out := out + (SectionLine(names[s]) + "\n" + lines);
      }
    }
  }

  lemma PrintedEnds(lines: map<string, string>, keys: seq<string>)
    requires forall k | k in keys :: k in lines
    ensures "" + PrintedLines(lines, keys[0..]) == PrintedLines(lines, keys)
    ensures PrintedLines(lines, keys[|keys|..]) == ""
  {
    assert keys[0..] == keys && keys[|keys|..] == [];
  }

  lemma PrintedNext(lines: map<string, string>, keys: seq<string>, l: nat, out: string)
    requires l < |keys| && forall k | k in keys :: k in lines
    ensures keys[l] in lines
    ensures out + PrintedLines(lines, keys[l..])
         == (if keys[l] == "" then out else out + (KeyLine(keys[l], lines[keys[l]]) + "\n"))
            + PrintedLines(lines, keys[l + 1..])
  {
    hide KeyLine;
    assert keys[l] in keys && keys[l..][1..] == keys[l + 1..];
    Assoc(out, PrintedLine(lines, keys[l]), PrintedLines(lines, keys[l + 1..]));
    assert out + "" == out;
  }

  method PrintSection(lines: map<string, string>) returns (out: string)
    ensures out == PrintedLines(lines, InStringOrder(lines.Keys))
  {
    hide KeyLine, InStringOrder, PrintedLine, PrintedLines;
    out := "";
    var keys := TraverseStrings(lines.Keys);
    PrintedEnds(lines, keys);
    for l := 0 to |keys|
      invariant out + PrintedLines(lines, keys[l..]) == PrintedLines(lines, keys)
    {
      PrintedNext(lines, keys, l, out);
      if keys[l] != "" {
        out := out + (KeyLine(keys[l], lines[keys[l]]) + "\n");
      }
    }
    assert out + "" == out;
  }

  /** memchr(b, '\n', rem); the end of the buffer when there is none. */
  method FindNewline(buf: string, b: nat) returns (end: nat)
    requires b <= |buf|
    ensures end == b + NewlineAt(buf[b..])
  {
    end := b;
    while end < |buf| && buf[end] != '\n'
      invariant b <= end <= |buf|
      invariant end + NewlineAt(buf[end..]) == b + NewlineAt(buf[b..])
    {
      assert buf[end..][1..] == buf[end + 1..];
      end := end + 1;
    }
  }

  /** Finds the length of a line and looks for nulls in it. */
  method Measure(buf: string, b: nat, end: nat) returns (lineLen: nat, foundNull: bool)
    requires b <= end <= |buf|
    ensures lineLen == end - b
    ensures foundNull <==> '\0' in buf[b..end]
  {
    lineLen, foundNull := 0, false;
    while b + lineLen < end
      invariant b + lineLen <= end
      invariant foundNull <==> '\0' in buf[b..b + lineLen]
    {
      assert buf[b..b + lineLen + 1] == buf[b..b + lineLen] + [buf[b + lineLen]];
      if buf[b + lineLen] == '\0' {
        foundNull := true;
      }
      lineLen := lineLen + 1;
    }
  }
}
