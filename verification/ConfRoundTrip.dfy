/** What loading a configuration file means, and that loading undoes printing. */
module ConfRoundTrip {
  import opened Basics
  import opened ConfUtils
  import opened ConfLines
  import opened ConfText
  import opened Ordered

  // ----- the last definition wins, sections reopen -----

  lemma {:induction false} LoadAppend(st: Loading, a: seq<string>, b: seq<string>)
    requires InSection(st)
    ensures Load(st, a + b) == Load(Load(st, a), b)
    decreases |a|
  {
    if a == [] {
      assert a + b == b;
    } else {
      assert (a + b)[0] == a[0] && (a + b)[1..] == a[1..] + b;
      LoadAppend(Apply(st, ParseLine(a[0])), a[1..], b);
    }
  }

  lemma LoadPrefix(logical: seq<string>, n: nat)
    requires n < |logical|
    ensures Load(FRESH, logical[..n + 1]) == Apply(Load(FRESH, logical[..n]), ParseLine(logical[n]))
  {
    assert logical[..n + 1] == logical[..n] + [logical[n]];
    LoadAppend(FRESH, logical[..n], [logical[n]]);
    var st := Load(FRESH, logical[..n]);
    assert Load(st, [logical[n]]) == Load(Apply(st, ParseLine(logical[n])), [logical[n]][1..]);
  }

  predicate OpensSection(line: string) {
    var r := ParseLine(line);
    r.Line? && r.line.newsection != ""
  }

  /** The section that logical line i belongs to: the last one opened before it. */
  function SectionOf(logical: seq<string>, i: nat): string
    requires i <= |logical|
  {
    if i == 0 then "global"
    else if OpensSection(logical[i - 1]) then ParseLine(logical[i - 1]).line.newsection
    else SectionOf(logical, i - 1)
  }

  predicate Defines(logical: seq<string>, i: nat, section: string, key: string)
    requires i < |logical|
  {
    var r := ParseLine(logical[i]);
    r.Line? && r.line.newsection == "" && r.line.key == key && SectionOf(logical, i) == section
  }

  /** Line i is the last of the first n lines to define the key. */
  predicate LastDefinition(logical: seq<string>, n: nat, i: nat, section: string, key: string)
    requires n <= |logical|
  {
    i < n && Defines(logical, i, section, key)
    && forall j | i < j < n :: !Defines(logical, j, section, key)
  }

  predicate Holds(sections: Sections, section: string, key: string) {
    section in sections && key in sections[section]
  }

  /** Read in this section, the line defines the key. */
  predicate Writes(r: LineResult, current: string, section: string, key: string) {
    r.Line? && r.line.newsection == "" && r.line.key == key && current == section
  }

  lemma ApplyHolds(st: Loading, r: LineResult, section: string, key: string)
    requires InSection(st)
    ensures var next, writes := Apply(st, r).sections, Writes(r, st.current, section, key);
            && (Holds(next, section, key) <==> writes || Holds(st.sections, section, key))
            && (Holds(next, section, key) ==>
                  next[section][key] == if writes then r.line.val else st.sections[section][key])
  {
  }

  lemma {:induction false} CurrentIs(logical: seq<string>, n: nat)
    requires n <= |logical|
    ensures Load(FRESH, logical[..n]).current == SectionOf(logical, n)
  {
    hide ParseLine, Load;
    if n == 0 {
      LoadNothing(FRESH, logical[..0]);
    } else {
      CurrentIs(logical, n - 1);
      LoadPrefix(logical, n - 1);
    }
  }

  lemma LoadNothing(st: Loading, logical: seq<string>)
    requires InSection(st) && logical == []
    ensures Load(st, logical) == st
  {
  }

  /** What is known of an entry behind the first n lines. */
  ghost predicate Answered(logical: seq<string>, n: nat, section: string, key: string, sections: Sections)
    requires n <= |logical|
  {
    && (Holds(sections, section, key) <==> exists i: nat | i < n :: Defines(logical, i, section, key))
    && (forall i: nat | LastDefinition(logical, n, i, section, key) ::
          Holds(sections, section, key) && sections[section][key] == ParseLine(logical[i]).line.val)
  }

  lemma AnsweredNext(logical: seq<string>, n: nat, section: string, key: string, before: Sections, sections: Sections)
    requires n < |logical| && Answered(logical, n, section, key, before)
    requires Holds(sections, section, key) <==> Defines(logical, n, section, key) || Holds(before, section, key)
    requires Holds(sections, section, key) ==>
               sections[section][key] == if Defines(logical, n, section, key) then ParseLine(logical[n]).line.val
                                         else before[section][key]
    ensures Answered(logical, n + 1, section, key, sections)
  {
    hide ParseLine, SectionOf;
    forall i: nat | LastDefinition(logical, n + 1, i, section, key)
      ensures Holds(sections, section, key) && sections[section][key] == ParseLine(logical[i]).line.val
    {
      if i < n {
        assert LastDefinition(logical, n, i, section, key);
      }
    }
  }

  lemma {:induction false} LastDefinitionUpTo(logical: seq<string>, n: nat, section: string, key: string)
    requires n <= |logical|
    ensures Answered(logical, n, section, key, Load(FRESH, logical[..n]).sections)
  {
    hide ParseLine, Apply, SectionOf, Load, Answered, Holds;
    if n == 0 {
      LoadNothing(FRESH, logical[..0]);
      AnsweredNothing(logical, section, key);
    } else {
      var st := Load(FRESH, logical[..n - 1]);
      LastDefinitionUpTo(logical, n - 1, section, key);
      LoadPrefix(logical, n - 1);
      CurrentIs(logical, n - 1);
      ApplyHolds(st, ParseLine(logical[n - 1]), section, key);
      AnsweredNext(logical, n - 1, section, key, st.sections, Load(FRESH, logical[..n]).sections);
    }
  }

  lemma AnsweredNothing(logical: seq<string>, section: string, key: string)
    ensures Answered(logical, 0, section, key, FRESH.sections)
  {
  }

  /** What a loaded file answers: the value of the last logical line that
      defines the key in the section, however often the section was reopened,
      and nothing when there is none. */
  lemma LastDefinitionWins(logical: seq<string>, section: string, key: string)
    ensures var answer, k := Lookup(Load(FRESH, logical).sections, section, key), Normalize(key);
            && (answer.None? <==> forall i: nat | i < |logical| :: !Defines(logical, i, section, k))
            && (forall i: nat | LastDefinition(logical, |logical|, i, section, k) ::
                  answer == Some(ParseLine(logical[i]).line.val))
  {
    hide ParseLine, Load, SectionOf, Normalize;
    assert logical[..|logical|] == logical;
    LastDefinitionUpTo(logical, |logical|, section, Normalize(key));
  }

  // ----- which printed lines read back -----

  predicate Free(s: string, chars: set<char>) {
    forall c | c in s :: c !in chars
  }

  predicate SectionNameOk(s: string) {
    s != "" && Trimmed(s) && Compact(s) && Free(s, SECTION_STOPS + {'\\'})
  }

  predicate KeyOk(k: string) {
    k != "" && Normalized(k) && Free(k, KEY_STOPS + {'\\'}) && k[0] != '[' && k[0] != ']'
  }

  predicate ValueOk(v: string) {
    Free(v, QUOTE_STOPS + {'\\'})
  }

  lemma {:induction false} ScanFree(text: string, tail: string, stops: set<char>, acc: string)
    requires Free(text, stops + {'\\'})
    ensures Scan(text + tail, stops, acc, false) == Scan(tail, stops, acc + text, false)
    decreases |text|
  {
    if text == "" {
      assert text + tail == tail && acc + text == acc;
    } else {
      assert text[0] in text;
      assert (text + tail)[1..] == text[1..] + tail;
      assert acc + [text[0]] + text[1..] == acc + text;
      ScanFree(text[1..], tail, stops, acc + [text[0]]);
    }
  }

  /** A scan that loses no character met no escape and no stop. */
  lemma {:induction false} ScanLossless(s: string, stops: set<char>, acc: string)
    requires var r := Scan(s, stops, acc, false); |r.text| + |r.rest| == |acc| + |s|
    ensures var r := Scan(s, stops, acc, false);
            && |r.rest| <= |s|
            && Free(s[..|s| - |r.rest|], stops + {'\\'})
            && r.text == acc + s[..|s| - |r.rest|]
    decreases |s|
  {
    if s != "" && s[0] !in stops {
      var r := Scan(s, stops, acc, false);
      assert s[0] != '\\';
      ScanLossless(s[1..], stops, acc + [s[0]]);
      var n := |s| - |r.rest|;
      assert s[..n] == [s[0]] + s[1..][..n - 1];
    }
  }

  /** A printed section line reads back if and only if the name is printable. */
  lemma SectionLineExact(s: string)
    requires '\0' !in s
    ensures ParseLine(SectionLine(s)) == Line(ConfLine("", "", s)) <==> SectionNameOk(s)
  {
    SectionLineParsed(s);
    if SectionNameOk(s) {
      SectionNameReads(s);
    }
    if ParseLine(SectionLine(s)) == Line(ConfLine("", "", s)) {
      SectionNameRead(s);
    }
  }

  lemma SectionLineParsed(s: string)
    ensures ParseLine(SectionLine(s)) == ParseSection(Scan(s + "]", SECTION_STOPS, "", false))
  {
    hide ParseSection, Scan, ParseKey;
    var t := SectionLine(s);
    assert t[0] == '[' && DropLeading(t) == t;
    assert t[1..] == s + "]";
  }

  lemma ScanStops(tail: string, stops: set<char>, acc: string)
    requires tail != "" && tail[0] in stops
    ensures Scan(tail, stops, acc, false) == Scanned(acc, tail, false)
  {
  }

  lemma SectionNameReads(s: string)
    requires SectionNameOk(s)
    ensures ParseSection(Scan(s + "]", SECTION_STOPS, "", false)) == Line(ConfLine("", "", s))
  {
    hide Scan, Trim, Trimmed, Compact, Free;
    TrimFixed(s, true);
    ScanFree(s, "]", SECTION_STOPS, "");
    ScanStops("]", SECTION_STOPS, s);
    assert "" + s == s && "]"[1..] == "";
  }

  lemma SectionNameRead(s: string)
    requires ParseSection(Scan(s + "]", SECTION_STOPS, "", false)) == Line(ConfLine("", "", s))
    ensures SectionNameOk(s)
  {
    var r := Scan(s + "]", SECTION_STOPS, "", false);
    TrimSound(r.text, true);
    ScanLossless(s + "]", SECTION_STOPS, "");
    assert (s + "]")[..|s|] == s;
    TrimFixed(s, true);
  }

  lemma StrippedBlank(s: string)
    requires |s| > 1 && s[|s| - 1] == ' ' && Trimmed(s[..|s| - 1])
    ensures Stripped(s) == s[..|s| - 1]
  {
    hide Until;
    UntilExact(s, '\0');
    var k := s[..|s| - 1];
    assert s == k + [' '] && k[0] == s[0];
    assert Until(s, '\0') == s && DropLeading(s) == s;
    assert DropTrailing(s) == DropTrailing(k) == k;
  }

  lemma NormalizePadded(k: string)
    requires k != "" && Trimmed(k) && Compact(k)
    ensures Normalize(k + " ") == Underscored(k)
  {
    hide Stripped, Trimmed, Compact;
    var s := k + " ";
    assert s[..|s| - 1] == k;
    StrippedBlank(s);
    CollapseFixed(k, false);
  }

  /** The parts of a printed line: what follows the equals sign, and what
      follows the tab. */
  function QuotedPart(v: string): string {
    " \"" + v + "\""
  }

  function Untabbed(k: string, v: string): string {
    k + " =" + QuotedPart(v)
  }

  lemma QuotedPartSplit(v: string)
    ensures var part := QuotedPart(v);
            |part| > 1 && part[0] == ' ' && part[1] == '"' && part[1..][1..] == v + "\""
  {
  }

  lemma ParseQuotedPart(k: string, v: string)
    ensures ParseValue(k, QuotedPart(v)) == ParseQuoted(k, Scan(v + "\"", QUOTE_STOPS, "", false))
  {
    hide ParseQuoted, ParseBare, Scan, QuotedPart;
    QuotedPartSplit(v);
    var part := QuotedPart(v);
    assert DropLeading(part) == DropLeading(part[1..]) == part[1..];
  }

  lemma KeyLineUntabbed(k: string, v: string)
    requires k != "" ==> !IsSpace(k[0])
    ensures DropLeading(KeyLine(k, v)) == DropLeading(Untabbed(k, v))
    ensures k != "" ==> DropLeading(KeyLine(k, v)) == Untabbed(k, v)
  {
    assert KeyLine(k, v)[1..] == Untabbed(k, v);
  }

  lemma ScanPrintedKey(k: string, b: string)
    requires Free(k, KEY_STOPS + {'\\'})
    ensures Scan(k + " =" + b, KEY_STOPS, "", false) == Scanned(k + " ", "=" + b, false)
  {
    var padded := k + " ";
    assert k + " =" + b == padded + ("=" + b);
    ScanFree(padded, "=" + b, KEY_STOPS, "");
    assert "" + padded == padded;
  }

  /** A name whose line the machine reads up to the equals sign: it may hold
      blanks, which come back as underscores. */
  predicate NameOk(k: string) {
    k != "" && Trimmed(k) && Compact(k) && Free(k, KEY_STOPS + {'\\'}) && k[0] != '[' && k[0] != ']'
  }

  lemma ParseKeyLine(k: string, v: string)
    requires NameOk(k)
    ensures ParseLine(KeyLine(k, v)) == ParseQuoted(Underscored(k), Scan(v + "\"", QUOTE_STOPS, "", false))
  {
    KeyLineUntabbed(k, v);
    assert Untabbed(k, v)[0] == k[0] && k[0] in k;
    ScanPrintedKey(k, QuotedPart(v));
    assert ("=" + QuotedPart(v))[1..] == QuotedPart(v);
    NormalizePadded(k);
    ParseQuotedPart(Underscored(k), v);
  }

  /** Under a readable name, a printed value reads back if and only if it has no
      quote and no backslash: the printer escapes neither. */
  lemma QuotedLineExact(k: string, v: string)
    requires NameOk(k)
    ensures ParseLine(KeyLine(k, v)) == Line(ConfLine(Underscored(k), v, "")) <==> ValueOk(v)
  {
    ParseKeyLine(k, v);
    var r := Scan(v + "\"", QUOTE_STOPS, "", false);
    if ValueOk(v) {
      ScanFree(v, "\"", QUOTE_STOPS, "");
      assert "" + v == v;
      assert r == Scanned(v, "\"", false);
      assert r.rest[1..] == "";
    }
    if ParseLine(KeyLine(k, v)) == Line(ConfLine(Underscored(k), v, "")) {
      ScanLossless(v + "\"", QUOTE_STOPS, "");
      assert (v + "\"")[..|v|] == v;
    }
  }

  lemma ValueExact(k: string, v: string)
    requires KeyOk(k)
    ensures ParseLine(KeyLine(k, v)) == Line(ConfLine(k, v, "")) <==> ValueOk(v)
  {
    assert Underscored(k) == k;
    QuotedLineExact(k, v);
  }

  /** A scan returns a suffix of its input. */
  lemma {:induction false} ScanSuffix(s: string, stops: set<char>, acc: string, escaping: bool)
    ensures var r := Scan(s, stops, acc, escaping); |r.rest| <= |s| && r.rest == s[|s| - |r.rest|..]
    decreases |s|
  {
    if s != "" {
      ScanSuffix(s[1..], stops, acc + [s[0]], false);
      ScanSuffix(s[1..], stops, acc, true);
    }
  }

  /** The blank that the printer puts before '=' absorbs any pending escape, so
      the scan of a key stops there at the latest. */
  lemma {:induction false} ScanStopsAtEquals(a: string, b: string, acc: string, escaping: bool)
    ensures var r := Scan(a + " =" + b, KEY_STOPS, acc, escaping);
            && |r.rest| >= |b| + 1
            && (|r.rest| == |b| + 1 ==> r.text != "" && r.text[|r.text| - 1] == ' ')
    decreases |a|
  {
    var s := a + " =" + b;
    if a == "" {
      assert s[1..] == "=" + b;
    } else {
      assert s[0] == a[0] && s[1..] == a[1..] + " =" + b;
      ScanStopsAtEquals(a[1..], b, acc, true);
      ScanStopsAtEquals(a[1..], b, acc + [a[0]], false);
    }
  }

  /** A printed line reads back if and only if both its key and its value are
      printable. */
  lemma KeyLineExact(k: string, v: string)
    ensures ParseLine(KeyLine(k, v)) == Line(ConfLine(k, v, "")) <==> KeyOk(k) && ValueOk(v)
  {
    if KeyOk(k) {
      ValueExact(k, v);
    }
    if ParseLine(KeyLine(k, v)) == Line(ConfLine(k, v, "")) {
      ReadableKeyIsNormalized(k, v);
      KeyLineUntabbed(k, v);
      ReadableKeyIsFree(k, v);
    }
  }

  lemma EmptyKeyLine(v: string)
    ensures ParseLine(KeyLine("", v)) == Bad(NoKeyName)
  {
    KeyLineUntabbed("", v);
    assert Untabbed("", v)[1..] == "=" + QuotedPart(v);
    assert DropLeading(KeyLine("", v)) == "=" + QuotedPart(v);
  }

  lemma ReadableKeyIsNormalized(k: string, v: string)
    requires ParseLine(KeyLine(k, v)) == Line(ConfLine(k, v, ""))
    ensures k != "" && Normalized(k)
  {
    hide Scan, Normalize;
    EmptyKeyLine(v);
    NormalizeSound(Scan(DropLeading(KeyLine(k, v)), KEY_STOPS, "", false).text);
  }

  lemma ReadableKeyIsFree(k: string, v: string)
    requires k != "" && Normalized(k)
    requires ParseLine(KeyLine(k, v)) == Line(ConfLine(k, v, ""))
    ensures Free(k, KEY_STOPS + {'\\'}) && k[0] != '[' && k[0] != ']'
  {
    hide QuotedPart, Normalize, Scan, Free;
    KeyLineUntabbed(k, v);
    var t := Untabbed(k, v);
    assert t[0] == k[0];
    var r := Scan(t, KEY_STOPS, "", false);
    assert Normalize(r.text) == k && r.rest != "" && r.rest[0] == '=';
    ScanBackToKey(k, QuotedPart(v));
  }

  lemma ScanBackToKey(k: string, b: string)
    requires var r := Scan(k + " =" + b, KEY_STOPS, "", false);
             Normalize(r.text) == k && r.rest != "" && r.rest[0] == '='
    ensures Free(k, KEY_STOPS + {'\\'})
  {
    var t := k + " =" + b;
    var r := Scan(t, KEY_STOPS, "", false);
    NormalizeSound(r.text);
    ScanSuffix(t, KEY_STOPS, "", false);
    ScanStopsAtEquals(k, b, "", false);
    assert t[|k|] == ' ';
    if |r.text| == |k| {
      NormalizeKeepsLength(r.text);
    }
    ScanLossless(t, KEY_STOPS, "");
    assert forall i | 0 <= i < |k| :: k[i] == t[..|t| - |r.rest|][i];
  }

  /** Normalizing shortens whatever ends in a blank. */
  lemma NormalizeKeepsLength(s: string)
    requires |Normalize(s)| == |s|
    ensures s != "" ==> s[|s| - 1] != ' '
  {
    var c := Until(s, '\0');
    UntilExact(s, '\0');
    DropLeadingSound(c);
    DropTrailingSound(DropLeading(c));
  }

  // ----- loading undoes printing -----

  /** A text made of lines. */
  function Text(lines: seq<string>): string {
    if lines == [] then "" else lines[0] + "\n" + Text(lines[1..])
  }

  /** A line that load_from_buffer takes as it is. */
  predicate Whole(line: string, isUtf8: string -> bool) {
    '\n' !in line && Classify(line, isUtf8) == Ended(line)
  }

  lemma {:induction false} NewlineAfter(line: string, rest: string)
    requires '\n' !in line
    ensures NewlineAt(line + "\n" + rest) == |line|
  {
    var s := line + "\n" + rest;
    if line != "" {
      assert s[0] == line[0] && s[1..] == line[1..] + "\n" + rest;
      NewlineAfter(line[1..], rest);
    }
  }

  lemma LinesCons(line: string, rest: string)
    requires '\n' !in line
    ensures Lines(line + "\n" + rest) == [line] + Lines(rest)
    ensures EndsMidLine(line + "\n" + rest) == EndsMidLine(rest)
  {
    hide NewlineAt;
    NewlineAfter(line, rest);
    var s := line + "\n" + rest;
    assert s[..|line|] == line && s[|line| + 1..] == rest;
    assert rest == "" ==> s[|s| - 1] == '\n';
  }

  lemma {:induction false} LinesOfText(lines: seq<string>)
    requires forall l | l in lines :: '\n' !in l
    ensures Lines(Text(lines)) == lines && !EndsMidLine(Text(lines))
  {
    hide Lines, EndsMidLine;
    if lines == [] {
      NoLines();
    } else {
      LinesOfText(lines[1..]);
      LinesCons(lines[0], Text(lines[1..]));
    }
  }

  lemma NoLines()
    ensures Lines("") == [] && !EndsMidLine("")
  {
  }

  lemma {:induction false} LogicalOfWhole(lines: seq<string>, before: nat, isUtf8: string -> bool)
    requires forall l | l in lines :: Whole(l, isUtf8)
    ensures Logical(lines, "", isUtf8) == lines && Pending(lines, "", isUtf8) == ""
    ensures (forall l | l in lines :: !ParseLine(l).Bad?) ==> Complaints(lines, "", before, isUtf8) == []
  {
    if lines != [] {
      LogicalOfWhole(lines[1..], before + 1, isUtf8);
      assert lines[0] in lines && "" + lines[0] == lines[0];
    }
  }

  /** The lines that operator<< prints. */
  function KeyTexts(lines: map<string, string>, keys: seq<string>): seq<string>
    requires forall k | k in keys :: k in lines
  {
    if keys == [] then []
    else if keys[0] == "" then KeyTexts(lines, keys[1..])
    else [KeyLine(keys[0], lines[keys[0]])] + KeyTexts(lines, keys[1..])
  }

  ghost function SectionTexts(sections: Sections, names: seq<string>): seq<string>
    requires forall s | s in names :: s in sections
  {
    if names == [] then []
    else [SectionLine(names[0])]
         + KeyTexts(sections[names[0]], InStringOrder(sections[names[0]].Keys))
         + SectionTexts(sections, names[1..])
  }

  lemma {:induction false} TextAppend(a: seq<string>, b: seq<string>)
    ensures Text(a + b) == Text(a) + Text(b)
  {
    if a == [] {
      assert a + b == b;
    } else {
      assert (a + b)[1..] == a[1..] + b;
      TextAppend(a[1..], b);
      assert Text(a + b) == a[0] + "\n" + (Text(a[1..]) + Text(b));
    }
  }

  lemma {:induction false} KeysPrinted(lines: map<string, string>, keys: seq<string>)
    requires forall k | k in keys :: k in lines
    ensures PrintedLines(lines, keys) == Text(KeyTexts(lines, keys))
  {
    if keys != [] {
      KeysPrinted(lines, keys[1..]);
      if keys[0] != "" {
        var line := KeyLine(keys[0], lines[keys[0]]);
        assert ([line] + KeyTexts(lines, keys[1..]))[1..] == KeyTexts(lines, keys[1..]);
      } else {
        assert "" + PrintedLines(lines, keys[1..]) == PrintedLines(lines, keys[1..]);
      }
    }
  }

  lemma {:induction false} SectionsPrinted(sections: Sections, names: seq<string>)
    requires forall s | s in names :: s in sections
    ensures PrintedSections(sections, names) == Text(SectionTexts(sections, names))
  {
    if names != [] {
      var keys := InStringOrder(sections[names[0]].Keys);
      var head, body := SectionLine(names[0]), KeyTexts(sections[names[0]], keys);
      var rest := SectionTexts(sections, names[1..]);
      KeysPrinted(sections[names[0]], keys);
      SectionsPrinted(sections, names[1..]);
      TextAppend([head] + body, rest);
      assert ([head] + body)[1..] == body;
    }
  }

  /** Everything the printer writes reads back: names and keys are printable and
      no value needs escaping.  Lines under the empty key are never printed. */
  predicate Printable(sections: Sections, isUtf8: string -> bool) {
    forall s | s in sections ::
      && SectionNameOk(s) && '\n' !in s && isUtf8(SectionLine(s))
      && PrintableLines(sections[s], isUtf8)
  }

  predicate PrintableLines(lines: map<string, string>, isUtf8: string -> bool) {
    forall k | k in lines && k != "" ::
      && KeyOk(k) && '\n' !in k
      && ValueOk(lines[k]) && '\n' !in lines[k] && '\0' !in lines[k]
      && isUtf8(KeyLine(k, lines[k]))
  }

  function Visible(lines: map<string, string>): map<string, string> {
    lines - {""}
  }

  lemma PrintedLineWhole(line: string, isUtf8: string -> bool)
    requires '\n' !in line && '\0' !in line && isUtf8(line)
    requires line != "" && line[|line| - 1] != '\\'
    ensures Whole(line, isUtf8)
  {
  }

  /** The printed keys and their values. */
  function Listed(lines: map<string, string>, keys: seq<string>): map<string, string>
    requires forall k | k in keys :: k in lines
  {
    map k | k in keys && k != "" :: lines[k]
  }

  lemma KeyLineEnds(k: string, v: string)
    requires '\n' !in k && '\0' !in k && '\n' !in v && '\0' !in v
    ensures var line := KeyLine(k, v);
            '\n' !in line && '\0' !in line && line != "" && line[|line| - 1] == '"'
  {
  }

  lemma KeyLineWhole(lines: map<string, string>, k: string, isUtf8: string -> bool)
    requires PrintableLines(lines, isUtf8) && k in lines && k != ""
    ensures Whole(KeyLine(k, lines[k]), isUtf8)
    ensures ParseLine(KeyLine(k, lines[k])) == Line(ConfLine(k, lines[k], ""))
  {
    hide KeyLine, ParseLine, Whole, ValueOk;
    ValueExact(k, lines[k]);
    KeyLineEnds(k, lines[k]);
    PrintedLineWhole(KeyLine(k, lines[k]), isUtf8);
  }

  lemma {:induction false} KeyTextsWhole(lines: map<string, string>, keys: seq<string>, isUtf8: string -> bool)
    requires PrintableLines(lines, isUtf8)
    requires forall k | k in keys :: k in lines
    ensures forall l | l in KeyTexts(lines, keys) :: Whole(l, isUtf8) && !ParseLine(l).Bad?
  {
    if keys != [] {
      KeyTextsWhole(lines, keys[1..], isUtf8);
      if keys[0] != "" {
        KeyLineWhole(lines, keys[0], isUtf8);
      }
    }
  }

  function Extended(st: Loading, more: map<string, string>): (st': Loading)
    requires InSection(st)
    ensures InSection(st')
  {
    st.(sections := st.sections[st.current := st.sections[st.current] + more])
  }

  lemma ExtendOne(st: Loading, lines: map<string, string>, keys: seq<string>)
    requires InSection(st) && keys != [] && keys[0] != ""
    requires forall k | k in keys :: k in lines
    ensures Extended(Extended(st, map[keys[0] := lines[keys[0]]]), Listed(lines, keys[1..]))
         == Extended(st, Listed(lines, keys))
  {
    var m := st.sections[st.current];
    assert m + map[keys[0] := lines[keys[0]]] + Listed(lines, keys[1..]) == m + Listed(lines, keys);
  }

  lemma {:induction false} LoadKeys(st: Loading, lines: map<string, string>, keys: seq<string>, isUtf8: string -> bool)
    requires InSection(st) && PrintableLines(lines, isUtf8)
    requires forall k | k in keys :: k in lines
    ensures Load(st, KeyTexts(lines, keys)) == Extended(st, Listed(lines, keys))
    decreases |keys|
  {
    hide PrintableLines, ParseLine, KeyLine;
    if keys == [] {
      assert st.sections[st.current] + Listed(lines, keys) == st.sections[st.current];
    } else if keys[0] == "" {
      assert Listed(lines, keys) == Listed(lines, keys[1..]);
      LoadKeys(st, lines, keys[1..], isUtf8);
    } else {
      var k := keys[0];
      KeyLineWhole(lines, k, isUtf8);
      var next := Apply(st, ParseLine(KeyLine(k, lines[k])));
      assert next == Extended(st, map[k := lines[k]]) by {
        assert st.sections[st.current][k := lines[k]] == st.sections[st.current] + map[k := lines[k]];
      }
      LoadKeys(next, lines, keys[1..], isUtf8);
      LoadCons(st, KeyLine(k, lines[k]), KeyTexts(lines, keys[1..]));
      ExtendOne(st, lines, keys);
    }
  }

  lemma SectionLineWhole(s: string, isUtf8: string -> bool)
    requires SectionNameOk(s) && '\n' !in s && isUtf8(SectionLine(s))
    ensures Whole(SectionLine(s), isUtf8)
    ensures ParseLine(SectionLine(s)) == Line(ConfLine("", "", s))
  {
    SectionLineExact(s);
    PrintedLineWhole(SectionLine(s), isUtf8);
  }

  lemma {:induction false} SectionTextsWhole(sections: Sections, names: seq<string>, isUtf8: string -> bool)
    requires Printable(sections, isUtf8)
    requires forall s | s in names :: s in sections
    ensures forall l | l in SectionTexts(sections, names) :: Whole(l, isUtf8) && !ParseLine(l).Bad?
  {
    if names != [] {
      SectionLineWhole(names[0], isUtf8);
      KeyTextsWhole(sections[names[0]], InStringOrder(sections[names[0]].Keys), isUtf8);
      SectionTextsWhole(sections, names[1..], isUtf8);
    }
  }

  lemma ListedInOrder(lines: map<string, string>)
    ensures Listed(lines, InStringOrder(lines.Keys)) == Visible(lines)
  {
  }

  /** A section header opens an empty or missing section. */
  lemma OpenSection(st: Loading, s: string, t: map<string, string>)
    requires InSection(st) && s != ""
    requires s in st.sections ==> st.sections[s] == map[]
    ensures var next := Apply(st, Line(ConfLine("", "", s)));
            next.current == s && next.sections[s] == map[] && next.sections[s := t] == st.sections[s := t]
  {
  }

  lemma ExtendEmpty(st: Loading, t: map<string, string>)
    requires InSection(st) && st.sections[st.current] == map[]
    ensures Extended(st, t) == st.(sections := st.sections[st.current := t])
  {
    assert map[] + t == t;
  }

  ghost function SectionText(s: string, lines: map<string, string>): seq<string> {
    [SectionLine(s)] + KeyTexts(lines, InStringOrder(lines.Keys))
  }

  lemma LoadSection(st: Loading, s: string, lines: map<string, string>, isUtf8: string -> bool)
    requires InSection(st) && SectionNameOk(s) && '\n' !in s && isUtf8(SectionLine(s))
    requires s in st.sections ==> st.sections[s] == map[]
    requires PrintableLines(lines, isUtf8)
    ensures Load(st, SectionText(s, lines)) == Loading(st.sections[s := Visible(lines)], s)
  {
    SectionLineWhole(s, isUtf8);
    var keys := InStringOrder(lines.Keys);
    LoadCons(st, SectionLine(s), KeyTexts(lines, keys));
    LoadKeys(Apply(st, ParseLine(SectionLine(s))), lines, keys, isUtf8);
    ListedInOrder(lines);
    OpenSection(st, s, Visible(lines));
    ExtendEmpty(Apply(st, ParseLine(SectionLine(s))), Visible(lines));
  }

  /** The sections of `names`, without their invisible lines. */
  function AllVisible(sections: Sections, names: seq<string>): Sections
    requires forall s | s in names :: s in sections
  {
    map s | s in names :: Visible(sections[s])
  }

  lemma AllVisibleCons(base: Sections, sections: Sections, names: seq<string>)
    requires names != [] && Distinct(names)
    requires forall s | s in names :: s in sections
    ensures names[0] !in names[1..]
    ensures base[names[0] := Visible(sections[names[0]])] + AllVisible(sections, names[1..])
         == base + AllVisible(sections, names)
  {
    hide Visible;
    forall i | 0 <= i < |names[1..]| ensures names[1..][i] != names[0] {
      assert names[1..][i] == names[i + 1];
    }
    forall s | s in names ensures s == names[0] || s in names[1..] {}
  }

  lemma AllVisibleNothing(sections: Sections)
    ensures AllVisible(sections, []) == map[]
  {
  }

  lemma SectionTextsCons(sections: Sections, names: seq<string>)
    requires names != [] && forall s | s in names :: s in sections
    ensures SectionTexts(sections, names)
         == SectionText(names[0], sections[names[0]]) + SectionTexts(sections, names[1..])
  {
    hide InStringOrder;
  }

  lemma PrintableAt(sections: Sections, isUtf8: string -> bool, s: string)
    requires Printable(sections, isUtf8) && s in sections
    ensures SectionNameOk(s) && '\n' !in s && isUtf8(SectionLine(s)) && PrintableLines(sections[s], isUtf8)
  {
  }

  lemma {:induction false} LoadSections(st: Loading, sections: Sections, names: seq<string>, isUtf8: string -> bool)
    requires InSection(st) && Printable(sections, isUtf8) && Distinct(names)
    requires forall s | s in names :: s in sections
    requires forall s | s in names :: s in st.sections ==> st.sections[s] == map[]
    ensures Load(st, SectionTexts(sections, names)).sections == st.sections + AllVisible(sections, names)
    decreases |names|
  {
    hide Visible, Printable, PrintableLines, SectionNameOk, SectionLine, AllVisible, SectionText;
    if names == [] {
      AllVisibleNothing(sections);
      assert st.sections + map[] == st.sections;
    } else {
      var s := names[0];
      PrintableAt(sections, isUtf8, s);
      SectionTextsCons(sections, names);
      LoadSection(st, s, sections[s], isUtf8);
      LoadAppend(st, SectionText(s, sections[s]), SectionTexts(sections, names[1..]));
      AllVisibleCons(st.sections, sections, names);
      LoadSections(Loading(st.sections[s := Visible(sections[s])], s), sections, names[1..], isUtf8);
    }
  }

  lemma InStringOrderDistinct(s: set<string>)
    ensures Distinct(InStringOrder(s))
  {
    StringOrder();
    InOrderIncreasing(s, StringLess);
  }

  /** The sections that a fresh ConfFile holds after loading a text. */
  function Loaded(text: string, isUtf8: string -> bool): Sections {
    Load(FRESH, Logical(Lines(text), "", isUtf8)).sections
  }

  lemma LoadLines(lines: seq<string>, isUtf8: string -> bool)
    requires forall l | l in lines :: Whole(l, isUtf8) && !ParseLine(l).Bad?
    ensures AllComplaints(Text(lines), isUtf8) == []
    ensures Loaded(Text(lines), isUtf8) == Load(FRESH, lines).sections
  {
    LinesOfText(lines);
    LogicalOfWhole(lines, 0, isUtf8);
  }

  function VisibleSections(sections: Sections): Sections {
    map s | s in sections :: Visible(sections[s])
  }

  lemma AllVisibleInOrder(sections: Sections)
    ensures AllVisible(sections, InStringOrder(sections.Keys)) == VisibleSections(sections)
  {
  }

  lemma LoadPrintedLines(sections: Sections, isUtf8: string -> bool)
    requires Printable(sections, isUtf8)
    ensures var lines := SectionTexts(sections, InStringOrder(sections.Keys));
            && (forall l | l in lines :: Whole(l, isUtf8) && !ParseLine(l).Bad?)
            && Load(FRESH, lines).sections == FRESH.sections + VisibleSections(sections)
  {
    var names := InStringOrder(sections.Keys);
    SectionTextsWhole(sections, names, isUtf8);
    InStringOrderDistinct(sections.Keys);
    LoadSections(FRESH, sections, names, isUtf8);
    AllVisibleInOrder(sections);
  }

  /** Loading a printed file: no complaint, and every section and key comes back,
      except the entries under the empty key that comment lines leave behind. */
  lemma LoadPrinted(sections: Sections, isUtf8: string -> bool)
    requires Printable(sections, isUtf8)
    ensures AllComplaints(Printed(sections), isUtf8) == []
    ensures Loaded(Printed(sections), isUtf8) == FRESH.sections + VisibleSections(sections)
  {
    var lines := SectionTexts(sections, InStringOrder(sections.Keys));
    SectionsPrinted(sections, InStringOrder(sections.Keys));
    LoadPrintedLines(sections, isUtf8);
    LoadLines(lines, isUtf8);
  }

  /** The round trip as read() sees it: printing and loading keep every answer
      under a key, and the empty key is never answered again. */
  lemma PrintThenLoadKeepsAnswers(sections: Sections, isUtf8: string -> bool, section: string, key: string)
    requires Printable(sections, isUtf8)
    ensures Lookup(Loaded(Printed(sections), isUtf8), section, key)
         == if Normalize(key) == "" then None else Lookup(sections, section, key)
  {
    LoadPrinted(sections, isUtf8);
    VisibleAnswers(sections, section, key);
  }

  lemma VisibleAnswers(sections: Sections, section: string, key: string)
    ensures Lookup(FRESH.sections + VisibleSections(sections), section, key)
         == if Normalize(key) == "" then None else Lookup(sections, section, key)
  {
    var k := Normalize(key);
    if section in sections {
      assert VisibleSections(sections)[section] == sections[section] - {""};
    }
  }
}
