/** White space around what a line of a configuration file says. */
module ConfBlanks {
  import opened Basics
  import opened ConfLines
  import opened ConfRoundTrip
  import opened ConfText
  import opened ConfUtils

  /** Space, tab, newline, vertical tab, form feed and carriage return, by their codes. */
  predicate White(c: char) {
    c as int == 32 || 9 <= c as int <= 13
  }

  /** Neither end is white space. */
  predicate CleanEnds(s: string) {
    s != "" ==> !White(s[0]) && !White(s[|s| - 1])
  }

  /** No backslash waits for the character behind the text. */
  predicate Closed(s: string) {
    s == "" || s[|s| - 1] != '\\'
  }

  // ----- white space behind a line -----

  lemma {:induction false} LeadingAppend(s: string, w: char)
    requires White(w)
    ensures DropLeading(s + [w]) == if DropLeading(s) == "" then "" else DropLeading(s) + [w]
  {
    if s == "" {
      assert s + [w] == [w];
    } else {
      assert (s + [w])[0] == s[0] && (s + [w])[1..] == s[1..] + [w];
      if IsSpace(s[0]) {
        LeadingAppend(s[1..], w);
      }
    }
  }

  lemma TrailingAppend(s: string, w: char)
    requires White(w)
    ensures DropTrailing(s + [w]) == DropTrailing(s)
  {
    assert (s + [w])[..|s|] == s;
  }

  lemma {:induction false} UntilAppend(s: string, w: char)
    requires w != '\0'
    ensures Until(s + [w], '\0') == if '\0' in s then Until(s, '\0') else Until(s, '\0') + [w]
  {
    if s == "" {
      assert s + [w] == [w];
    } else {
      assert (s + [w])[0] == s[0] && (s + [w])[1..] == s[1..] + [w];
      if s[0] != '\0' {
        UntilAppend(s[1..], w);
        assert [s[0]] + (Until(s[1..], '\0') + [w]) == [s[0]] + Until(s[1..], '\0') + [w];
      }
    }
  }

  lemma TrimAppend(s: string, w: char, internal: bool)
    requires White(w)
    ensures Trim(s + [w], internal) == Trim(s, internal)
  {
    hide Until, DropLeading, DropTrailing;
    UntilAppend(s, w);
    if '\0' !in s {
      var t := Until(s, '\0');
      LeadingAppend(t, w);
      TrailingAppend(DropLeading(t), w);
      NothingTrailing();
    }
  }

  lemma NothingTrailing()
    ensures DropTrailing("") == ""
  {
  }

  /** White space behind a text changes a scan of it only behind what it collects. */
  lemma {:induction false} ScanAppend(s: string, stops: set<char>, acc: string, escaping: bool, w: char)
    requires White(w) && w !in stops && Closed(s) && (s == "" ==> !escaping)
    ensures var r := Scan(s, stops, acc, escaping);
            && !r.dangling
            && Scan(s + [w], stops, acc, escaping)
               == if r.rest == "" then Scanned(r.text + [w], "", false) else Scanned(r.text, r.rest + [w], false)
    decreases |s|
  {
    if s == "" {
      assert s + [w] == [w] && [w][1..] == "";
    } else {
      assert (s + [w])[0] == s[0] && (s + [w])[1..] == s[1..] + [w];
      if s[0] in stops && !escaping {
      } else if s[0] == '\\' && !escaping {
        ScanAppend(s[1..], stops, acc, true, w);
      } else {
        ScanAppend(s[1..], stops, acc + [s[0]], false, w);
      }
    }
  }

  lemma TailAppend(line: ConfLine, s: string, w: char)
    requires White(w)
    ensures ParseTail(line, s + [w]) == ParseTail(line, s)
  {
    LeadingAppend(s, w);
  }

  lemma SectionAppend(s: string, w: char)
    requires White(w) && Closed(s)
    ensures ParseSection(Scan(s + [w], SECTION_STOPS, "", false)) == ParseSection(Scan(s, SECTION_STOPS, "", false))
  {
    hide Scan, Trim, ParseTail;
    var r := Scan(s, SECTION_STOPS, "", false);
    ScanAppend(s, SECTION_STOPS, "", false, w);
    if r.rest != "" {
      assert (r.rest + [w])[1..] == r.rest[1..] + [w];
      TailAppend(ConfLine("", "", Trim(r.text, true)), r.rest[1..], w);
    }
  }

  lemma QuotedAppend(key: string, s: string, w: char)
    requires White(w) && Closed(s)
    ensures ParseQuoted(key, Scan(s + [w], QUOTE_STOPS, "", false)) == ParseQuoted(key, Scan(s, QUOTE_STOPS, "", false))
  {
    hide Scan, ParseTail;
    var r := Scan(s, QUOTE_STOPS, "", false);
    ScanAppend(s, QUOTE_STOPS, "", false, w);
    if r.rest != "" {
      assert (r.rest + [w])[1..] == r.rest[1..] + [w];
      TailAppend(ConfLine(key, r.text, ""), r.rest[1..], w);
    }
  }

  lemma BareAppend(key: string, s: string, w: char)
    requires White(w) && Closed(s)
    ensures ParseBare(key, Scan(s + [w], VALUE_STOPS, "", false)) == ParseBare(key, Scan(s, VALUE_STOPS, "", false))
  {
    hide Scan, Trim;
    var r := Scan(s, VALUE_STOPS, "", false);
    ScanAppend(s, VALUE_STOPS, "", false, w);
    TrimAppend(r.text, w, false);
  }

  lemma ValueAppend(key: string, s: string, w: char)
    requires White(w) && Closed(s)
    ensures ParseValue(key, s + [w]) == ParseValue(key, s)
  {
    hide Scan, DropLeading, ParseQuoted, ParseBare;
    LeadingAppend(s, w);
    DropLeadingSound(s);
    var t := DropLeading(s);
    if t != "" {
      assert (t + [w])[1..] == t[1..] + [w];
      QuotedAppend(key, t[1..], w);
      BareAppend(key, t, w);
    }
  }

  lemma KeyAppend(t: string, w: char)
    requires White(w) && Closed(t)
    ensures ParseKey(Scan(t + [w], KEY_STOPS, "", false)) == ParseKey(Scan(t, KEY_STOPS, "", false))
  {
    hide Scan, Normalize, ParseValue;
    var r := Scan(t, KEY_STOPS, "", false);
    ScanAppend(t, KEY_STOPS, "", false, w);
    ScanSuffix(t, KEY_STOPS, "", false);
    if r.rest != "" {
      assert (r.rest + [w])[1..] == r.rest[1..] + [w];
      ValueAppend(Normalize(r.text), r.rest[1..], w);
    }
  }

  /** White space at the end of a line means nothing, unless a backslash is in front
      of it. */
  lemma BlankBehind(s: string, w: char)
    requires White(w) && Closed(s)
    ensures ParseLine(s + [w]) == ParseLine(s)
  {
    hide Scan, DropLeading, ParseSection, ParseKey;
    LeadingAppend(s, w);
    DropLeadingSound(s);
    var t := DropLeading(s);
    if t != "" {
      assert (t + [w])[1..] == t[1..] + [w];
      SectionAppend(t[1..], w);
      KeyAppend(t, w);
    }
  }

  /** White space in front of a line means nothing. */
  lemma BlankBefore(w: char, s: string)
    requires White(w)
    ensures ParseLine([w] + s) == ParseLine(s)
  {
    hide Scan, ParseSection, ParseKey;
    assert ([w] + s)[1..] == s;
  }

  // ----- lines that end with a carriage return and a newline -----

  function Returned(lines: seq<string>): (r: seq<string>)
    ensures |r| == |lines| && forall i | 0 <= i < |r| :: r[i] == lines[i] + "\r"
  {
    seq(|lines|, i requires 0 <= i < |lines| => lines[i] + "\r")
  }

  lemma {:induction false} ReturnedLoad(st: Loading, lines: seq<string>)
    requires InSection(st) && forall l | l in lines :: Closed(l)
    ensures Load(st, Returned(lines)) == Load(st, lines)
    decreases |lines|
  {
    hide ParseLine, Apply;
    if lines != [] {
      BlankBehind(lines[0], '\r');
      assert Returned(lines)[1..] == Returned(lines[1..]);
      ReturnedLoad(Apply(st, ParseLine(lines[0])), lines[1..]);
    }
  }

  lemma {:induction false} ReturnedComplaints(lines: seq<string>, n: nat, isUtf8: string -> bool)
    requires forall l | l in lines :: Closed(l) && Whole(l, isUtf8) && Whole(l + "\r", isUtf8)
    ensures Complaints(Returned(lines), "", n, isUtf8) == Complaints(lines, "", n, isUtf8)
    decreases |lines|
  {
    hide ParseLine, Classify;
    if lines != [] {
      assert lines[0] in lines;
      BlankBehind(lines[0], '\r');
      assert Returned(lines)[1..] == Returned(lines[1..]);
      assert "" + lines[0] == lines[0] && "" + (lines[0] + "\r") == lines[0] + "\r";
      ReturnedComplaints(lines[1..], n + 1, isUtf8);
    }
  }

  /** A file with carriage returns in front of its newlines loads as the one without
      them, and complains about the same lines. */
  lemma ReturnsIgnored(lines: seq<string>, isUtf8: string -> bool)
    requires forall l | l in lines :: Whole(l, isUtf8) && Whole(l + "\r", isUtf8)
    ensures Loaded(Text(Returned(lines)), isUtf8) == Loaded(Text(lines), isUtf8)
    ensures AllComplaints(Text(Returned(lines)), isUtf8) == AllComplaints(Text(lines), isUtf8)
  {
    hide Lines, Logical, Load, Complaints, Text, Pending, EndsMidLine, Whole;
    var returned := Returned(lines);
    WholeLines(lines, isUtf8);
    forall l | l in returned ensures Whole(l, isUtf8) {
      var i :| 0 <= i < |returned| && returned[i] == l;
      assert lines[i] in lines;
    }
    WholeLines(returned, isUtf8);
    LinesOfText(lines);
    LinesOfText(returned);
    LogicalOfWhole(lines, 0, isUtf8);
    LogicalOfWhole(returned, 0, isUtf8);
    ReturnedLoad(FRESH, lines);
    ReturnedComplaints(lines, 0, isUtf8);
  }

  lemma WholeLines(lines: seq<string>, isUtf8: string -> bool)
    requires forall l | l in lines :: Whole(l, isUtf8)
    ensures forall l | l in lines :: '\n' !in l && Closed(l)
  {
  }

  // ----- what is loaded has clean ends -----

  lemma TrimmedEnds(s: string)
    requires Trimmed(s)
    ensures CleanEnds(s)
  {
  }

  lemma TailKeeps(line: ConfLine, s: string)
    requires ParseTail(line, s).Line?
    ensures ParseTail(line, s).line == line
  {
  }

  lemma SectionEnds(name: Scanned)
    requires ParseSection(name).Line?
    ensures var l := ParseSection(name).line; l.key == "" && l.val == "" && CleanEnds(l.newsection)
  {
    hide Trim, Trimmed, ParseTail;
    TrimSound(name.text, true);
    TrimmedEnds(Trim(name.text, true));
    TailKeeps(ConfLine("", "", Trim(name.text, true)), name.rest[1..]);
  }

  /** A quotation mark with only white space between an equals sign and it. */
  ghost predicate OpensQuote(s: string) {
    exists j, i :: 0 <= j < i < |s| && QuoteBehind(s, j, i)
  }

  predicate QuoteBehind(s: string, j: nat, i: nat)
    requires j < i < |s|
  {
    s[j] == '=' && s[i] == '"' && forall k | j < k < i :: White(s[k])
  }

  lemma ValueEnds(key: string, s: string)
    requires ParseValue(key, s).Line?
    ensures var l := ParseValue(key, s).line;
            l.key == key && l.newsection == "" && (OpensQuote("=" + s) || CleanEnds(l.val))
  {
    hide Scan, Trim, Trimmed, ParseTail, OpensQuote;
    DropLeadingSound(s);
    var t := DropLeading(s);
    if t != "" && t[0] !in VALUE_STOPS {
      if t[0] == '"' {
        var r := Scan(t[1..], QUOTE_STOPS, "", false);
        TailKeeps(ConfLine(key, r.text, ""), r.rest[1..]);
        QuoteOpens(s);
      } else {
        var r := Scan(t, VALUE_STOPS, "", false);
        TrimSound(r.text, false);
        TrimmedEnds(Trim(r.text, false));
      }
    }
  }

  lemma QuoteOpens(s: string)
    requires DropLeading(s) != "" && DropLeading(s)[0] == '"'
    ensures OpensQuote("=" + s)
  {
    hide DropLeading;
    DropLeadingSound(s);
    assert QuoteBehind("=" + s, 0, 1 + |s| - |DropLeading(s)|);
  }

  lemma QuoteLater(s: string, n: nat)
    requires n <= |s| && OpensQuote(s[n..])
    ensures OpensQuote(s)
  {
    var j, i :| 0 <= j < i < |s| - n && QuoteBehind(s[n..], j, i);
    forall k | n + j < k < n + i ensures White(s[k]) {
      assert s[n..][k - n] == s[k];
    }
    assert QuoteBehind(s, n + j, n + i);
  }

  lemma KeyEnds(t: string)
    requires ParseKey(Scan(t, KEY_STOPS, "", false)).Line?
    ensures var l := ParseKey(Scan(t, KEY_STOPS, "", false)).line;
            CleanEnds(l.key) && l.newsection == "" && (OpensQuote(t) || CleanEnds(l.val))
  {
    hide Scan, Normalize, Trimmed, ParseValue, OpensQuote;
    var r := Scan(t, KEY_STOPS, "", false);
    ScanSuffix(t, KEY_STOPS, "", false);
    NormalizeSound(r.text);
    TrimmedEnds(Normalize(r.text));
    ValueEnds(Normalize(r.text), r.rest[1..]);
    assert "=" + r.rest[1..] == r.rest;
    if OpensQuote(r.rest) {
      QuoteLater(t, |t| - |r.rest|);
    }
  }

  /** A key, a section name and a value that no quotation mark opens never begin or end
      with white space. */
  lemma LineEnds(s: string)
    requires ParseLine(s).Line?
    ensures var l := ParseLine(s).line;
            CleanEnds(l.key) && CleanEnds(l.newsection) && (OpensQuote(s) || CleanEnds(l.val))
  {
    hide Scan, ParseKey, ParseSection, OpensQuote;
    DropLeadingSound(s);
    var t := DropLeading(s);
    if t[0] == '[' {
      SectionEnds(Scan(t[1..], SECTION_STOPS, "", false));
    } else if t[0] !in VALUE_STOPS {
      KeyEnds(t);
      if OpensQuote(t) {
        QuoteLater(s, |s| - |t|);
      }
    }
  }

  /** Nothing that is loaded has white space at its ends; quoted values may. */
  predicate CleanLoaded(sections: Sections, quotes: bool) {
    forall s | s in sections ::
      CleanEnds(s) && forall k | k in sections[s] :: CleanEnds(k) && (quotes || CleanEnds(sections[s][k]))
  }

  lemma {:induction false} LoadEnds(st: Loading, logical: seq<string>, quotes: bool)
    requires InSection(st) && CleanLoaded(st.sections, quotes)
    requires forall l | l in logical :: quotes || !OpensQuote(l)
    ensures CleanLoaded(Load(st, logical).sections, quotes)
    decreases |logical|
  {
    hide ParseLine, CleanEnds, OpensQuote;
    if logical != [] {
      var l := logical[0];
      assert l in logical;
      NothingClean();
      if ParseLine(l).Line? {
        LineEnds(l);
      }
      LoadEnds(Apply(st, ParseLine(l)), logical[1..], quotes);
    }
  }

  lemma NothingClean()
    ensures CleanEnds("")
  {
  }

  lemma {:induction false} LinesWithout(s: string, c: char)
    requires c !in s
    ensures forall l | l in Lines(s) :: c !in l
    decreases |s|
  {
    var n := NewlineAt(s);
    if n < |s| {
      assert forall x | x in s[..n] :: x in s;
      assert forall x | x in s[n + 1..] :: x in s;
      LinesWithout(s[n + 1..], c);
    }
  }

  lemma {:induction false} LogicalWithout(lines: seq<string>, acc: string, isUtf8: string -> bool, c: char)
    requires c !in acc && forall l | l in lines :: c !in l
    ensures forall l | l in Logical(lines, acc, isUtf8) :: c !in l
    decreases |lines|
  {
    if lines != [] {
      var line := lines[0];
      assert line in lines;
      var piece := Classify(line, isUtf8);
      assert piece.Continued? ==> forall x | x in piece.text :: x in line;
      LogicalWithout(lines[1..], if piece.Continued? then acc + piece.text else "", isUtf8, c);
    }
  }

  /** Of any text, every section and every key is loaded without white space at its ends,
      and so is every value if nothing is quoted. */
  lemma LoadedEnds(text: string, isUtf8: string -> bool)
    ensures CleanLoaded(Loaded(text, isUtf8), true)
    ensures '"' !in text ==> CleanLoaded(Loaded(text, isUtf8), false)
  {
    hide Lines, Logical, Load;
    LoadEnds(FRESH, Logical(Lines(text), "", isUtf8), true);
    if '"' !in text {
      LinesWithout(text, '"');
      LogicalWithout(Lines(text), "", isUtf8, '"');
      assert forall l | l in Logical(Lines(text), "", isUtf8) :: !OpensQuote(l);
      LoadEnds(FRESH, Logical(Lines(text), "", isUtf8), false);
    }
  }
}
