/** Which lines of a configuration file are accepted, in terms of how they are written. */
module ConfGrammar {
  import opened Basics
  import opened ConfBlanks
  import opened ConfLines
  import opened ConfRoundTrip
  import opened ConfText

  predicate AllWhite(s: string) {
    forall c | c in s :: White(c)
  }

  /** The raw text stands for this text: some characters have a backslash in front of
      them, and each backslash and each of these special characters has one. */
  predicate Spells(raw: string, text: string, special: set<char>) {
    if raw == "" then text == ""
    else if raw[0] == '\\' then |raw| > 1 && text != "" && text[0] == raw[1] && Spells(raw[2..], text[1..], special)
    else raw[0] !in special && text != "" && text[0] == raw[0] && Spells(raw[1..], text[1..], special)
  }

  /** Nothing, or a comment. */
  predicate Comment(s: string) {
    s == "" || s[0] == '#' || s[0] == ';'
  }

  /** White space, and nothing or a comment. */
  ghost predicate Over(s: string) {
    exists n :: 0 <= n <= |s| && AllWhite(s[..n]) && Comment(s[n..])
  }

  // ----- the forms of a line -----

  ghost predicate IsComment(s: string, n: nat) {
    n < |s| && AllWhite(s[..n]) && Comment(s[n..])
  }

  ghost predicate IsSection(s: string, section: string, pre: string, raw: string, name: string, tail: string) {
    && s == pre + ("[" + (raw + ("]" + tail))) && AllWhite(pre) && Over(tail)
    && Spells(raw, name, {']', '#', ';'}) && section == Trim(name, true) && section != ""
  }

  ghost predicate IsKey(s: string, key: string, val: string, pre: string, raw: string, name: string, rest: string) {
    && s == pre + (raw + ("=" + rest)) && AllWhite(pre)
    && raw != "" && !White(raw[0]) && raw[0] !in "[]#;"
    && Spells(raw, name, {'=', '#', ';'}) && key == Normalize(name) && key != ""
    && IsValue(rest, val)
  }

  ghost predicate IsValue(s: string, val: string) {
    || (Over(s) && val == "")
    || (exists pre, raw, tail :: IsQuoted(s, val, pre, raw, tail))
    || (exists pre, raw, text, tail :: IsBare(s, val, pre, raw, text, tail))
  }

  ghost predicate IsQuoted(s: string, val: string, pre: string, raw: string, tail: string) {
    s == pre + ("\"" + (raw + ("\"" + tail))) && AllWhite(pre) && Spells(raw, val, {'"'}) && Over(tail)
  }

  ghost predicate IsBare(s: string, val: string, pre: string, raw: string, text: string, tail: string) {
    && s == pre + (raw + tail) && AllWhite(pre) && Comment(tail)
    && raw != "" && !White(raw[0]) && raw[0] !in "\"#;"
    && Spells(raw, text, {'#', ';'}) && val == Trim(text, false)
  }

  /** White space, and then a comment, a section name in brackets, or a key and a value. */
  ghost predicate Says(s: string, line: ConfLine) {
    || (line == ConfLine("", "", "") && exists n :: IsComment(s, n))
    || (line.key == "" && line.val == "" && exists pre, raw, name, tail ::
          IsSection(s, line.newsection, pre, raw, name, tail))
    || (line.newsection == "" && exists pre, raw, name, rest :: IsKey(s, line.key, line.val, pre, raw, name, rest))
  }

  // ----- scans -----

  lemma {:induction false} ScanWritten(raw: string, text: string, tail: string, stops: set<char>, acc: string)
    requires '\\' !in stops && Spells(raw, text, stops)
    ensures Scan(raw + tail, stops, acc, false) == Scan(tail, stops, acc + text, false)
    decreases |raw|
  {
    if raw == "" {
      assert raw + tail == tail && acc + text == acc;
    } else if raw[0] == '\\' {
      var s := raw + tail;
      assert s[0] == raw[0] && s[1..][0] == raw[1] && s[1..][1..] == raw[2..] + tail;
      assert acc + [text[0]] + text[1..] == acc + text;
      ScanWritten(raw[2..], text[1..], tail, stops, acc + [text[0]]);
    } else {
      assert (raw + tail)[0] == raw[0] && (raw + tail)[1..] == raw[1..] + tail;
      assert acc + [text[0]] + text[1..] == acc + text;
      ScanWritten(raw[1..], text[1..], tail, stops, acc + [text[0]]);
    }
  }

  lemma SpellsMore(raw: string, text: string, c: char, special: set<char>)
    requires Spells(raw, text, special)
    ensures Spells(['\\', c] + raw, [c] + text, special)
    ensures c != '\\' && c !in special ==> Spells([c] + raw, [c] + text, special)
  {
    assert (['\\', c] + raw)[2..] == raw && ([c] + raw)[1..] == raw && ([c] + text)[1..] == text;
  }

  lemma ScanStep(s: string, stops: set<char>, acc: string)
    requires s != "" && s[0] !in stops && '\\' !in stops
    ensures s[0] != '\\' ==> Scan(s, stops, acc, false) == Scan(s[1..], stops, acc + [s[0]], false)
    ensures s[0] == '\\' ==>
              if |s| == 1 then Scan(s, stops, acc, false).dangling
              else Scan(s, stops, acc, false) == Scan(s[2..], stops, acc + [s[1]], false)
  {
    if |s| > 1 {
      assert s[1..][1..] == s[2..];
    }
  }

  lemma Appended(acc: string, c: char, text: string, pre: string, raw: string, rest: string)
    ensures acc + [c] + text == acc + ([c] + text)
    ensures pre + raw + rest == pre + (raw + rest)
  {
  }

  /** What a scan collects is written in front of what it leaves. */
  lemma {:induction false} ScanReads(s: string, stops: set<char>, acc: string) returns (raw: string, text: string)
    requires '\\' !in stops && !Scan(s, stops, acc, false).dangling
    ensures var r := Scan(s, stops, acc, false);
            s == raw + r.rest && r.text == acc + text && Spells(raw, text, stops)
    decreases |s|
  {
    if s == "" || s[0] in stops {
      raw, text := "", "";
      assert acc + "" == acc && "" + s == s;
    } else {
      hide Scan, Spells;
      ScanStep(s, stops, acc);
      var n := if s[0] == '\\' then 2 else 1;
      var c, pre := s[n - 1], s[..n];
      var rest := Scan(s, stops, acc, false).rest;
      var a, b := ScanReads(s[n..], stops, acc + [c]);
      SpellsMore(a, b, c, stops);
      raw, text := pre + a, [c] + b;
      Appended(acc, c, b, pre, a, rest);
      assert s == pre + s[n..];
    }
  }

  // ----- white space -----

  lemma {:induction false} LeadingWritten(pre: string, s: string)
    requires AllWhite(pre) && (s == "" || !White(s[0]))
    ensures DropLeading(pre + s) == s
  {
    if pre == "" {
      assert pre + s == s;
    } else {
      assert pre[0] in pre && (pre + s)[1..] == pre[1..] + s;
      LeadingWritten(pre[1..], s);
    }
  }

  /** The white space in front, and the rest. */
  lemma LeadingReads(s: string) returns (pre: string)
    ensures AllWhite(pre) && s == pre + DropLeading(s)
    ensures DropLeading(s) != "" ==> !White(DropLeading(s)[0])
  {
    hide DropLeading;
    DropLeadingSound(s);
    var n := |s| - |DropLeading(s)|;
    pre := s[..n];
    forall c | c in pre ensures White(c) {
      var i :| 0 <= i < n && pre[i] == c;
      assert IsSpace(s[i]);
    }
  }

  lemma OverExact(s: string)
    ensures Over(s) <==> Comment(DropLeading(s))
  {
    hide DropLeading;
    var pre := LeadingReads(s);
    assert s[..|pre|] == pre && s[|pre|..] == DropLeading(s);
    if Over(s) {
      var n :| 0 <= n <= |s| && AllWhite(s[..n]) && Comment(s[n..]);
      LeadingWritten(s[..n], s[n..]);
      assert s[..n] + s[n..] == s;
    }
  }

  lemma TailExact(line: ConfLine, s: string)
    ensures ParseTail(line, s) == if Over(s) then Line(line) else Bad(UnexpectedCharacter)
  {
    hide DropLeading, Over;
    OverExact(s);
  }

  // ----- values -----

  lemma QuotedWritten(key: string, s: string, val: string, pre: string, raw: string, tail: string)
    requires IsQuoted(s, val, pre, raw, tail)
    ensures ParseValue(key, s) == Line(ConfLine(key, val, ""))
  {
    hide Scan, Spells, DropLeading, ParseTail, Over, AllWhite;
    var t := "\"" + (raw + ("\"" + tail));
    LeadingWritten(pre, t);
    assert t[1..] == raw + ("\"" + tail);
    ScanWritten(raw, val, "\"" + tail, QUOTE_STOPS, "");
    ScanStops("\"" + tail, QUOTE_STOPS, val);
    assert "" + val == val && ("\"" + tail)[1..] == tail;
    TailExact(ConfLine(key, val, ""), tail);
  }

  lemma BareWritten(key: string, s: string, val: string, pre: string, raw: string, text: string, tail: string)
    requires IsBare(s, val, pre, raw, text, tail)
    ensures ParseValue(key, s) == Line(ConfLine(key, val, ""))
  {
    hide Scan, Spells, DropLeading, Trim, AllWhite;
    var t := raw + tail;
    LeadingWritten(pre, t);
    assert t[0] == raw[0];
    ScanWritten(raw, text, tail, VALUE_STOPS, "");
    assert "" + text == text;
    if tail == "" {
      ScanNothing(VALUE_STOPS, text);
    } else {
      ScanStops(tail, VALUE_STOPS, text);
    }
  }

  lemma ScanNothing(stops: set<char>, acc: string)
    ensures Scan("", stops, acc, false) == Scanned(acc, "", false)
  {
  }

  lemma {:induction false} StopNotDangling(s: string, stops: set<char>, acc: string, escaping: bool)
    ensures Scan(s, stops, acc, escaping).rest != "" ==> !Scan(s, stops, acc, escaping).dangling
    decreases |s|
  {
    if s != "" {
      StopNotDangling(s[1..], stops, acc + [s[0]], false);
      StopNotDangling(s[1..], stops, acc, true);
    }
  }

  lemma QuotedReads(key: string, s: string, t: string, pre: string)
    requires AllWhite(pre) && s == pre + t && t != "" && t[0] == '"'
    requires ParseQuoted(key, Scan(t[1..], QUOTE_STOPS, "", false)).Line?
    ensures var val := ParseQuoted(key, Scan(t[1..], QUOTE_STOPS, "", false)).line.val;
            exists raw, tail :: IsQuoted(s, val, pre, raw, tail)
  {
    hide Scan, Spells, ParseTail, Over, AllWhite;
    var r := Scan(t[1..], QUOTE_STOPS, "", false);
    StopNotDangling(t[1..], QUOTE_STOPS, "", false);
    var raw, text := ScanReads(t[1..], QUOTE_STOPS, "");
    assert "" + text == text;
    var tail := r.rest[1..];
    TailExact(ConfLine(key, r.text, ""), tail);
    assert r.rest == "\"" + tail && t == "\"" + t[1..];
    assert IsQuoted(s, text, pre, raw, tail);
  }

  lemma BareReads(key: string, s: string, t: string, pre: string)
    requires AllWhite(pre) && s == pre + t && t != "" && !White(t[0]) && t[0] !in "\"#;"
    requires ParseBare(key, Scan(t, VALUE_STOPS, "", false)).Line?
    ensures var val := ParseBare(key, Scan(t, VALUE_STOPS, "", false)).line.val;
            exists raw, text, tail :: IsBare(s, val, pre, raw, text, tail)
  {
    hide Scan, Spells, Trim, AllWhite;
    var r := Scan(t, VALUE_STOPS, "", false);
    StopNotDangling(t, VALUE_STOPS, "", false);
    var raw, text := ScanReads(t, VALUE_STOPS, "");
    assert "" + text == text;
    assert "" + r.rest == r.rest;
    assert t[0] == raw[0];
    assert IsBare(s, Trim(text, false), pre, raw, text, r.rest);
  }

  lemma ValueExact(key: string, s: string, val: string)
    ensures ParseValue(key, s) == Line(ConfLine(key, val, "")) <==> IsValue(s, val)
  {
    hide Scan, Spells, DropLeading, ParseQuoted, ParseBare, Over, IsQuoted, IsBare;
    OverExact(s);
    var pre := LeadingReads(s);
    var t := DropLeading(s);
    if pre, raw, tail :| IsQuoted(s, val, pre, raw, tail) {
      QuotedWritten(key, s, val, pre, raw, tail);
    }
    if pre, raw, text, tail :| IsBare(s, val, pre, raw, text, tail) {
      BareWritten(key, s, val, pre, raw, text, tail);
    }
    if ParseValue(key, s) == Line(ConfLine(key, val, "")) && !Comment(t) {
      if t[0] == '"' {
        QuotedReads(key, s, t, pre);
      } else {
        BareReads(key, s, t, pre);
      }
    }
  }

  // ----- sections and keys -----

  lemma SectionWritten(s: string, section: string, pre: string, raw: string, name: string, tail: string)
    requires IsSection(s, section, pre, raw, name, tail)
    ensures ParseLine(s) == Line(ConfLine("", "", section))
  {
    hide Scan, Spells, DropLeading, ParseTail, Over, AllWhite, Trim, ParseKey;
    var t := "[" + (raw + ("]" + tail));
    LeadingWritten(pre, t);
    assert t[1..] == raw + ("]" + tail);
    ScanWritten(raw, name, "]" + tail, SECTION_STOPS, "");
    ScanStops("]" + tail, SECTION_STOPS, name);
    assert "" + name == name && ("]" + tail)[1..] == tail;
    TailExact(ConfLine("", "", section), tail);
  }

  lemma SectionReads(s: string, t: string, pre: string)
    requires AllWhite(pre) && s == pre + t && t != "" && t[0] == '['
    requires ParseSection(Scan(t[1..], SECTION_STOPS, "", false)).Line?
    ensures var line := ParseSection(Scan(t[1..], SECTION_STOPS, "", false)).line;
            && line.key == "" && line.val == ""
            && exists raw, name, tail :: IsSection(s, line.newsection, pre, raw, name, tail)
  {
    hide Scan, Spells, ParseTail, Over, AllWhite, Trim;
    var r := Scan(t[1..], SECTION_STOPS, "", false);
    StopNotDangling(t[1..], SECTION_STOPS, "", false);
    var raw, name := ScanReads(t[1..], SECTION_STOPS, "");
    assert "" + name == name;
    var tail, section := r.rest[1..], Trim(name, true);
    TailExact(ConfLine("", "", section), tail);
    assert r.rest == "]" + tail && t == "[" + t[1..];
    assert IsSection(s, section, pre, raw, name, tail);
  }

  lemma KeyWritten(s: string, key: string, val: string, pre: string, raw: string, name: string, rest: string)
    requires IsKey(s, key, val, pre, raw, name, rest)
    ensures ParseLine(s) == Line(ConfLine(key, val, ""))
  {
    hide Scan, Spells, DropLeading, ParseValue, IsValue, AllWhite, Normalize, ParseSection;
    var t := raw + ("=" + rest);
    LeadingWritten(pre, t);
    assert t[0] == raw[0];
    ScanWritten(raw, name, "=" + rest, KEY_STOPS, "");
    ScanStops("=" + rest, KEY_STOPS, name);
    assert "" + name == name && ("=" + rest)[1..] == rest;
    ValueExact(key, rest, val);
  }

  lemma ValueLine(key: string, s: string)
    requires ParseValue(key, s).Line?
    ensures ParseValue(key, s).line == ConfLine(key, ParseValue(key, s).line.val, "")
  {
    hide Scan, Trim, DropLeading;
  }

  lemma KeyReads(s: string, t: string, pre: string)
    requires AllWhite(pre) && s == pre + t && t != "" && !White(t[0]) && t[0] !in "[]#;"
    requires ParseKey(Scan(t, KEY_STOPS, "", false)).Line?
    ensures var line := ParseKey(Scan(t, KEY_STOPS, "", false)).line;
            && line.newsection == ""
            && exists raw, name, rest :: IsKey(s, line.key, line.val, pre, raw, name, rest)
  {
    hide Scan, Spells, ParseValue, IsValue, AllWhite, Normalize;
    var r := Scan(t, KEY_STOPS, "", false);
    StopNotDangling(t, KEY_STOPS, "", false);
    var raw, name := ScanReads(t, KEY_STOPS, "");
    assert "" + name == name && "" + r.rest == r.rest;
    var rest, key := r.rest[1..], Normalize(name);
    ValueLine(key, rest);
    var val := ParseValue(key, rest).line.val;
    ValueExact(key, rest, val);
    assert r.rest == "=" + rest;
    NoName(raw, name);
    assert t[0] == raw[0];
    assert IsKey(s, key, val, pre, raw, name, rest);
  }

  lemma NoName(raw: string, name: string)
    requires Spells(raw, name, KEY_STOPS) && Normalize(name) != ""
    ensures raw != ""
  {
    NormalizeSound(name);
  }

  lemma CommentWritten(s: string, n: nat)
    requires IsComment(s, n)
    ensures ParseLine(s) == Line(ConfLine("", "", ""))
  {
    hide DropLeading, AllWhite, Scan, ParseSection, ParseKey;
    assert s[..n] + s[n..] == s;
    LeadingWritten(s[..n], s[n..]);
  }

  lemma LineReads(s: string)
    requires ParseLine(s).Line?
    ensures Says(s, ParseLine(s).line)
  {
    hide Scan, Spells, DropLeading, AllWhite, ParseSection, ParseKey, IsSection, IsKey;
    var pre := LeadingReads(s);
    var t := DropLeading(s);
    if t[0] == '[' {
      SectionReads(s, t, pre);
    } else if t[0] in VALUE_STOPS {
      assert s[..|pre|] == pre && s[|pre|..] == t;
      assert IsComment(s, |pre|);
    } else {
      KeyReads(s, t, pre);
    }
  }

  /** A line is accepted if and only if it is white space and a comment, or a section
      name in brackets, or a key, an equals sign and a value, and it loads as what it
      says.  A value is nothing, or quoted, or bare up to a comment or the end. */
  lemma LineExact(s: string, line: ConfLine)
    ensures ParseLine(s) == Line(line) <==> Says(s, line)
  {
    hide ParseLine, IsComment, IsSection, IsKey;
    if ParseLine(s) == Line(line) {
      LineReads(s);
    }
    if n: nat :| IsComment(s, n) {
      CommentWritten(s, n);
    }
    if line.key == "" && line.val == "" {
      if pre, raw, name, tail :| IsSection(s, line.newsection, pre, raw, name, tail) {
        SectionWritten(s, line.newsection, pre, raw, name, tail);
      }
    }
    if line.newsection == "" {
      if pre, raw, name, rest :| IsKey(s, line.key, line.val, pre, raw, name, rest) {
        KeyWritten(s, line.key, line.val, pre, raw, name, rest);
      }
    }
  }

  /** A line of white space alone is passed over in silence, and only such a line. */
  lemma BlankExact(s: string)
    ensures ParseLine(s) == Blank <==> AllWhite(s)
  {
    hide DropLeading, Scan, Trim;
    var pre := LeadingReads(s);
    if AllWhite(s) {
      LeadingWritten(s, "");
      assert s + "" == s;
    }
    if DropLeading(s) == "" {
      assert pre + "" == pre;
    }
  }

  // ----- names and bare values -----

  /** White space around a text is trimmed, and what is inside stays. */
  lemma TrimWritten(left: string, s: string, right: string)
    requires AllWhite(left) && AllWhite(right) && '\0' !in s && CleanEnds(s)
    ensures Trim(left + s + right, false) == s
  {
    hide Until, DropLeading, DropTrailing;
    var t := left + s + right;
    assert '\0' !in t;
    UntilExact(t, '\0');
    if s == "" {
      LeadingWritten(t, "");
      assert t + "" == t;
      NothingTrailing();
    } else {
      assert t == left + (s + right) && (s + right)[0] == s[0];
      LeadingWritten(left, s + right);
      TrailingWritten(s, right);
    }
  }

  lemma {:induction false} TrailingWritten(s: string, right: string)
    requires AllWhite(right) && s != "" && !White(s[|s| - 1])
    ensures DropTrailing(s + right) == s
    decreases |right|
  {
    if right == "" {
      assert s + right == s;
    } else {
      var n := |right| - 1;
      assert right[n] in right && (s + right)[..|s + right| - 1] == s + right[..n];
      TrailingWritten(s, right[..n]);
    }
  }

  lemma CollapseCons(c: char, s: string, after: bool)
    ensures Collapse([c] + s, after)
         == if White(c) then (if after then "" else [c]) + Collapse(s, true) else [c] + Collapse(s, false)
  {
    assert ([c] + s)[1..] == s;
  }

  lemma CollapseRun(w: char, x: char, b: string, after: bool)
    requires White(w) && White(x)
    ensures Collapse([w] + ([x] + b), after) == Collapse([w] + b, after)
  {
    hide Collapse;
    CollapseCons(w, [x] + b, after);
    CollapseCons(x, b, true);
    CollapseCons(w, b, after);
    assert "" + Collapse(b, true) == Collapse(b, true);
  }

  /** In a name, white space behind white space goes as well. */
  lemma {:induction false} CollapseWritten(a: string, s: string, t: string, after: bool)
    requires forall after :: Collapse(s, after) == Collapse(t, after)
    ensures Collapse(a + s, after) == Collapse(a + t, after)
    decreases |a|
  {
    hide Collapse;
    if a == "" {
      assert a + s == s && a + t == t;
    } else {
      CollapseWritten(a[1..], s, t, White(a[0]));
      CollapseCons(a[0], a[1..] + s, after);
      CollapseCons(a[0], a[1..] + t, after);
      assert a + s == [a[0]] + (a[1..] + s) && a + t == [a[0]] + (a[1..] + t);
    }
  }

  lemma NameTrimmed(left: string, s: string, right: string)
    requires AllWhite(left) && AllWhite(right) && '\0' !in s && CleanEnds(s)
    ensures Trim(left + s + right, true) == Collapse(s, false)
  {
    hide Until, DropLeading, DropTrailing, Collapse;
    TrimWritten(left, s, right);
  }

  /** A name with white space around it and single characters of it inside is taken
      as it is; a key gets underscores for its blanks. */
  lemma NameWritten(left: string, s: string, right: string)
    requires AllWhite(left) && AllWhite(right) && '\0' !in s && CleanEnds(s)
    requires forall i | 0 <= i < |s| - 1 :: !(White(s[i]) && White(s[i + 1]))
    ensures Trim(left + s + right, true) == s
    ensures var key := Normalize(left + s + right);
            |key| == |s| && forall i | 0 <= i < |s| :: key[i] == if s[i] == ' ' then '_' else s[i]
  {
    hide Trim, Collapse;
    NameTrimmed(left, s, right);
    CollapseFixed(s, false);
  }

  /** Of more white space inside a name, the first character stays. */
  lemma NameShrinks(left: string, a: string, w: char, x: char, b: string, right: string)
    requires AllWhite(left) && AllWhite(right) && '\0' !in a + b && White(w) && White(x)
    requires a != "" && b != "" && !White(a[0]) && !White(b[|b| - 1])
    ensures Trim(left + (a + ([w] + ([x] + b))) + right, true) == Trim(left + (a + ([w] + b)) + right, true)
  {
    hide Trim, Collapse;
    var s, t := a + ([w] + ([x] + b)), a + ([w] + b);
    assert s[0] == a[0] == t[0] && s[|s| - 1] == b[|b| - 1] == t[|t| - 1];
    assert '\0' !in a && '\0' !in b by {
      assert forall c | c in a :: c in a + b;
      assert forall c | c in b :: c in a + b;
    }
    NameTrimmed(left, s, right);
    NameTrimmed(left, t, right);
    forall after ensures Collapse([w] + ([x] + b), after) == Collapse([w] + b, after) {
      CollapseRun(w, x, b, after);
    }
    CollapseWritten(a, [w] + ([x] + b), [w] + b, false);
  }
}
