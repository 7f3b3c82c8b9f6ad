/** What reading a line can make of it: nothing but characters of the line, and
    no name longer than the one that was printed. */
module ConfShrink {
  import opened Basics
  import opened ConfUtils
  import opened ConfLines
  import opened ConfText
  import opened ConfRoundTrip

  // ----- nothing that is loaded holds a newline or a null -----

  predicate Clean(s: string) {
    '\n' !in s && '\0' !in s
  }

  lemma CleanPart(s: string, t: string)
    requires Clean(s) && forall c | c in t :: c in s
    ensures Clean(t)
  {
  }

  lemma {:induction false} ScanClean(s: string, stops: set<char>, acc: string, escaping: bool)
    requires Clean(s) && Clean(acc)
    ensures var r := Scan(s, stops, acc, escaping); Clean(r.text) && Clean(r.rest)
    decreases |s|
  {
    if s != "" {
      CleanPart(s, s[1..]);
      ScanClean(s[1..], stops, acc, true);
      ScanClean(s[1..], stops, acc + [s[0]], false);
    }
  }

  lemma DropLeadingClean(s: string)
    requires Clean(s)
    ensures Clean(DropLeading(s))
  {
    DropLeadingSound(s);
  }

  lemma TrimClean(s: string, internal: bool)
    requires Clean(s)
    ensures Clean(Trim(s, internal))
  {
    TrimSound(s, internal);
  }

  lemma NormalizeClean(s: string)
    requires Clean(s)
    ensures Clean(Normalize(s)) && ' ' !in Normalize(s)
  {
    TrimClean(s, true);
    var t := Trim(s, true);
    forall i | 0 <= i < |t| ensures Underscored(t)[i] != '\n' && Underscored(t)[i] != '\0' && Underscored(t)[i] != ' ' {
      assert t[i] in t;
    }
  }

  /** The texts of a line, of which the key has no blank. */
  predicate CleanLine(l: ConfLine) {
    Clean(l.key) && ' ' !in l.key && Clean(l.val) && Clean(l.newsection)
  }

  predicate CleanResult(r: LineResult) {
    r.Line? ==> CleanLine(r.line)
  }

  lemma ValueClean(key: string, s: string)
    requires Clean(key) && ' ' !in key && Clean(s)
    ensures CleanResult(ParseValue(key, s))
  {
    var t := DropLeading(s);
    DropLeadingClean(s);
    if t != "" {
      ScanClean(t[1..], QUOTE_STOPS, "", false);
      ScanClean(t, VALUE_STOPS, "", false);
      TrimClean(Scan(t, VALUE_STOPS, "", false).text, false);
    }
  }

  lemma KeyClean(name: Scanned)
    requires Clean(name.text) && Clean(name.rest)
    ensures CleanResult(ParseKey(name))
  {
    NormalizeClean(name.text);
    if name.rest != "" {
      ValueClean(Normalize(name.text), name.rest[1..]);
    }
  }

  lemma LineClean(s: string)
    requires Clean(s)
    ensures CleanResult(ParseLine(s))
  {
    var t := DropLeading(s);
    DropLeadingClean(s);
    if t != "" {
      ScanClean(t[1..], SECTION_STOPS, "", false);
      TrimClean(Scan(t[1..], SECTION_STOPS, "", false).text, true);
      ScanClean(t, KEY_STOPS, "", false);
      KeyClean(Scan(t, KEY_STOPS, "", false));
    }
  }

  predicate CleanTable(lines: map<string, string>) {
    forall k | k in lines :: Clean(k) && ' ' !in k && Clean(lines[k])
  }

  predicate CleanSections(sections: Sections) {
    forall s | s in sections :: Clean(s) && CleanTable(sections[s])
  }

  lemma ApplyClean(st: Loading, r: LineResult)
    requires InSection(st) && CleanSections(st.sections) && CleanResult(r)
    ensures CleanSections(Apply(st, r).sections)
  {
  }

  lemma {:induction false} LoadClean(st: Loading, logical: seq<string>)
    requires InSection(st) && CleanSections(st.sections) && forall l | l in logical :: Clean(l)
    ensures CleanSections(Load(st, logical).sections)
    decreases |logical|
  {
    if logical != [] {
      LineClean(logical[0]);
      ApplyClean(st, ParseLine(logical[0]));
      LoadClean(Apply(st, ParseLine(logical[0])), logical[1..]);
    }
  }

  lemma {:induction false} LinesWithoutNewline(s: string)
    ensures forall l | l in Lines(s) :: '\n' !in l
    decreases |s|
  {
    var n := NewlineAt(s);
    if n < |s| {
      LinesWithoutNewline(s[n + 1..]);
    }
  }

  lemma {:induction false} LogicalClean(lines: seq<string>, acc: string, isUtf8: string -> bool)
    requires Clean(acc) && forall l | l in lines :: '\n' !in l
    ensures forall l | l in Logical(lines, acc, isUtf8) :: Clean(l)
    decreases |lines|
  {
    if lines != [] {
      match Classify(lines[0], isUtf8) {
        case Dropped(_) => LogicalClean(lines[1..], "", isUtf8);
        case Continued(text) =>
          CleanPart(lines[0], text);
          LogicalClean(lines[1..], acc + text, isUtf8);
        case Ended(text) => LogicalClean(lines[1..], "", isUtf8);
      }
    }
  }

  /** Whatever the text, what it loads is clean. */
  lemma LoadedClean(text: string, isUtf8: string -> bool)
    ensures CleanSections(Loaded(text, isUtf8))
  {
    LinesWithoutNewline(text);
    LogicalClean(Lines(text), "", isUtf8);
    LoadClean(FRESH, Logical(Lines(text), "", isUtf8));
  }

  // ----- no name grows -----

  lemma {:induction false} CollapseSameLength(s: string, afterSpace: bool)
    requires |Collapse(s, afterSpace)| == |s|
    ensures Collapse(s, afterSpace) == s
  {
    if s != "" {
      CollapseSameLength(s[1..], IsSpace(s[0]));
      assert s == [s[0]] + s[1..];
    }
  }

  lemma StrippedSameLength(s: string)
    requires |Stripped(s)| == |s|
    ensures Stripped(s) == s
  {
    UntilExact(s, '\0');
    DropLeadingSound(Until(s, '\0'));
  }

  /** Trimming what it shortens by nothing leaves it as it is. */
  lemma TrimSameLength(s: string)
    requires |Trim(s, true)| == |s|
    ensures Trim(s, true) == s && Trimmed(s) && Compact(s)
  {
    StrippedSameLength(s);
    CollapseSameLength(s, false);
    TrimFixed(s, true);
  }

  lemma TrimBlank(s: string)
    requires s != "" && s[|s| - 1] == ' '
    ensures |Trim(s, true)| < |s|
  {
    if |Trim(s, true)| == |s| {
      TrimSameLength(s);
    }
    TrimSound(s, true);
  }

  lemma StrippedLast(s: string)
    requires s != "" && IsSpace(s[|s| - 1]) && |Stripped(s)| == |s| - 1
    ensures Stripped(s) == s[..|s| - 1]
  {
    hide Until, DropLeading, DropTrailing, IsSpace;
    UntilExact(s, '\0');
    var c := Until(s, '\0');
    DropLeadingSound(c);
    var l := DropLeading(c);
    DropTrailingSound(l);
    var t := DropTrailing(l);
    assert l != "" ==> l[|l| - 1] == c[|c| - 1];
    if |c| < |s| {
      assert l == c[0..] == c && t == l;
    } else if |l| == |s| {
      assert l == c[0..] == s;
    } else {
      assert t == l == "";
    }
  }

  lemma StrippedPadded(k: string)
    requires |Stripped(k + " ")| == |k|
    ensures Stripped(k + " ") == k
  {
    hide Stripped;
    var s := k + " ";
    StrippedLast(s);
    assert s[..|s| - 1] == k;
  }

  /** Trimming a name with a blank behind it takes away the blank only if the name
      was trimmed. */
  lemma TrimPaddedSameLength(k: string)
    requires |Trim(k + " ", true)| == |k|
    ensures Trimmed(k) && Compact(k) && Trim(k + " ", true) == k
  {
    var s := k + " ";
    var t := Stripped(s);
    StrippedSound(s);
    if |t| == |s| {
      StrippedSameLength(s);
    }
    StrippedPadded(k);
    CollapseSameLength(k, false);
    CollapseCompact(k, false);
  }

  /** A printed section line opens no longer section, and one as long only if it
      is the section itself. */
  lemma SectionLineShrinks(s: string)
    ensures var r := ParseLine(SectionLine(s));
            r.Line? ==>
              && r.line.newsection != "" && |r.line.newsection| <= |s|
              && (|r.line.newsection| == |s| ==> r.line.newsection == s && SectionNameOk(s))
  {
    var r := Scan(s + "]", SECTION_STOPS, "", false);
    SectionLineParsed(s);
    TrimSound(r.text, true);
    if r.rest != "" && |Trim(r.text, true)| == |s| {
      ScanLossless(s + "]", SECTION_STOPS, "");
      assert r.text == "" + (s + "]")[..|s|] == s;
      TrimSameLength(s);
    }
  }

  /** The scan of a printed name: it ends at the printed equals sign, with the
      blank in front of it, or within the name. */
  lemma ScanOfName(k: string, b: string)
    ensures var r := Scan(k + " =" + b, KEY_STOPS, "", false);
            && r.rest != ""
            && (|r.text| <= |k| - 1
                || (|r.text| <= |k| + 1 && r.text != "" && r.text[|r.text| - 1] == ' ' && |r.rest| == |b| + 1))
  {
    var s := k + " =" + b;
    var r := Scan(s, KEY_STOPS, "", false);
    ScanSuffix(s, KEY_STOPS, "", false);
    ScanStopsAtEquals(k, b, "", false);
    assert s[|k|] == ' ';
  }

  lemma NormalizeShrinks(text: string)
    ensures |Normalize(text)| <= |text|
    ensures text != "" && text[|text| - 1] == ' ' ==> |Normalize(text)| < |text|
  {
    TrimSound(text, true);
    if text != "" && text[|text| - 1] == ' ' {
      TrimBlank(text);
    }
  }

  lemma NormalizedPadded(k: string)
    requires |Normalize(k + " ")| == |k|
    ensures Trimmed(k) && Compact(k) && Normalize(k + " ") == Underscored(k)
  {
    hide Trim, Trimmed, Compact;
    TrimPaddedSameLength(k);
  }

  lemma KeyOfName(k: string, b: string)
    ensures var key := Normalize(Scan(k + " =" + b, KEY_STOPS, "", false).text);
            && |key| <= |k|
            && (|key| == |k| ==>
                  key == Underscored(k) && Trimmed(k) && Compact(k) && Free(k, KEY_STOPS + {'\\'}))
  {
    hide Normalize, Scan, Underscored, Trimmed, Compact, Free;
    var s := k + " =" + b;
    var r := Scan(s, KEY_STOPS, "", false);
    ScanOfName(k, b);
    NormalizeShrinks(r.text);
    if |Normalize(r.text)| == |k| {
      ScanLossless(s, KEY_STOPS, "");
      assert s[..|s| - |r.rest|] == k + " " by {
        assert |s| - |r.rest| == |k| + 1;
      }
      assert r.text == "" + (k + " ") == k + " ";
      FreePrefix(k, " ", KEY_STOPS + {'\\'});
      NormalizedPadded(k);
    }
  }

  lemma FreePrefix(a: string, b: string, chars: set<char>)
    requires Free(a + b, chars)
    ensures Free(a, chars)
  {
    forall c | c in a ensures c !in chars {
      assert c in a + b;
    }
  }

  lemma DropLeadingPadded(k: string, rest: string)
    ensures DropLeading(k) != "" ==> DropLeading(k + rest) == DropLeading(k) + rest
    ensures DropLeading(k) == "" ==> DropLeading(k + rest) == DropLeading(rest)
  {
    if k == "" {
      assert k + rest == rest;
    } else {
      assert (k + rest)[1..] == k[1..] + rest;
      if IsSpace(k[0]) {
        DropLeadingPadded(k[1..], rest);
      }
    }
  }

  /** What is left of a printed line behind the white space in front of the name. */
  lemma KeyLineStart(k: string, v: string)
    ensures DropLeading(KeyLine(k, v)) == DropLeading(k) + " =" + QuotedPart(v)
         || (DropLeading(k) == "" && DropLeading(KeyLine(k, v)) == "=" + QuotedPart(v))
  {
    var tail := " =" + QuotedPart(v);
    assert KeyLine(k, v)[1..] == k + tail;
    DropLeadingPadded(k, tail);
    assert tail[1..] == "=" + QuotedPart(v);
    if DropLeading(k) == "" {
      assert DropLeading(tail) == "=" + QuotedPart(v);
    } else {
      assert DropLeading(k) + tail == DropLeading(k) + " =" + QuotedPart(v);
    }
  }

  /** A line defines a key of its section. */
  predicate DefinesKey(r: LineResult) {
    r.Line? && r.line.newsection == "" && r.line.key != ""
  }

  lemma NoNameNoKey(b: string)
    ensures !DefinesKey(ParseKey(Scan("=" + b, KEY_STOPS, "", false)))
  {
  }

  lemma ParsedKey(name: Scanned)
    ensures DefinesKey(ParseKey(name)) ==> ParseKey(name).line.key == Normalize(name.text)
  {
  }

  /** A printed key line defines no longer key, and one as long only if the name
      is read in full: then it is the name with its blanks replaced. */
  lemma KeyLineShrinks(k: string, v: string)
    ensures var r := ParseLine(KeyLine(k, v));
            DefinesKey(r) ==>
              && |r.line.key| <= |k|
              && (|r.line.key| == |k| ==> NameOk(k) && r.line.key == Underscored(k))
  {
    var n := DropLeading(k);
    DropLeadingSound(k);
    KeyLineStart(k, v);
    var t := DropLeading(KeyLine(k, v));
    if t == "=" + QuotedPart(v) {
      NoNameNoKey(QuotedPart(v));
    } else {
      KeyOfName(n, QuotedPart(v));
      ParsedKey(Scan(t, KEY_STOPS, "", false));
      if DefinesKey(ParseLine(KeyLine(k, v))) {
        assert t[0] != '[' && t[0] !in VALUE_STOPS && t[0] != ']';
      }
      if |n| == |k| {
        assert n == k;
      }
    }
  }
}
