/** Which lines of a configuration file are refused, and with which error. */
module ConfFaults {
  import opened ConfBlanks
  import opened ConfGrammar
  import opened ConfLines
  import opened ConfRoundTrip
  import opened ConfText

  /** A raw text that goes on to the end of the line, and perhaps ends with a backslash
      that stands for nothing. */
  ghost predicate GoesOn(raw: string, special: set<char>) {
    exists text :: Spells(raw, text, special) || Dangles(raw, text, special)
  }

  predicate Dangles(raw: string, text: string, special: set<char>) {
    raw != "" && raw[|raw| - 1] == '\\' && Spells(raw[..|raw| - 1], text, special)
  }

  // ----- the errors -----

  /** A section name, and what stops it. */
  ghost predicate NameStops(s: string, raw: string, name: string, rest: string, special: set<char>) {
    s == raw + rest && rest != "" && rest[0] in special && Spells(raw, name, special)
  }

  /** What is wrong with the text behind an opening bracket. */
  ghost predicate SectionFault(s: string, e: ParseError) {
    || (e == NoClosingBracket && GoesOn(s, {']', '#', ';'}))
    || (exists raw, name, rest :: NameStops(s, raw, name, rest, {']', '#', ';'}) && BadSection(name, rest, e))
  }

  ghost predicate BadSection(name: string, rest: string, e: ParseError) {
    if rest == "" then false
    else if rest[0] != ']' then e == CommentInSectionName
    else if Trim(name, true) == "" then e == NoSectionName
    else e == UnexpectedCharacter && !Over(rest[1..])
  }

  /** What is wrong with the text of a key and a value. */
  ghost predicate KeyFault(s: string, e: ParseError) {
    || (e == NoEquals && GoesOn(s, {'=', '#', ';'}))
    || (exists raw, name, rest :: NameStops(s, raw, name, rest, {'=', '#', ';'}) && BadKey(name, rest, e))
  }

  ghost predicate BadKey(name: string, rest: string, e: ParseError) {
    if rest == "" then false
    else if rest[0] != '=' then e == CommentInKey
    else if Normalize(name) == "" then e == NoKeyName
    else exists pre, t :: IsRest(rest[1..], pre, t) && ValueFault(t, e)
  }

  /** The text behind some white space. */
  predicate IsRest(s: string, pre: string, t: string) {
    s == pre + t && AllWhite(pre) && t != "" && !White(t[0])
  }

  /** What is wrong with a value: a quotation mark or a backslash is open, or something
      follows the quotation. */
  ghost predicate ValueFault(t: string, e: ParseError) {
    if t == "" || t[0] in "#;" then false
    else if t[0] == '"' then
      || (e == NoClosingQuote && GoesOn(t[1..], {'"'}))
      || (e == UnexpectedCharacter && exists raw, text, rest ::
            NameStops(t[1..], raw, text, rest, {'"'}) && !Over(rest[1..]))
    else e == UnterminatedEscape && exists text :: Dangles(t, text, {'#', ';'})
  }

  /** What is wrong with a line. */
  ghost predicate IsFault(s: string, e: ParseError) {
    exists pre, t :: IsRest(s, pre, t) && LineFault(t, e)
  }

  ghost predicate LineFault(t: string, e: ParseError)
    requires t != ""
  {
    if t[0] == ']' then e == UnexpectedRightBracket
    else if t[0] == '[' then SectionFault(t[1..], e)
    else t[0] !in "#;" && KeyFault(t, e)
  }

  // ----- scans to the end -----

  lemma {:induction false} DanglingReads(s: string, stops: set<char>, acc: string) returns (text: string)
    requires '\\' !in stops && Scan(s, stops, acc, false).dangling
    ensures Dangles(s, text, stops) && Scan(s, stops, acc, false) == Scanned(acc + text, "", true)
    decreases |s|
  {
    hide Scan, Spells;
    StopsAtOnce(s, stops, acc);
    ScanStep(s, stops, acc);
    if s == "\\" {
      text := "";
      OnlyBackslash(stops, acc);
      assert s[..0] == "" && acc + "" == acc;
      NothingSpells(stops);
    } else {
      var n := if s[0] == '\\' then 2 else 1;
      var c := s[n - 1];
      var b := DanglingReads(s[n..], stops, acc + [c]);
      text := [c] + b;
      var raw := s[n..][..|s| - n - 1];
      SpellsMore(raw, b, c, stops);
      assert s[..|s| - 1] == s[..n] + raw && s[..n] == (if n == 2 then ['\\', c] else [c]);
      assert acc + [c] + b == acc + text;
    }
  }

  lemma StopsAtOnce(s: string, stops: set<char>, acc: string)
    requires Scan(s, stops, acc, false).dangling
    ensures s != "" && s[0] !in stops
  {
  }

  lemma OnlyBackslash(stops: set<char>, acc: string)
    requires '\\' !in stops
    ensures Scan("\\", stops, acc, false) == Scanned(acc, "", true)
  {
    assert "\\"[1..] == "";
  }

  lemma NothingSpells(stops: set<char>)
    ensures Spells("", "", stops)
  {
  }

  lemma DanglingWritten(raw: string, text: string, stops: set<char>)
    requires '\\' !in stops && Dangles(raw, text, stops)
    ensures Scan(raw, stops, "", false) == Scanned(text, "", true)
  {
    hide Scan, Spells;
    var front := raw[..|raw| - 1];
    assert raw == front + "\\" && "" + text == text;
    ScanWritten(front, text, "\\", stops, "");
    OnlyBackslash(stops, text);
  }

  /** A scan comes to the end of the line exactly if the text goes on to it. */
  lemma GoesOnExact(s: string, stops: set<char>)
    requires '\\' !in stops
    ensures GoesOn(s, stops) <==> Scan(s, stops, "", false).rest == ""
  {
    hide Scan, Spells, Dangles;
    var r := Scan(s, stops, "", false);
    if text :| Spells(s, text, stops) || Dangles(s, text, stops) {
      if Dangles(s, text, stops) {
        DanglingWritten(s, text, stops);
      } else {
        ScanWritten(s, text, "", stops, "");
        ScanNothing(stops, "" + text);
        assert s + "" == s;
      }
    }
    if r.rest == "" {
      if r.dangling {
        var text := DanglingReads(s, stops, "");
      } else {
        var raw, text := ScanReads(s, stops, "");
        assert raw + "" == raw;
      }
    }
  }

  /** A scan that stops has read what is written in front. */
  lemma StopsExact(s: string, raw: string, name: string, rest: string, stops: set<char>)
    requires '\\' !in stops && NameStops(s, raw, name, rest, stops)
    ensures Scan(s, stops, "", false) == Scanned(name, rest, false)
  {
    hide Scan, Spells;
    ScanWritten(raw, name, rest, stops, "");
    assert "" + name == name;
    ScanStops(rest, stops, name);
  }

  lemma StopsReads(s: string, stops: set<char>) returns (raw: string, name: string)
    requires '\\' !in stops && Scan(s, stops, "", false).rest != ""
    ensures var r := Scan(s, stops, "", false); r.text == name && NameStops(s, raw, name, r.rest, stops)
  {
    hide Scan, Spells;
    StopNotDangling(s, stops, "", false);
    raw, name := ScanReads(s, stops, "");
    assert "" + name == name;
  }

  // ----- the parts of a line -----

  lemma SectionExact(s: string, e: ParseError)
    ensures ParseSection(Scan(s, SECTION_STOPS, "", false)) == Bad(e) <==> SectionFault(s, e)
  {
    hide Scan, Trim, Over, GoesOn, NameStops, ParseTail;
    var r := Scan(s, SECTION_STOPS, "", false);
    GoesOnExact(s, SECTION_STOPS);
    if r.rest != "" {
      var raw, name := StopsReads(s, SECTION_STOPS);
      TailExact(ConfLine("", "", Trim(name, true)), r.rest[1..]);
      assert ParseSection(r) == Bad(e) ==> BadSection(name, r.rest, e);
      assert NameStops(s, raw, name, r.rest, {']', '#', ';'});
    }
    if raw, name, rest :| NameStops(s, raw, name, rest, {']', '#', ';'}) && BadSection(name, rest, e) {
      StopsExact(s, raw, name, rest, SECTION_STOPS);
      StopsSome(s, raw, name, rest, SECTION_STOPS);
      TailExact(ConfLine("", "", Trim(name, true)), rest[1..]);
    }
  }

  lemma StopsSome(s: string, raw: string, name: string, rest: string, stops: set<char>)
    requires NameStops(s, raw, name, rest, stops)
    ensures rest != "" && rest[0] in stops
  {
  }

  lemma QuotedExact(key: string, s: string, e: ParseError)
    ensures ParseQuoted(key, Scan(s, QUOTE_STOPS, "", false)) == Bad(e)
       <==> || (e == NoClosingQuote && GoesOn(s, {'"'}))
            || (e == UnexpectedCharacter && exists raw, text, rest ::
                  NameStops(s, raw, text, rest, {'"'}) && rest != "" && !Over(rest[1..]))
  {
    hide Scan, Over, GoesOn, NameStops, ParseTail;
    var r := Scan(s, QUOTE_STOPS, "", false);
    GoesOnExact(s, QUOTE_STOPS);
    if r.rest != "" {
      var raw, text := StopsReads(s, QUOTE_STOPS);
      TailExact(ConfLine(key, text, ""), r.rest[1..]);
      assert NameStops(s, raw, text, r.rest, {'"'});
    }
    if raw, text, rest :| NameStops(s, raw, text, rest, {'"'}) && rest != "" && !Over(rest[1..]) {
      StopsExact(s, raw, text, rest, QUOTE_STOPS);
      TailExact(ConfLine(key, text, ""), rest[1..]);
    }
  }

  lemma BareExact(key: string, s: string, e: ParseError)
    ensures ParseBare(key, Scan(s, VALUE_STOPS, "", false)) == Bad(e)
       <==> e == UnterminatedEscape && exists text :: Dangles(s, text, {'#', ';'})
  {
    hide Scan, Trim, Dangles;
    var r := Scan(s, VALUE_STOPS, "", false);
    if r.dangling {
      var text := DanglingReads(s, VALUE_STOPS, "");
      assert Dangles(s, text, {'#', ';'});
    }
    if text :| Dangles(s, text, {'#', ';'}) {
      DanglingWritten(s, text, VALUE_STOPS);
    }
  }

  lemma ValueExact(key: string, t: string, e: ParseError)
    requires t == "" || !White(t[0])
    ensures ParseValue(key, t) == Bad(e) <==> ValueFault(t, e)
  {
    hide Scan, DropLeading, ParseQuoted, ParseBare, GoesOn, Dangles, NameStops, Over;
    NoLeading(t);
    if t != "" {
      QuotedExact(key, t[1..], e);
      BareExact(key, t, e);
      StopsAllSome(t[1..]);
    }
  }

  lemma StopsAllSome(s: string)
    ensures forall raw, text, rest | NameStops(s, raw, text, rest, {'"'}) :: rest != ""
  {
  }

  lemma NoLeading(t: string)
    requires t == "" || !White(t[0])
    ensures DropLeading(t) == t
  {
  }

  lemma LeadingValue(key: string, pre: string, t: string)
    requires AllWhite(pre) && (t == "" || !White(t[0]))
    ensures ParseValue(key, pre + t) == ParseValue(key, t)
  {
    hide Scan, DropLeading, ParseQuoted, ParseBare;
    NoLeading(t);
    LeadingWritten(pre, t);
  }

  lemma BehindWhite(key: string, v: string, e: ParseError)
    ensures ParseValue(key, v) == Bad(e) <==> exists pre, t :: IsRest(v, pre, t) && ValueFault(t, e)
  {
    hide DropLeading, ParseValue, ValueFault, AllWhite;
    var pre := LeadingReads(v);
    var t := DropLeading(v);
    LeadingValue(key, pre, t);
    ValueExact(key, t, e);
    NoFault(e);
    if ParseValue(key, v) == Bad(e) {
      assert IsRest(v, pre, t) && ValueFault(t, e);
    }
    if pre, t :| IsRest(v, pre, t) && ValueFault(t, e) {
      LeadingValue(key, pre, t);
      ValueExact(key, t, e);
    }
  }

  lemma NoFault(e: ParseError)
    ensures !ValueFault("", e)
  {
  }

  lemma KeyExact(s: string, e: ParseError)
    ensures ParseKey(Scan(s, KEY_STOPS, "", false)) == Bad(e) <==> KeyFault(s, e)
  {
    hide Scan, Normalize, GoesOn, NameStops, ParseValue, ValueFault, IsRest;
    var r := Scan(s, KEY_STOPS, "", false);
    GoesOnExact(s, KEY_STOPS);
    if r.rest != "" {
      var raw, name := StopsReads(s, KEY_STOPS);
      BehindWhite(Normalize(name), r.rest[1..], e);
      assert NameStops(s, raw, name, r.rest, {'=', '#', ';'});
      assert ParseKey(r) == Bad(e) ==> BadKey(name, r.rest, e);
    }
    if raw, name, rest :| NameStops(s, raw, name, rest, {'=', '#', ';'}) && BadKey(name, rest, e) {
      StopsExact(s, raw, name, rest, KEY_STOPS);
      StopsSome(s, raw, name, rest, KEY_STOPS);
      BehindWhite(Normalize(name), rest[1..], e);
    }
  }

  lemma StartExact(pre: string, t: string, e: ParseError)
    requires AllWhite(pre) && t != "" && !White(t[0])
    ensures ParseLine(pre + t) == Bad(e) <==> LineFault(t, e)
  {
    hide Scan, DropLeading, ParseSection, ParseKey, SectionFault, KeyFault;
    LeadingWritten(pre, t);
    SectionExact(t[1..], e);
    KeyExact(t, e);
  }

  /** A line is refused with an error if and only if that is what is wrong with it. */
  lemma BadExact(s: string, e: ParseError)
    ensures ParseLine(s) == Bad(e) <==> IsFault(s, e)
  {
    hide DropLeading, ParseLine, LineFault, AllWhite;
    var pre := LeadingReads(s);
    var t := DropLeading(s);
    if t == "" {
      assert pre + "" == pre;
      BlankExact(s);
    } else {
      StartExact(pre, t, e);
    }
    if ParseLine(s) == Bad(e) {
      assert IsRest(s, pre, t) && LineFault(t, e);
    }
    if pre, t :| IsRest(s, pre, t) && LineFault(t, e) {
      StartExact(pre, t, e);
    }
  }
}
