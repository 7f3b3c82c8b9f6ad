/** One line of a configuration file: ConfFile::process_line.

    `ProcessLine` is the character state machine; `ParseLine` is the grammar it
    implements, written as productions over one escape-aware scanner. */
module ConfLines {
  import opened ConfText

  datatype ConfLine = ConfLine(key: string, val: string, newsection: string)

  datatype ParseError =
    | UnexpectedRightBracket
    | NoClosingBracket
    | NoSectionName
    | CommentInSectionName
    | NoEquals
    | CommentInKey
    | NoKeyName
    | UnterminatedEscape
    | NoClosingQuote
    | UnexpectedCharacter
    | NoNewline
    | EmbeddedNull
    | NotUtf8
    | TrailingBackslash

  /** A null pointer without an error, a line, or a null pointer with one. */
  datatype LineResult = Blank | Line(line: ConfLine) | Bad(error: ParseError)

  // ----- the grammar of one line -----

  /** What an escape-aware scan collected, what is left from the first
      unescaped stop character on, and whether the text ended inside an escape. */
  datatype Scanned = Scanned(text: string, rest: string, dangling: bool)

  function Scan(s: string, stops: set<char>, acc: string, escaping: bool): (r: Scanned)
    ensures |r.text| + |r.rest| <= |acc| + |s|
    ensures r.rest != [] ==> r.rest[0] in stops
    decreases |s|
  {
    if s == [] then Scanned(acc, [], escaping)
    else if s[0] in stops && !escaping then Scanned(acc, s, false)
    else if s[0] == '\\' && !escaping then Scan(s[1..], stops, acc, true)
    else Scan(s[1..], stops, acc + [s[0]], false)
  }

  const SECTION_STOPS: set<char> := {']', '#', ';'}
  const KEY_STOPS: set<char> := {'=', '#', ';'}
  const VALUE_STOPS: set<char> := {'#', ';'}
  const QUOTE_STOPS: set<char> := {'"'}

  /** line := space* | space* '[' section | space* comment | space* key */
  function ParseLine(s: string): LineResult {
    var t := DropLeading(s);
    if t == [] then Blank
    else if t[0] == '[' then ParseSection(Scan(t[1..], SECTION_STOPS, "", false))
    else if t[0] in VALUE_STOPS then Line(ConfLine("", "", ""))
    else if t[0] == ']' then Bad(UnexpectedRightBracket)
    else ParseKey(Scan(t, KEY_STOPS, "", false))
  }

  /** section := name ']' tail */
  function ParseSection(name: Scanned): LineResult {
    if name.rest == [] then Bad(NoClosingBracket)
    else if name.rest[0] != ']' then Bad(CommentInSectionName)
    else
      var section := Trim(name.text, true);
      if section == "" then Bad(NoSectionName)
      else ParseTail(ConfLine("", "", section), name.rest[1..])
  }

  /** key := name '=' value */
  function ParseKey(name: Scanned): LineResult {
    if name.rest == [] then Bad(NoEquals)
    else if name.rest[0] != '=' then Bad(CommentInKey)
    else
      var key := Normalize(name.text);
      if key == "" then Bad(NoKeyName)
      else ParseValue(key, name.rest[1..])
  }

  /** value := space* [comment] | space* '"' quoted | space* bare */
  function ParseValue(key: string, s: string): LineResult {
    var t := DropLeading(s);
    if t == [] || t[0] in VALUE_STOPS then Line(ConfLine(key, "", ""))
    else if t[0] == '"' then ParseQuoted(key, Scan(t[1..], QUOTE_STOPS, "", false))
    else ParseBare(key, Scan(t, VALUE_STOPS, "", false))
  }

  /** quoted := text '"' tail */
  function ParseQuoted(key: string, val: Scanned): LineResult {
    if val.rest == [] then Bad(NoClosingQuote)
    else ParseTail(ConfLine(key, val.text, ""), val.rest[1..])
  }

  /** bare := text [comment] */
  function ParseBare(key: string, val: Scanned): LineResult {
    if val.rest == [] && val.dangling then Bad(UnterminatedEscape)
    else Line(ConfLine(key, Trim(val.text, false), ""))
  }

  /** tail := space* [comment] */
  function ParseTail(line: ConfLine, s: string): LineResult {
    var t := DropLeading(s);
    if t == [] || t[0] in VALUE_STOPS then Line(line) else Bad(UnexpectedCharacter)
  }

  // ----- the state machine -----

  datatype AcceptorState =
    | Init | SectionName | Key | ValStart | UnquotedVal | QuotedVal | CommentStart | CommentText

  /** The outcome the grammar promises from a machine configuration: `rest` is
      the text not yet read. */
  ghost function Promised(state: AcceptorState, key: string, val: string, newsection: string,
                          escaping: bool, rest: string): LineResult
  {
    match state
    case Init => ParseLine(rest)
    case SectionName => ParseSection(Scan(rest, SECTION_STOPS, newsection, escaping))
    case Key => ParseKey(Scan(rest, KEY_STOPS, key, escaping))
    case ValStart => ParseValue(key, rest)
    case UnquotedVal => ParseBare(key, Scan(rest, VALUE_STOPS, val, escaping))
    case QuotedVal => ParseQuoted(key, Scan(rest, QUOTE_STOPS, val, escaping))
    case CommentStart => ParseTail(ConfLine(key, val, newsection), rest)
    case CommentText => Line(ConfLine(key, val, newsection))
  }

  /** What the accumulators may hold in each state. */
  ghost predicate Accumulating(state: AcceptorState, key: string, val: string, newsection: string,
                               escaping: bool)
  {
    match state
    case Init => key == "" && val == "" && newsection == "" && !escaping
    case SectionName => key == "" && val == ""
    case Key => val == "" && newsection == ""
    case ValStart => val == "" && newsection == "" && !escaping
    case UnquotedVal => newsection == ""
    case QuotedVal => newsection == ""
    case CommentStart => !escaping
    case CommentText => !escaping
  }

  // One turn of the machine in each state: what the promise becomes.

  lemma FromInit(rest: string)
    ensures Promised(Init, "", "", "", false, rest)
         == if rest == "" then Blank
            else if rest[0] == '[' then Promised(SectionName, "", "", "", false, rest[1..])
            else if rest[0] in VALUE_STOPS then Line(ConfLine("", "", ""))
            else if rest[0] == ']' then Bad(UnexpectedRightBracket)
            else if IsSpace(rest[0]) then Promised(Init, "", "", "", false, rest[1..])
            else Promised(Key, "", "", "", false, rest)
  {
  }

  lemma FromSectionName(newsection: string, escaping: bool, rest: string)
    ensures Promised(SectionName, "", "", newsection, escaping, rest)
         == if rest == "" then Bad(NoClosingBracket)
            else if rest[0] == ']' && !escaping then
              var name := Trim(newsection, true);
              if name == "" then Bad(NoSectionName) else Promised(CommentStart, "", "", name, false, rest[1..])
            else if rest[0] in VALUE_STOPS && !escaping then Bad(CommentInSectionName)
            else if rest[0] == '\\' && !escaping then Promised(SectionName, "", "", newsection, true, rest[1..])
            else Promised(SectionName, "", "", newsection + [rest[0]], false, rest[1..])
  {
  }

  lemma FromKey(key: string, escaping: bool, rest: string)
    ensures Promised(Key, key, "", "", escaping, rest)
         == if rest == "" then Bad(NoEquals)
            else if rest[0] in VALUE_STOPS && !escaping then Bad(CommentInKey)
            else if rest[0] == '=' && !escaping then
              var k := Normalize(key);
              if k == "" then Bad(NoKeyName) else Promised(ValStart, k, "", "", false, rest[1..])
            else if rest[0] == '\\' && !escaping then Promised(Key, key, "", "", true, rest[1..])
            else Promised(Key, key + [rest[0]], "", "", false, rest[1..])
  {
  }

  lemma FromValStart(key: string, rest: string)
    ensures Promised(ValStart, key, "", "", false, rest)
         == if rest == "" || rest[0] in VALUE_STOPS then Line(ConfLine(key, "", ""))
            else if rest[0] == '"' then Promised(QuotedVal, key, "", "", false, rest[1..])
            else if IsSpace(rest[0]) then Promised(ValStart, key, "", "", false, rest[1..])
            else Promised(UnquotedVal, key, "", "", false, rest)
  {
  }

  lemma FromUnquotedVal(key: string, val: string, escaping: bool, rest: string)
    ensures Promised(UnquotedVal, key, val, "", escaping, rest)
         == if rest == "" && escaping then Bad(UnterminatedEscape)
            else if rest == "" || (rest[0] in VALUE_STOPS && !escaping) then Line(ConfLine(key, Trim(val, false), ""))
            else if rest[0] == '\\' && !escaping then Promised(UnquotedVal, key, val, "", true, rest[1..])
            else Promised(UnquotedVal, key, val + [rest[0]], "", false, rest[1..])
  {
  }

  lemma FromQuotedVal(key: string, val: string, escaping: bool, rest: string)
    ensures Promised(QuotedVal, key, val, "", escaping, rest)
         == if rest == "" then Bad(NoClosingQuote)
            else if rest[0] == '"' && !escaping then Promised(CommentStart, key, val, "", false, rest[1..])
            else if rest[0] == '\\' && !escaping then Promised(QuotedVal, key, val, "", true, rest[1..])
            else Promised(QuotedVal, key, val + [rest[0]], "", false, rest[1..])
  {
  }

  lemma InCommentText()
    ensures forall key, val, newsection, rest ::
              Promised(CommentText, key, val, newsection, false, rest) == Line(ConfLine(key, val, newsection))
  {
  }

  lemma FromCommentStart(key: string, val: string, newsection: string, rest: string)
    ensures Promised(CommentStart, key, val, newsection, false, rest)
         == if rest == "" || rest[0] in VALUE_STOPS then Line(ConfLine(key, val, newsection))
            else if IsSpace(rest[0]) then Promised(CommentStart, key, val, newsection, false, rest[1..])
            else Bad(UnexpectedCharacter)
  {
  }

  lemma PromiseStarts(line: string)
    ensures Promised(Init, "", "", "", false, line[0..]) == ParseLine(line)
  {
    assert line[0..] == line;
  }

  /** process_line: the state machine accepts what the grammar accepts, with the
      same result and the same error.  The argument is the text before the
      terminating null, which the machine reads as its last character. */
  method ProcessLine(line: string) returns (r: LineResult)
    requires '\0' !in line
    ensures r == ParseLine(line)
  {
    hide Promised, ParseLine, Trim, Normalize;
    var l := 0;
    var state := Init;
    var key, val, newsection := "", "", "";
    var escaping := false;
    PromiseStarts(line);
    while true
      invariant 0 <= l <= |line|
      invariant Accumulating(state, key, val, newsection, escaping)
      invariant Promised(state, key, val, newsection, escaping, line[l..]) == ParseLine(line)
      decreases |line| - l, if state in {Init, ValStart} then 1 else 0
    {
      var c := if l < |line| then line[l] else '\0';
      ghost var rest := line[l..];
      InCommentText();
      if l < |line| {
        assert rest[0] == c && rest[1..] == line[l + 1..];
        assert c in line;
      } else {
        assert rest == [];
      }
      match state {
        case Init =>
          FromInit(rest);
          if c == '\0' {
            return Blank;
          } else if c == '[' {
            state := SectionName;
          } else if c == '#' || c == ';' {
            state := CommentText;
          } else if c == ']' {
            return Bad(UnexpectedRightBracket);
          } else if IsSpace(c) {
          } else {
            state := Key;
            l := l - 1;
          }
        case SectionName =>
          FromSectionName(newsection, escaping, rest);
          if c == '\0' {
            return Bad(NoClosingBracket);
          } else if c == ']' && !escaping {
            newsection := TrimWhitespace(newsection, true);
            if newsection == "" {
              return Bad(NoSectionName);
            }
            state := CommentStart;
          } else if (c == '#' || c == ';') && !escaping {
            return Bad(CommentInSectionName);
          } else if c == '\\' && !escaping {
            escaping := true;
          } else {
            escaping := false;
            newsection := newsection + [c];
          }
        case Key =>
          FromKey(key, escaping, rest);
          if ((c == '#' || c == ';') && !escaping) || c == '\0' {
            return Bad(if c == '\0' then NoEquals else CommentInKey);
          } else if c == '=' && !escaping {
            key := NormalizeKeyName(key);
            if key == "" {
              return Bad(NoKeyName);
            }
            state := ValStart;
          } else if c == '\\' && !escaping {
            escaping := true;
          } else {
            escaping := false;
            key := key + [c];
          }
        case ValStart =>
          FromValStart(key, rest);
          if c == '\0' {
            return Line(ConfLine(key, val, newsection));
          } else if c == '#' || c == ';' {
            state := CommentText;
          } else if c == '"' {
            state := QuotedVal;
          } else if IsSpace(c) {
          } else {
            state := UnquotedVal;
            l := l - 1;
          }
        case UnquotedVal =>
          FromUnquotedVal(key, val, escaping, rest);
          if c == '\0' {
            if escaping {
              return Bad(UnterminatedEscape);
            }
            val := TrimWhitespace(val, false);
            return Line(ConfLine(key, val, newsection));
          } else if (c == '#' || c == ';') && !escaping {
            val := TrimWhitespace(val, false);
            state := CommentText;
          } else if c == '\\' && !escaping {
            escaping := true;
          } else {
            escaping := false;
            val := val + [c];
          }
        case QuotedVal =>
          FromQuotedVal(key, val, escaping, rest);
          if c == '\0' {
            return Bad(NoClosingQuote);
          } else if c == '"' && !escaping {
            state := CommentStart;
          } else if c == '\\' && !escaping {
            escaping := true;
          } else {
            escaping := false;
            val := val + [c];
          }
        case CommentStart =>
          FromCommentStart(key, val, newsection, rest);
          if c == '\0' {
            return Line(ConfLine(key, val, newsection));
          } else if c == '#' || c == ';' {
            state := CommentText;
          } else if IsSpace(c) {
          } else {
            return Bad(UnexpectedCharacter);
          }
        case CommentText =>
          if c == '\0' {
            return Line(ConfLine(key, val, newsection));
          }
      }
      l := l + 1;
    }
  }
}
