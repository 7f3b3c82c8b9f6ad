/** White space and key names, as ConfFile::trim_whitespace and
    ConfFile::normalize_key_name treat them. */
module ConfText {
  import opened Basics

  /** isspace() in the C locale: blank, \t, \n, \v, \f, \r. */
  predicate IsSpace(c: char) {
    c == ' ' || '\t' <= c <= '\r'
  }

  function DropLeading(s: string): (r: string)
    ensures |r| <= |s|
  {
    if s != [] && IsSpace(s[0]) then DropLeading(s[1..]) else s
  }

  function DropTrailing(s: string): (r: string)
    ensures r <= s
  {
    if s != [] && IsSpace(s[|s| - 1]) then DropTrailing(s[..|s| - 1]) else s
  }

  /** Every run of white space shrinks to its first character. */
  function Collapse(s: string, afterSpace: bool): (r: string)
    ensures |r| <= |s|
  {
    if s == [] then []
    else if IsSpace(s[0]) then (if afterSpace then [] else [s[0]]) + Collapse(s[1..], true)
    else [s[0]] + Collapse(s[1..], false)
  }

  function Trim(s: string, internal: bool): string {
    var t := Stripped(s);
    if internal then Collapse(t, false) else t
  }

  function Underscored(s: string): (r: string)
    ensures |r| == |s| && forall i | 0 <= i < |s| :: r[i] == (if s[i] == ' ' then '_' else s[i])
  {
    seq(|s|, i requires 0 <= i < |s| => if s[i] == ' ' then '_' else s[i])
  }

  function Normalize(key: string): string {
    Underscored(Trim(key, true))
  }

  /** No null, and no white space at either end. */
  predicate Trimmed(s: string) {
    && '\0' !in s
    && (s != [] ==> !IsSpace(s[0]) && !IsSpace(s[|s| - 1]))
  }

  /** No two neighbouring white-space characters. */
  predicate Compact(s: string) {
    forall i | 0 <= i < |s| - 1 :: !(IsSpace(s[i]) && IsSpace(s[i + 1]))
  }

  predicate Normalized(key: string) {
    Trimmed(key) && Compact(key) && ' ' !in key
  }

  lemma {:induction false} DropLeadingSound(s: string)
    ensures DropLeading(s) == s[|s| - |DropLeading(s)|..]
    ensures DropLeading(s) != [] ==> !IsSpace(DropLeading(s)[0])
    ensures forall i | 0 <= i < |s| - |DropLeading(s)| :: IsSpace(s[i])
    ensures forall c :: c in DropLeading(s) ==> c in s
  {
    if s != [] && IsSpace(s[0]) {
      DropLeadingSound(s[1..]);
      forall i | 0 <= i < |s| - |DropLeading(s)| ensures IsSpace(s[i]) {
        if i > 0 { assert s[1..][i - 1] == s[i]; }
      }
    }
  }

  lemma {:induction false} DropTrailingSound(s: string)
    ensures DropTrailing(s) != [] ==> !IsSpace(DropTrailing(s)[|DropTrailing(s)| - 1])
    ensures s != [] && !IsSpace(s[0]) ==> DropTrailing(s) != []
    ensures forall i | |DropTrailing(s)| <= i < |s| :: IsSpace(s[i])
  {
    if s != [] && IsSpace(s[|s| - 1]) {
      DropTrailingSound(s[..|s| - 1]);
    }
  }

  /** May `rest` follow c without a doubled space? */
  predicate Joins(c: char, rest: string) {
    rest == [] || !(IsSpace(c) && IsSpace(rest[0]))
  }

  lemma CompactCons(c: char, rest: string)
    ensures Compact([c] + rest) <==> Compact(rest) && Joins(c, rest)
  {
    var r := [c] + rest;
    if Compact(r) {
      forall i | 0 <= i < |rest| - 1 ensures !(IsSpace(rest[i]) && IsSpace(rest[i + 1])) {
        assert r[i + 1] == rest[i] && r[i + 2] == rest[i + 1];
      }
      assert rest != [] ==> r[0] == c && r[1] == rest[0];
    } else {
      var i :| 0 <= i < |r| - 1 && IsSpace(r[i]) && IsSpace(r[i + 1]);
      assert i > 0 ==> rest[i - 1] == r[i] && rest[i] == r[i + 1];
    }
  }

  lemma {:induction false} CollapseCompact(s: string, afterSpace: bool)
    ensures Compact(Collapse(s, afterSpace))
    ensures afterSpace && Collapse(s, afterSpace) != [] ==> !IsSpace(Collapse(s, afterSpace)[0])
  {
    if s != [] {
      var next := IsSpace(s[0]);
      CollapseCompact(s[1..], next);
      CompactCons(s[0], Collapse(s[1..], next));
    }
  }

  lemma {:induction false} CollapseEnds(s: string, afterSpace: bool)
    requires s != []
    ensures !IsSpace(s[0]) ==> Collapse(s, afterSpace) != [] && Collapse(s, afterSpace)[0] == s[0]
    ensures !IsSpace(s[|s| - 1]) ==>
              Collapse(s, afterSpace) != [] && Collapse(s, afterSpace)[|Collapse(s, afterSpace)| - 1] == s[|s| - 1]
  {
    if |s| > 1 {
      CollapseEnds(s[1..], IsSpace(s[0]));
      assert s[1..][|s| - 2] == s[|s| - 1];
    }
  }

  lemma {:induction false} CollapseIn(s: string, afterSpace: bool)
    ensures forall c :: c in Collapse(s, afterSpace) ==> c in s
  {
    if s != [] {
      CollapseIn(s[1..], IsSpace(s[0]));
    }
  }

  lemma {:induction false} CollapseFixed(s: string, afterSpace: bool)
    requires Compact(s) && (afterSpace ==> s == [] || !IsSpace(s[0]))
    ensures Collapse(s, afterSpace) == s
  {
    if s != [] {
      assert s == [s[0]] + s[1..];
      CompactCons(s[0], s[1..]);
      CollapseFixed(s[1..], IsSpace(s[0]));
    }
  }

  function Stripped(s: string): (t: string)
    ensures |t| <= |s|
  {
    UntilExact(s, '\0');
    DropTrailing(DropLeading(Until(s, '\0')))
  }

  lemma StrippedSound(s: string)
    ensures Trimmed(Stripped(s)) && forall c :: c in Stripped(s) ==> c in s
  {
    var c := Until(s, '\0');
    UntilExact(s, '\0');
    DropLeadingSound(c);
    var l := DropLeading(c);
    DropTrailingSound(l);
    var t := DropTrailing(l);
    assert t != [] ==> t[0] == l[0];
    forall x | x in t ensures x in s && x != '\0' {
      assert x in l;
      assert x in c;
    }
  }

  lemma CollapseTrimmed(t: string)
    requires Trimmed(t)
    ensures Trimmed(Collapse(t, false)) && Compact(Collapse(t, false))
  {
    CollapseCompact(t, false);
    CollapseIn(t, false);
    if t != [] {
      CollapseEnds(t, false);
    }
  }

  /** trim_whitespace does what its name says, and does it once and for all. */
  lemma TrimSound(s: string, internal: bool)
    ensures Trimmed(Trim(s, internal))
    ensures internal ==> Compact(Trim(s, internal))
    ensures forall c :: c in Trim(s, internal) ==> c in s
    ensures |Trim(s, internal)| <= |s|
  {
    var t := Stripped(s);
    StrippedSound(s);
    if internal {
      CollapseTrimmed(t);
      CollapseIn(t, false);
      forall c | c in Trim(s, internal) ensures c in s {
        assert c in t;
      }
    }
  }

  /** Trimming removes white space at the two ends and nothing else. */
  lemma TrimSplits(s: string) returns (left: string, right: string)
    ensures Until(s, '\0') == left + Trim(s, false) + right
    ensures forall c :: c in left + right ==> IsSpace(c)
  {
    hide Until, DropLeading, DropTrailing;
    var text := Until(s, '\0');
    DropLeadingSound(text);
    var l := DropLeading(text);
    DropTrailingSound(l);
    left, right := text[..|text| - |l|], l[|DropTrailing(l)|..];
  }

  /** The fixed points of trimming are exactly the trimmed (compact) strings. */
  lemma TrimFixed(s: string, internal: bool)
    ensures Trim(s, internal) == s <==> Trimmed(s) && (internal ==> Compact(s))
  {
    TrimSound(s, internal);
    if Trimmed(s) {
      UntilExact(s, '\0');
      assert DropTrailing(DropLeading(Until(s, '\0'))) == s;
      if internal && Compact(s) {
        CollapseFixed(s, false);
      }
    }
  }

  /** The fixed points of normalization are exactly the normalized keys, and
      normalizing reaches one. */
  lemma NormalizeSound(key: string)
    ensures Normalized(Normalize(key))
    ensures Normalize(key) == key <==> Normalized(key)
    ensures |Normalize(key)| <= |key|
  {
    TrimSound(key, true);
    TrimFixed(key, true);
    var t := Trim(key, true);
    UnderscoredSound(t);
    if Normalized(key) {
      UnderscoredFixed(key);
    }
  }

  lemma UnderscoredSound(t: string)
    requires Trimmed(t) && Compact(t)
    ensures Normalized(Underscored(t))
  {
    var k := Underscored(t);
    forall i | 0 <= i < |k| ensures k[i] != '\0' && k[i] != ' ' {
      assert t[i] in t;
    }
  }

  lemma UnderscoredFixed(k: string)
    requires ' ' !in k
    ensures Underscored(k) == k
  {
    forall i | 0 <= i < |k| ensures Underscored(k)[i] == k[i] {
      assert k[i] in k;
    }
  }

  method StripPreceding(text: string) returns (output: string)
    ensures output == DropLeading(text)
  {
    var i := 0;
    while i < |text| && IsSpace(text[i])
      invariant 0 <= i <= |text| && DropLeading(text[i..]) == DropLeading(text)
    {
      assert text[i..][1..] == text[i + 1..];
      i := i + 1;
    }
    output := text[i..];
  }

  method StripTrailing(text: string) returns (output: string)
    ensures output == DropTrailing(text)
  {
    var o := |text|;
    assert text[..o] == text;
    while o != 0 && IsSpace(text[o - 1])
      invariant 0 <= o <= |text| && DropTrailing(text[..o]) == DropTrailing(text)
    {
      assert text[..o][..o - 1] == text[..o - 1];
      o := o - 1;
    }
    output := text[..o];
  }

  lemma CollapseNext(output: string, text: string, u: nat, prevWasSpace: bool)
    requires u < |text|
    ensures var rest := Collapse(text[u + 1..], IsSpace(text[u]));
            output + Collapse(text[u..], prevWasSpace)
            == if IsSpace(text[u]) && prevWasSpace then output + rest else output + [text[u]] + rest
  {
    var rest := Collapse(text[u + 1..], IsSpace(text[u]));
    assert text[u..][1..] == text[u + 1..];
    assert output + ([text[u]] + rest) == output + [text[u]] + rest;
    assert [] + rest == rest;
  }

  method StripInternal(text: string) returns (output: string)
    ensures output == Collapse(text, false)
  {
    output := "";
    var prevWasSpace := false;
    for u := 0 to |text|
      invariant output + Collapse(text[u..], prevWasSpace) == Collapse(text, false)
    {
      var c := text[u];
      CollapseNext(output, text, u, prevWasSpace);
      if IsSpace(c) {
        if !prevWasSpace {
          output := output + [c];
        }
        prevWasSpace := true;
      } else {
        output := output + [c];
        prevWasSpace := false;
      }
    }
  }

  /** trim_whitespace: strip in front, behind and, on request, inside, each
      pass copying through its own buffer. */
  method TrimWhitespace(str: string, stripInternal: bool) returns (r: string)
    ensures r == Trim(str, stripInternal)
  {
    r := StripPreceding(Until(str, '\0'));
    r := StripTrailing(r);
    if stripInternal {
      r := StripInternal(r);
    }
  }

  method NormalizeKeyName(key: string) returns (k: string)
    ensures k == Normalize(key)
  {
    k := TrimWhitespace(key, true);
    k := Underscored(k);
  }
}
