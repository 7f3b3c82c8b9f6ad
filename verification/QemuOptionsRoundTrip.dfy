/** Escaping options and joining them is undone by the option loop. */
module QemuOptionsRoundTrip {
  import opened QemuOptions

  /** A backslash in front of every special character. */
  function Escaped(s: string, special: set<char>): (r: string)
    ensures |s| <= |r|
  {
    if s == "" then ""
    else (if s[0] in special then ['\\', s[0]] else [s[0]]) + Escaped(s[1..], special)
  }

  /** What has to be escaped: the two delimiters and the backslash itself.  The
      documentation of the driver asks for '@' as well. */
  predicate Suffices(special: set<char>) {
    {'=', ':', '\\'} <= special
  }

  function Joined(pairs: seq<Pair>, special: set<char>): string
    requires pairs != []
  {
    Escaped(pairs[0].name, special) + "=" + Escaped(pairs[0].value, special)
    + (if |pairs| == 1 then "" else ":" + Joined(pairs[1..], special))
  }

  /** The tokenizer counts the backslashes, so the limits are on escaped text. */
  predicate Fits(p: Pair, special: set<char>) {
    && TokenFits(Escaped(p.name, special), RBD_MAX_CONF_NAME_SIZE)
    && TokenFits(Escaped(p.value, special), RBD_MAX_CONF_VAL_SIZE)
  }

  /** The number of pairs in front of the first one that does not fit. */
  function Fitting(pairs: seq<Pair>, special: set<char>): (k: nat)
    ensures k <= |pairs|
    ensures k == |pairs| <==> forall i | 0 <= i < |pairs| :: Fits(pairs[i], special)
  {
    if pairs == [] || !Fits(pairs[0], special) then 0 else 1 + Fitting(pairs[1..], special)
  }

  lemma DelimSkips(c: char, rest: string, delim: char)
    requires c != delim && c != '\\'
    ensures DelimAt([c] + rest, delim) == 1 + DelimAt(rest, delim)
  {
    assert ([c] + rest)[1..] == rest;
  }

  lemma DelimHidden(c: char, rest: string, delim: char)
    requires delim != '\\'
    ensures DelimAt(['\\', c] + rest, delim) == 2 + DelimAt(rest, delim)
  {
    assert (['\\', c] + rest)[2..] == rest;
  }

  lemma {:induction false} DelimAfterEscaped(s: string, special: set<char>, delim: char, rest: string)
    requires Suffices(special) && (delim == '=' || delim == ':')
    ensures DelimAt(Escaped(s, special) + rest, delim) == |Escaped(s, special)| + DelimAt(rest, delim)
  {
    hide DelimAt;
    var e := Escaped(s, special);
    if s == "" {
      assert e + rest == rest;
    } else {
      var tail := Escaped(s[1..], special);
      DelimAfterEscaped(s[1..], special, delim, rest);
      if s[0] in special {
        DelimHidden(s[0], tail + rest, delim);
        assert e + rest == ['\\', s[0]] + (tail + rest);
      } else {
        DelimSkips(s[0], tail + rest, delim);
        assert e + rest == [s[0]] + (tail + rest);
      }
    }
  }

  lemma UnescapedEscaped(s: string, special: set<char>)
    requires '\\' in special
    ensures Unescaped(Escaped(s, special)) == s
  {
    hide Escaped, Unescaped;
    UnescapedFront(s, special, "");
    NothingUnescaped();
    assert Escaped(s, special) + "" == Escaped(s, special);
  }

  lemma NothingUnescaped()
    ensures Unescaped("") == ""
  {
  }

  /** A backslash at the end of a token stands for itself, and hides nothing. */
  lemma LoneBackslash(s: string, special: set<char>, delim: char)
    requires Suffices(special) && (delim == '=' || delim == ':')
    ensures Unescaped(Escaped(s, special) + "\\") == s + "\\"
    ensures DelimAt(Escaped(s, special) + "\\", delim) == |Escaped(s, special)| + 1
  {
    hide Escaped;
    DelimAfterEscaped(s, special, delim, "\\");
    OneBackslash(delim);
    UnescapedFront(s, special, "\\");
  }

  lemma OneBackslash(delim: char)
    requires delim != '\\'
    ensures DelimAt("\\", delim) == 1 && Unescaped("\\") == "\\"
  {
    assert "\\"[1..] == "";
  }

  lemma UnescapedNext(c: char, rest: string)
    ensures c != '\\' ==> Unescaped([c] + rest) == [c] + Unescaped(rest)
    ensures Unescaped(['\\', c] + rest) == [c] + Unescaped(rest)
  {
    assert ([c] + rest)[1..] == rest && (['\\', c] + rest)[2..] == rest;
  }

  lemma EscapedNext(s: string, special: set<char>, rest: string)
    requires s != ""
    ensures Escaped(s, special) + rest
         == (if s[0] in special then ['\\', s[0]] else [s[0]]) + (Escaped(s[1..], special) + rest)
  {
    hide Escaped;
    EscapedFirst(s, special);
  }

  lemma NothingEscaped(special: set<char>)
    ensures Escaped("", special) == ""
  {
  }

  lemma EscapedFirst(s: string, special: set<char>)
    requires s != ""
    ensures Escaped(s, special) == (if s[0] in special then ['\\', s[0]] else [s[0]]) + Escaped(s[1..], special)
  {
  }

  lemma {:induction false} UnescapedFront(s: string, special: set<char>, rest: string)
    requires '\\' in special
    ensures Unescaped(Escaped(s, special) + rest) == s + Unescaped(rest)
  {
    hide Unescaped, Escaped;
    if s == "" {
      NothingEscaped(special);
      assert "" + rest == rest && s + Unescaped(rest) == Unescaped(rest);
    } else {
      UnescapedFront(s[1..], special, rest);
      EscapedNext(s, special, rest);
      UnescapedNext(s[0], Escaped(s[1..], special) + rest);
      assert [s[0]] + (s[1..] + Unescaped(rest)) == s + Unescaped(rest);
    }
  }

  /** An escaped text in front of its delimiter is one token. */
  lemma EscapedToken(text: string, special: set<char>, delim: char, rest: string)
    requires Suffices(special) && (delim == '=' || delim == ':')
    requires rest == "" || rest[0] == delim
    ensures var e := Escaped(text, special);
            && DelimAt(e + rest, delim) == |e| && (e + rest)[..|e|] == e
            && (rest != "" ==> (e + rest)[|e| + 1..] == rest[1..])
            && (rest == "" <==> |e + rest| == |e|)
  {
    DelimAfterEscaped(text, special, delim, rest);
  }

  /** The text of one pair and what follows it. */
  function PairText(p: Pair, more: string, special: set<char>): string {
    Escaped(p.name, special) + ("=" + (Escaped(p.value, special) + more))
  }

  lemma ParsePairText(p: Pair, more: string, special: set<char>)
    requires Suffices(special) && (more == "" || more[0] == ':')
    ensures if Fits(p, special) then
              FirstPair(PairText(p, more, special), p, more != "", if more == "" then "" else more[1..])
            else Malformed(PairText(p, more, special))
  {
    hide Escaped, Unescaped, DelimAt;
    var v := Escaped(p.value, special) + more;
    EscapedToken(p.name, special, '=', "=" + v);
    assert ("=" + v)[1..] == v;
    EscapedToken(p.value, special, ':', more);
    UnescapedEscaped(p.name, special);
    UnescapedEscaped(p.value, special);
  }

  function MoreText(pairs: seq<Pair>, special: set<char>): string
    requires pairs != []
  {
    if |pairs| == 1 then "" else ":" + Joined(pairs[1..], special)
  }

  lemma JoinedParts(pairs: seq<Pair>, special: set<char>)
    requires pairs != []
    ensures Joined(pairs, special) == PairText(pairs[0], MoreText(pairs, special), special)
    ensures |pairs| > 1 ==> MoreText(pairs, special)[1..] == Joined(pairs[1..], special)
  {
    var n, v, more := Escaped(pairs[0].name, special), Escaped(pairs[0].value, special), MoreText(pairs, special);
    assert n + "=" + v + more == n + ("=" + (v + more));
  }

  lemma TakeMore(pairs: seq<Pair>, k: nat)
    requires k < |pairs|
    ensures [pairs[0]] + pairs[1..][..k] == pairs[..k + 1]
  {
  }

  /** The option loop reads a joined text back: exactly the pairs in front of the
      first one whose escaped name or value is empty or too long. */
  lemma {:induction false} ParseJoined(pairs: seq<Pair>, special: set<char>)
    requires pairs != [] && Suffices(special)
    ensures ParsePairs(Joined(pairs, special))
         == Parse(pairs[..Fitting(pairs, special)], Fitting(pairs, special) < |pairs|)
  {
    var s, more := Joined(pairs, special), MoreText(pairs, special);
    var t := if more == "" then "" else more[1..];
    JoinedParts(pairs, special);
    ParsePairText(pairs[0], more, special);
    if !Fits(pairs[0], special) {
      ParseMalformed(s);
    } else {
      ParseFirst(s, pairs[0], more != "", t);
      if |pairs| > 1 {
        ParseJoined(pairs[1..], special);
        TakeMore(pairs, Fitting(pairs[1..], special));
      } else {
        assert pairs[1..] == [];
        TakeMore(pairs, 0);
      }
    }
  }

  /** The escaped name takes 1 to 127 characters, and the escaped value 1 to 511. */
  predicate Short(p: Pair, special: set<char>) {
    1 <= |Escaped(p.name, special)| <= 127 && 1 <= |Escaped(p.value, special)| <= 511
  }

  /** The round trip holds for a list of options if and only if every escaped
      name and value is non-empty and within its buffer. */
  lemma OptionsRoundTrip(pairs: seq<Pair>, special: set<char>)
    requires pairs != [] && Suffices(special)
    ensures ParsePairs(Joined(pairs, special)) == Parse(pairs, false)
        <==> forall i | 0 <= i < |pairs| :: Short(pairs[i], special)
  {
    ParseJoined(pairs, special);
    assert pairs[..|pairs|] == pairs;
    assert forall i | 0 <= i < |pairs| :: Fits(pairs[i], special) <==> Short(pairs[i], special);
  }

  /** What set_conf does with options that are escaped and joined and fit: librados is
      asked once for every pair but the "id", in order, up to the first refusal. */
  lemma JoinedCarried(pairs: seq<Pair>, special: set<char>, rados: Rados, calls: seq<Action>, ret: int)
    requires pairs != [] && Suffices(special) && forall i | 0 <= i < |pairs| :: Short(pairs[i], special)
    requires Carried(ParsePairs(Joined(pairs, special)), rados, calls, ret)
    ensures forall f: nat | FirstRefused(pairs, rados, f) ::
              && Calls(pairs, f + 1, calls)
              && ret == if pairs[f].name == "conf" then rados.readFile(pairs[f].value) else -22
    ensures (forall i | 0 <= i < |pairs| :: !IsRefused(pairs[i], rados)) ==>
              && Calls(pairs, |pairs|, calls)
              && ret == LastAnswer(pairs, rados)
  {
    hide Calls, FirstRefused, IsRefused, LastAnswer, Short;
    OptionsRoundTrip(pairs, special);
  }

  lemma ShortFits(p: Pair, special: set<char>)
    requires Short(p, special)
    ensures Fits(p, special)
  {
  }

  /** A complete first pair, and what is parsed behind it. */
  lemma ParsePairMore(p: Pair, more: string, special: set<char>)
    requires Suffices(special) && Short(p, special) && more != "" && more[0] == ':'
    ensures var rest := ParsePairs(more[1..]);
            ParsePairs(PairText(p, more, special)) == Parse([p] + rest.pairs, rest.bad)
  {
    hide Escaped, ParsePairs, FirstPair, Fits, Short, PairText;
    ShortFits(p, special);
    ParsePairText(p, more, special);
    ParseFirst(PairText(p, more, special), p, true, more[1..]);
  }

  lemma NothingMalformed()
    ensures ParsePairs("") == Parse([], true)
  {
  }

  /** A delimiter at the end asks for one more pair, which is not there. */
  lemma {:induction false} TrailingRefused(pairs: seq<Pair>, special: set<char>)
    requires pairs != [] && Suffices(special) && forall i | 0 <= i < |pairs| :: Short(pairs[i], special)
    ensures ParsePairs(Joined(pairs, special) + ":") == Parse(pairs, true)
  {
    hide Escaped, ParsePairs, PairText, Short, Joined;
    var more := MoreText(pairs, special) + ":";
    JoinedParts(pairs, special);
    TextMore(pairs[0], MoreText(pairs, special), ":", special);
    ParsePairMore(pairs[0], more, special);
    if |pairs| > 1 {
      TrailingRefused(pairs[1..], special);
      assert more[1..] == Joined(pairs[1..], special) + ":";
    } else {
      assert more[1..] == "";
      NothingMalformed();
    }
    assert pairs == [pairs[0]] + pairs[1..];
  }

  lemma TextMore(p: Pair, more: string, end: string, special: set<char>)
    ensures PairText(p, more, special) + end == PairText(p, more + end, special)
  {
    hide Escaped;
    var n, v := Escaped(p.name, special), Escaped(p.value, special);
    assert n + ("=" + (v + more)) + end == n + ("=" + (v + (more + end)));
  }
}
