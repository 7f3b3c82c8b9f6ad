/** Option strings of the qemu rbd driver: the in-place tokenizer and unescaper
    of rbd.c, and the loop of qemu_rbd_set_conf over them. */
module QemuOptions {
  import opened Basics

  const EINVAL := 22
  const RBD_MAX_CONF_NAME_SIZE: nat := 128
  const RBD_MAX_CONF_VAL_SIZE: nat := 512

  /** The null-terminated text s starts at place i of the buffer. */
  ghost predicate Holds(buf: seq<char>, i: nat, s: string) {
    && i + |s| < |buf| && buf[i..i + |s|] == s
    && '\0' !in s && buf[i + |s|] == '\0'
  }

  /** Where the token ends: the first delimiter that no backslash hides. */
  function DelimAt(s: string, delim: char): (n: nat)
    ensures n <= |s| && (n < |s| ==> s[n] == delim)
  {
    if s == "" || s[0] == delim then 0
    else if s[0] == '\\' && |s| > 1 then 2 + DelimAt(s[2..], delim)
    else 1 + DelimAt(s[1..], delim)
  }

  /** A backslash stands for the character after it, except at the end. */
  function Unescaped(s: string): string {
    if s == "" then ""
    else if s[0] == '\\' && |s| > 1 then [s[1]] + Unescaped(s[2..])
    else [s[0]] + Unescaped(s[1..])
  }

  lemma HoldsAt(buf: seq<char>, i: nat, s: string, k: nat)
    requires Holds(buf, i, s) && k <= |s|
    ensures i + k < |buf| && (buf[i + k] == '\0' <==> k == |s|)
    ensures k < |s| ==> buf[i + k] == s[k]
    ensures Holds(buf, i + k, s[k..])
  {
    if k < |s| {
      assert buf[i..i + |s|][k] == s[k] && s[k] in s;
    }
    assert buf[i + k..i + |s|] == buf[i..i + |s|][k..];
  }

  /** A write in front of a text leaves it alone. */
  lemma HoldsBehind(was: seq<char>, p: nat, c: char, i: nat, s: string)
    requires Holds(was, i, s) && p < i
    ensures Holds(was[p := c], i, s)
  {
    assert was[p := c][i..i + |s|] == was[i..i + |s|];
  }

  /** A null in a text cuts it in two. */
  lemma HoldsCut(was: seq<char>, i: nat, s: string, n: nat)
    requires Holds(was, i, s) && n < |s|
    ensures Holds(was[i + n := '\0'], i, s[..n]) && Holds(was[i + n := '\0'], i + n + 1, s[n + 1..])
  {
    var now := was[i + n := '\0'];
    assert now[i..i + n] == was[i..i + |s|][..n];
    forall c | c in s[..n] ensures c != '\0' { assert c in s; }
    HoldsAt(was, i, s, n + 1);
    HoldsBehind(was, i + n, '\0', i + n + 1, s[n + 1..]);
  }

  method StrLen(buf: array<char>, src: nat, ghost s: string) returns (l: nat)
    requires Holds(buf[..], src, s)
    ensures l == |s|
  {
    l := 0;
    HoldsAt(buf[..], src, s, 0);
    while buf[src + l] != '\0'
      invariant l <= |s| && src + l < buf.Length
      invariant buf[src + l] == '\0' <==> l == |s|
      decreases |s| - l
    {
      l := l + 1;
      HoldsAt(buf[..], src, s, l);
    }
  }

  /** One turn of the scan: what the text says about the delimiter from k on. */
  lemma DelimNext(s: string, delim: char, k: nat)
    requires k < |s| && s[k] != delim
    ensures var next := if s[k] == '\\' && k + 1 < |s| then k + 2 else k + 1;
            DelimAt(s[k..], delim) == next - k + DelimAt(s[next..], delim)
  {
    var rest := s[k..];
    assert rest[1..] == s[k + 1..];
    if k + 1 < |s| {
      assert rest[2..] == s[k + 2..];
    }
  }

  /** The same turn, as the buffer shows it. */
  lemma DelimTurn(buf: seq<char>, src: nat, s: string, delim: char, k: nat)
    requires Holds(buf, src, s) && k < |s| && s[k] != delim
    ensures src + k + 1 < |buf|
    ensures var next := if buf[src + k] == '\\' && buf[src + k + 1] != '\0' then k + 2 else k + 1;
            && next <= |s| && DelimAt(s[k..], delim) == next - k + DelimAt(s[next..], delim)
            && At(buf, src, s, next)
  {
    DelimNext(s, delim, k);
    HoldsAt(buf, src, s, k);
    HoldsAt(buf, src, s, k + 1);
    if k + 1 < |s| {
      HoldsAt(buf, src, s, k + 2);
    }
  }

  /** Place k of the text, or its end. */
  ghost predicate At(buf: seq<char>, src: nat, s: string, k: nat) {
    && k <= |s| && src + k < |buf|
    && (buf[src + k] == '\0' <==> k == |s|)
    && (k < |s| ==> buf[src + k] == s[k])
  }

  lemma DelimFound(s: string, delim: char)
    requires s != "" && s[0] == delim
    ensures DelimAt(s, delim) == 0
  {
  }

  /** The scan for the delimiter: end runs over the text, two places at a time
      over an escaped character. */
  method FindDelim(buf: array<char>, src: nat, delim: char, ghost s: string) returns (end: nat)
    requires Holds(buf[..], src, s) && delim != '\0'
    ensures end == src + DelimAt(s, delim) && end < buf.Length
    ensures buf[end] == delim <==> DelimAt(s, delim) < |s|
  {
    hide Holds, DelimAt;
    end := src;
    ghost var k, text := 0, buf[..];
    HoldsAt(text, src, s, 0);
    assert s[0..] == s;
    while buf[end] != '\0' && buf[end] != delim
      invariant end == src + k && At(text, src, s, k)
      invariant DelimAt(s, delim) == k + DelimAt(s[k..], delim)
      decreases |s| - k
    {
      DelimTurn(text, src, s, delim, k);
      ghost var next := if text[src + k] == '\\' && text[src + k + 1] != '\0' then k + 2 else k + 1;
      if buf[end] == '\\' && buf[end + 1] != '\0' {
        end := end + 1;
      }
      end := end + 1;
      k := next;
    }
    if k < |s| {
      DelimFound(s[k..], delim);
    }
  }

  /** pstrcpy of a text that fits. */
  method CopyText(dst: array<char>, buf: array<char>, src: nat, l: nat, ghost s: string)
    requires Holds(buf[..], src, s) && l == |s| < dst.Length && dst != buf
    modifies dst
    ensures Holds(dst[..], 0, s)
  {
    forall i | 0 <= i <= l {
      dst[i] := if i < l then buf[src + i] else '\0';
    }
    assert dst[0..l] == buf[..][src..src + l];
  }

  /** qemu_rbd_next_tok: cuts the text at the delimiter, by a null in its place,
      and copies the token out when it is neither empty nor too long. */
  method NextTok(dst: array<char>, dstLen: nat, buf: array<char>, src: nat, delim: char, ghost s: string)
    returns (ok: bool, p: Option<nat>)
    requires Holds(buf[..], src, s) && dstLen <= dst.Length && dst != buf && delim != '\0'
    modifies dst, buf
    ensures var n := DelimAt(s, delim);
            && ok == (0 < n < dstLen)
            && (ok ==> Holds(dst[..], 0, s[..n]))
            && (if n < |s| then p == Some(src + n + 1) && Holds(buf[..], src + n + 1, s[n + 1..]) else p == None)
  {
    hide Holds, DelimAt;
    p := None;
    ghost var n := DelimAt(s, delim);
    var end := FindDelim(buf, src, delim, s);
    if buf[end] == delim {
      HoldsCut(buf[..], src, s, n);
      ghost var was := buf[..];
      p := Some(end + 1);
      buf[end] := '\0';
      assert buf[..] == was[end := '\0'];
    } else {
      assert s[..n] == s;
    }
    var l := StrLen(buf, src, s[..n]);
    if l >= dstLen || l == 0 {
      return false, p;
    }
    CopyText(dst, buf, src, l, s[..n]);
    ok := true;
  }

  /** One turn of the unescape loop: what the read position stands for. */
  lemma UnescapeNext(s: string, k: nat)
    requires k < |s|
    ensures var hidden := s[k] == '\\' && k + 1 < |s|;
            var c, next := if hidden then s[k + 1] else s[k], if hidden then k + 2 else k + 1;
            Unescaped(s[k..]) == [c] + Unescaped(s[next..])
  {
    var rest := s[k..];
    assert rest[1..] == s[k + 1..];
    if k + 1 < |s| {
      assert rest[2..] == s[k + 2..];
    }
  }

  /** One turn of the loop: a hidden character is stepped to, and the character
      at the read position moves to the write position. */
  method UnescapeTurn(buf: array<char>, p: nat, src0: nat, ghost s: string) returns (src: nat)
    requires p <= src0 < |s| < buf.Length && Holds(buf[..], src0, s[src0..])
    modifies buf
    ensures src0 < src <= |s| && Holds(buf[..], src, s[src..])
    ensures buf[..p] == old(buf[..p])
    ensures Unescaped(s[src0..]) == [buf[p]] + Unescaped(s[src..])
    ensures buf[src] == '\0' <==> src == |s|
  {
    ghost var was, rest := buf[..], s[src0..];
    UnescapeNext(s, src0);
    HoldsAt(was, src0, rest, 0);
    HoldsAt(was, src0, rest, 1);
    src := src0;
    if buf[src] == '\\' && buf[src + 1] != '\0' {
      HoldsAt(was, src0, rest, 2);
      src := src + 1;
    }
    assert rest[src + 1 - src0..] == s[src + 1..];
    HoldsBehind(was, p, was[src], src + 1, s[src + 1..]);
    HoldsAt(was[p := was[src]], src + 1, s[src + 1..], 0);
    buf[p] := buf[src];
    assert buf[..] == was[p := was[src]];
    src := src + 1;
  }

  lemma Moved(done: string, c: char, rest: string, whole: string)
    requires done + ([c] + rest) == whole
    ensures done + [c] + rest == whole
  {
    assert done + ([c] + rest) == done + [c] + rest;
  }

  /** qemu_rbd_unescape, in place: the write position never passes the read
      position. */
  method Unescape(buf: array<char>, ghost s: string)
    requires Holds(buf[..], 0, s)
    modifies buf
    ensures Holds(buf[..], 0, Unescaped(s))
  {
    var src, p := 0, 0;
    ghost var done := "";
    HoldsAt(buf[..], 0, s, 0);
    assert s[0..] == s;
    while buf[src] != '\0'
      invariant 0 <= p <= src <= |s| < buf.Length
      invariant Holds(buf[..], src, s[src..])
      invariant buf[src] == '\0' <==> src == |s|
      invariant buf[..p] == done && done + Unescaped(s[src..]) == Unescaped(s)
      decreases |s| - src
    {
      src := UnescapeTurn(buf, p, src, s);
      Moved(done, buf[p], Unescaped(s[src..]), Unescaped(s));
      done := done + [buf[p]];
      p := p + 1;
    }
    assert s[src..] == "";
    UnescapedClean(s);
    buf[p] := '\0';
    assert buf[..][0..p] == Unescaped(s);
  }

  lemma {:induction false} UnescapedClean(s: string)
    requires '\0' !in s
    ensures '\0' !in Unescaped(s)
  {
    if s != "" {
      assert s[0] in s;
      if |s| > 1 {
        assert s[1] in s;
        UnescapedClean(s[2..]);
      }
      UnescapedClean(s[1..]);
    }
  }

  // ----- the option loop -----

  datatype Pair = Pair(name: string, value: string)

  /** The pairs in front of the first malformed one, and whether there is one. */
  datatype Parse = Parse(pairs: seq<Pair>, bad: bool)

  predicate TokenFits(token: string, size: nat) {
    0 < |token| < size
  }

  function ParsePairs(s: string): Parse
    decreases |s|
  {
    var n := DelimAt(s, '=');
    if n == |s| || !TokenFits(s[..n], RBD_MAX_CONF_NAME_SIZE) then Parse([], true)
    else
      var t := s[n + 1..];
      var m := DelimAt(t, ':');
      if !TokenFits(t[..m], RBD_MAX_CONF_VAL_SIZE) then Parse([], true)
      else
        var first := Pair(Unescaped(s[..n]), Unescaped(t[..m]));
        if m == |t| then Parse([first], false)
        else
          var more := ParsePairs(t[m + 1..]);
          Parse([first] + more.pairs, more.bad)
  }

  /** A call into librados. */
  datatype Action = ReadFile(path: string) | SetOption(name: string, value: string)

  /** What librados answers to the calls. */
  datatype Rados = Rados(readFile: string -> int, setOption: (string, string) -> int)

  function ActionsOf(p: Pair): seq<Action> {
    if p.name == "conf" then [ReadFile(p.value)]
    else if p.name == "id" then []
    else [SetOption(p.name, p.value)]
  }

  /** The return value that a pair leaves behind. */
  function ResultOf(p: Pair, rados: Rados): int {
    if p.name == "conf" then rados.readFile(p.value)
    else if p.name == "id" then 0
    else if rados.setOption(p.name, p.value) < 0 then -EINVAL
    else rados.setOption(p.name, p.value)
  }

  /** The calls made for the pairs, up to the first that fails, and the result. */
  function Executed(parse: Parse, rados: Rados, last: int): (seq<Action>, int)
    decreases |parse.pairs|
  {
    if parse.pairs == [] then ([], if parse.bad then -EINVAL else last)
    else
      var p := parse.pairs[0];
      var r := ResultOf(p, rados);
      if r < 0 then (ActionsOf(p), r)
      else
        var (actions, result) := Executed(Parse(parse.pairs[1..], parse.bad), rados, r);
        (ActionsOf(p) + actions, result)
  }

  /** The call that a pair asks for: none for "id", which is read elsewhere. */
  predicate IsCall(call: Action, p: Pair) {
    call == if p.name == "conf" then ReadFile(p.value) else SetOption(p.name, p.value)
  }

  /** These are the calls for the first k pairs, in order: one for each pair that is not
      an "id", at[j] being the place of the pair of call j. */
  predicate CallsFor(pairs: seq<Pair>, k: nat, calls: seq<Action>, at: seq<nat>) {
    && k <= |pairs| && |at| == |calls|
    && (forall i, j | 0 <= i < j < |at| :: at[i] < at[j])
    && (forall j | 0 <= j < |at| :: at[j] < k && pairs[at[j]].name != "id" && IsCall(calls[j], pairs[at[j]]))
    && (forall i | 0 <= i < k && pairs[i].name != "id" :: i in at)
  }

  /** librados refuses the call for this pair. */
  predicate IsRefused(p: Pair, rados: Rados) {
    if p.name == "conf" then rados.readFile(p.value) < 0
    else p.name != "id" && rados.setOption(p.name, p.value) < 0
  }

  predicate FirstRefused(pairs: seq<Pair>, rados: Rados, f: nat) {
    f < |pairs| && IsRefused(pairs[f], rados) && forall i | 0 <= i < f :: !IsRefused(pairs[i], rados)
  }

  /** What librados answers for the last pair. */
  function LastAnswer(pairs: seq<Pair>, rados: Rados): int {
    if pairs == [] || pairs[|pairs| - 1].name == "id" then 0
    else
      var p := pairs[|pairs| - 1];
      if p.name == "conf" then rados.readFile(p.value) else rados.setOption(p.name, p.value)
  }

  /** The calls are those for the first k pairs. */
  ghost predicate Calls(pairs: seq<Pair>, k: nat, calls: seq<Action>) {
    exists at :: CallsFor(pairs, k, calls, at)
  }

  /** The calls go up to the first refused one, which gives the result; with none
      refused there is one for every pair, and the result is a syntax error if there is
      one behind them, or else the last answer. */
  ghost predicate Carried(parse: Parse, rados: Rados, calls: seq<Action>, ret: int) {
    var pairs := parse.pairs;
    && (forall f: nat | FirstRefused(pairs, rados, f) ::
          && Calls(pairs, f + 1, calls)
          && ret == if pairs[f].name == "conf" then rados.readFile(pairs[f].value) else -22)
    && ((forall i | 0 <= i < |pairs| :: !IsRefused(pairs[i], rados)) ==>
          && Calls(pairs, |pairs|, calls)
          && ret == if parse.bad then -22 else LastAnswer(pairs, rados))
  }

  /** The places of the calls, with one more pair in front. */
  function Shifted(p: Pair, at: seq<nat>): (r: seq<nat>)
    ensures |r| == |at| + Ahead(p)
    ensures forall j | 0 <= j < |r| :: r[j] == if j < Ahead(p) then 0 else at[j - Ahead(p)] + 1
  {
    (if p.name == "id" then [] else [0]) + seq(|at|, i requires 0 <= i < |at| => at[i] + 1)
  }

  /** The number of calls for a pair. */
  function Ahead(p: Pair): (n: nat)
    ensures n == |ActionsOf(p)| && n <= 1
  {
    if p.name == "id" then 0 else 1
  }

  lemma CallsFound(pairs: seq<Pair>, k: nat, at: seq<nat>, i: nat)
    requires i < k + 1 && k < |pairs| && pairs[i].name != "id"
    requires forall i | 0 <= i < k && pairs[1..][i].name != "id" :: i in at
    ensures i in Shifted(pairs[0], at)
  {
    var more := Shifted(pairs[0], at);
    if i == 0 {
      assert more[0] == 0;
    } else {
      assert pairs[1..][i - 1] == pairs[i];
      var j :| 0 <= j < |at| && at[j] == i - 1;
      assert more[j + Ahead(pairs[0])] == i;
    }
  }

  lemma CallsMade(pairs: seq<Pair>, k: nat, calls: seq<Action>, at: seq<nat>, j: nat)
    requires pairs != [] && CallsFor(pairs[1..], k, calls, at) && j < |Shifted(pairs[0], at)|
    ensures var i := Shifted(pairs[0], at)[j];
            && i < k + 1 <= |pairs| && pairs[i].name != "id"
            && j < |ActionsOf(pairs[0]) + calls| && IsCall((ActionsOf(pairs[0]) + calls)[j], pairs[i])
  {
  }

  lemma CallsNext(pairs: seq<Pair>, k: nat, calls: seq<Action>, at: seq<nat>)
    requires pairs != [] && CallsFor(pairs[1..], k, calls, at)
    ensures CallsFor(pairs, k + 1, ActionsOf(pairs[0]) + calls, Shifted(pairs[0], at))
  {
    hide Shifted, IsCall, ActionsOf;
    var p, more, all, n := pairs[0], Shifted(pairs[0], at), ActionsOf(pairs[0]) + calls, k + 1;
    forall i | 0 <= i < n && pairs[i].name != "id" ensures i in more {
      CallsFound(pairs, k, at, i);
    }
    forall j | 0 <= j < |more| ensures more[j] < n && pairs[more[j]].name != "id" && IsCall(all[j], pairs[more[j]]) {
      CallsMade(pairs, k, calls, at, j);
    }
  }

  lemma RefusedRest(pairs: seq<Pair>, rados: Rados, f: nat)
    requires FirstRefused(pairs, rados, f) && f > 0
    ensures FirstRefused(pairs[1..], rados, f - 1) && pairs[1..][f - 1] == pairs[f]
  {
  }

  lemma CallsOne(pairs: seq<Pair>)
    requires pairs != []
    ensures CallsFor(pairs, 1, ActionsOf(pairs[0]), Shifted(pairs[0], []))
  {
    CallsNext(pairs, 0, [], []);
    assert ActionsOf(pairs[0]) + [] == ActionsOf(pairs[0]);
  }

  /** The last answer, if something was answered before. */
  function AnswerAfter(last: int, pairs: seq<Pair>, rados: Rados): int {
    if pairs == [] then last else LastAnswer(pairs, rados)
  }

  lemma {:induction false} ExecutedCalls(parse: Parse, rados: Rados, last: int) returns (at: seq<nat>)
    ensures var (calls, ret) := Executed(parse, rados, last);
            var pairs := parse.pairs;
            && (forall f: nat | FirstRefused(pairs, rados, f) ::
                  && CallsFor(pairs, f + 1, calls, at)
                  && ret == if pairs[f].name == "conf" then rados.readFile(pairs[f].value) else -22)
            && ((forall i | 0 <= i < |pairs| :: !IsRefused(pairs[i], rados)) ==>
                  && CallsFor(pairs, |pairs|, calls, at)
                  && ret == if parse.bad then -22 else AnswerAfter(last, pairs, rados))
    decreases |parse.pairs|
  {
    hide CallsFor, Shifted, ActionsOf;
    var pairs := parse.pairs;
    if pairs == [] {
      at := [];
      CallsNone();
    } else if ResultOf(pairs[0], rados) < 0 {
      at := Shifted(pairs[0], []);
      CallsOne(pairs);
    } else {
      var rest := Parse(pairs[1..], parse.bad);
      var r := ResultOf(pairs[0], rados);
      var more := ExecutedCalls(rest, rados, r);
      var calls := Executed(rest, rados, r).0;
      at := Shifted(pairs[0], more);
      forall f: nat | FirstRefused(pairs, rados, f)
        ensures CallsFor(pairs, f + 1, ActionsOf(pairs[0]) + calls, at)
        ensures Executed(rest, rados, r).1 == if pairs[f].name == "conf" then rados.readFile(pairs[f].value) else -22
      {
        if f > 0 {
          RefusedRest(pairs, rados, f);
          CallsNext(pairs, f, calls, more);
        }
      }
      if forall i | 0 <= i < |pairs| :: !IsRefused(pairs[i], rados) {
        assert forall i | 0 <= i < |rest.pairs| :: rest.pairs[i] == pairs[i + 1];
        CallsNext(pairs, |rest.pairs|, calls, more);
      }
    }
  }

  lemma CallsNone()
    ensures CallsFor([], 0, [], [])
  {
  }

  lemma ExecutedCarried(parse: Parse, rados: Rados)
    ensures Carried(parse, rados, Executed(parse, rados, 0).0, Executed(parse, rados, 0).1)
  {
    hide CallsFor, Executed, FirstRefused, IsRefused;
    var at := ExecutedCalls(parse, rados, 0);
  }

  /** With these calls made and that result, the pairs that are left lead to the
      given end. */
  ghost predicate LeadsTo(actions: seq<Action>, last: int, left: Parse, rados: Rados, end: (seq<Action>, int)) {
    var (more, result) := Executed(left, rados, last);
    (actions + more, result) == end
  }

  lemma LeadsToStart(left: Parse, rados: Rados)
    ensures LeadsTo([], 0, left, rados, Executed(left, rados, 0))
  {
    var (more, result) := Executed(left, rados, 0);
    assert [] + more == more;
  }

  lemma LeadsToNext(actions: seq<Action>, last: int, p: Pair, more: Parse, rados: Rados, end: (seq<Action>, int))
    requires LeadsTo(actions, last, Parse([p] + more.pairs, more.bad), rados, end)
    ensures var r := ResultOf(p, rados);
            if r < 0 then end == (actions + ActionsOf(p), r) else LeadsTo(actions + ActionsOf(p), r, more, rados, end)
  {
    assert ([p] + more.pairs)[1..] == more.pairs;
    var r := ResultOf(p, rados);
    if r >= 0 {
      var (calls, _) := Executed(more, rados, r);
      assert actions + (ActionsOf(p) + calls) == actions + ActionsOf(p) + calls;
    }
  }

  lemma LeadsToEnd(actions: seq<Action>, last: int, bad: bool, rados: Rados, end: (seq<Action>, int))
    requires LeadsTo(actions, last, Parse([], bad), rados, end)
    ensures end == (actions, if bad then -EINVAL else last)
  {
    assert actions + [] == actions;
  }

  /** Acting on one pair, as the end of the loop body does. */
  method Act(p: Pair, rados: Rados) returns (actions: seq<Action>, ret: int)
    ensures actions == ActionsOf(p) && ret == ResultOf(p, rados)
  {
    actions, ret := [], 0;
    if p.name == "conf" {
      actions := [ReadFile(p.value)];
      ret := rados.readFile(p.value);
    } else if p.name == "id" {
    } else {
      actions := [SetOption(p.name, p.value)];
      ret := rados.setOption(p.name, p.value);
      if ret < 0 {
        ret := -EINVAL;
      }
    }
  }

  /** The text that starts at the beginning of a buffer. */
  method TextOf(buf: array<char>, ghost s: string) returns (r: string)
    requires Holds(buf[..], 0, s)
    ensures r == s
  {
    var l := StrLen(buf, 0, s);
    r := buf[..l];
    assert r == buf[..][0..0 + |s|];
  }

  /** g_strdup */
  method Duplicate(s: string) returns (buf: array<char>)
    requires '\0' !in s
    ensures fresh(buf) && Holds(buf[..], 0, s)
  {
    buf := new char[|s| + 1](i requires 0 <= i <= |s| => if i < |s| then s[i] else '\0');
    assert buf[..][0..|s|] == s;
  }

  /** The first pair of s is complete, and t is what follows it, if anything. */
  ghost predicate FirstPair(s: string, pair: Pair, more: bool, t: string) {
    var n := DelimAt(s, '=');
    && n < |s| && TokenFits(s[..n], RBD_MAX_CONF_NAME_SIZE)
    && var v := s[n + 1..];
       var m := DelimAt(v, ':');
       && TokenFits(v[..m], RBD_MAX_CONF_VAL_SIZE)
       && pair == Pair(Unescaped(s[..n]), Unescaped(v[..m]))
       && more == (m < |v|) && (more ==> t == v[m + 1..])
  }

  /** There is no complete first pair. */
  ghost predicate Malformed(s: string) {
    var n := DelimAt(s, '=');
    || n == |s| || !TokenFits(s[..n], RBD_MAX_CONF_NAME_SIZE)
    || !TokenFits(s[n + 1..][..DelimAt(s[n + 1..], ':')], RBD_MAX_CONF_VAL_SIZE)
  }

  /** What is left after a pair. */
  function ParseRest(more: bool, t: string): Parse {
    if more then ParsePairs(t) else Parse([], false)
  }

  lemma ParseFirst(s: string, pair: Pair, more: bool, t: string)
    requires FirstPair(s, pair, more, t)
    ensures more ==> |t| < |s|
    ensures ParsePairs(s) == Parse([pair] + ParseRest(more, t).pairs, ParseRest(more, t).bad)
  {
    assert [pair] + [] == [pair];
  }

  lemma ParseMalformed(s: string)
    requires Malformed(s)
    ensures ParsePairs(s) == Parse([], true)
  {
  }

  /** One token, unescaped in its own buffer. */
  method NextText(dst: array<char>, dstLen: nat, buf: array<char>, src: nat, delim: char, ghost s: string)
    returns (ok: bool, text: string, p: Option<nat>, ghost t: string)
    requires Holds(buf[..], src, s) && dst != buf && dstLen <= dst.Length && delim != '\0'
    modifies dst, buf
    ensures ok == (0 < DelimAt(s, delim) < dstLen)
    ensures ok ==> text == Unescaped(s[..DelimAt(s, delim)])
    ensures p.Some? <==> DelimAt(s, delim) < |s|
    ensures p.Some? ==> t == s[DelimAt(s, delim) + 1..] && Holds(buf[..], p.value, t)
  {
    hide Holds, DelimAt, Unescaped;
    ghost var n := DelimAt(s, delim);
    t := if n < |s| then s[n + 1..] else "";
    text := "";
    ok, p := NextTok(dst, dstLen, buf, src, delim, s);
    if !ok {
      return;
    }
    ghost var was := buf[..];
    Unescape(dst, s[..n]);
    assert buf[..] == was;
    text := TextOf(dst, Unescaped(s[..n]));
  }

  /** The two tokens of a pair. */
  method NextPair(name: array<char>, value: array<char>, buf: array<char>, src: nat, ghost s: string)
    returns (ok: bool, pair: Pair, p: Option<nat>, ghost t: string)
    requires Holds(buf[..], src, s) && name != buf && value != buf && name != value
    requires name.Length == RBD_MAX_CONF_NAME_SIZE && value.Length == RBD_MAX_CONF_VAL_SIZE
    modifies name, value, buf
    ensures !ok ==> Malformed(s)
    ensures ok ==> FirstPair(s, pair, p.Some?, t)
    ensures ok && p.Some? ==> Holds(buf[..], p.value, t)
  {
    pair := Pair("", "");
    var nameText, valueText;
    ok, nameText, p, t := NextText(name, RBD_MAX_CONF_NAME_SIZE, buf, src, '=', s);
    if !ok {
      return;
    }
    if p.None? {
      ok := false;
      return;
    }
    ok, valueText, p, t := NextText(value, RBD_MAX_CONF_VAL_SIZE, buf, p.value, ':', t);
    if !ok {
      return;
    }
    pair := Pair(nameText, valueText);
  }

  /** qemu_rbd_set_conf */
  method SetConf(conf: string, rados: Rados) returns (actions: seq<Action>, ret: int)
    requires '\0' !in conf
    ensures (actions, ret) == Executed(ParsePairs(conf), rados, 0)
    ensures Carried(ParsePairs(conf), rados, actions, ret)
  {
    hide Carried;
    ExecutedCarried(ParsePairs(conf), rados);
    var buf := Duplicate(conf);
    var name, value := new char[RBD_MAX_CONF_NAME_SIZE], new char[RBD_MAX_CONF_VAL_SIZE];
    var p := Some(0);
    ghost var left, end := conf, Executed(ParsePairs(conf), rados, 0);
    LeadsToStart(ParsePairs(conf), rados);
    actions, ret := [], 0;
    while p.Some?
      invariant fresh(buf) && fresh(name) && fresh(value) && name != buf && value != buf && name != value
      invariant p.Some? ==> Holds(buf[..], p.value, left)
      invariant LeadsTo(actions, ret, ParseRest(p.Some?, left), rados, end)
      decreases if p.Some? then |left| + 1 else 0
    {
      var ok, pair;
      ghost var t;
      ok, pair, p, t := NextPair(name, value, buf, p.value, left);
      if !ok {
        ParseMalformed(left);
        LeadsToEnd(actions, ret, true, rados, end);
        ret := -EINVAL;
        return;
      }
      ParseFirst(left, pair, p.Some?, t);
      LeadsToNext(actions, ret, pair, ParseRest(p.Some?, t), rados, end);
      var more;
      more, ret := Act(pair, rados);
      actions := actions + more;
      if ret < 0 {
        return;
      }
      left := t;
    }
    LeadsToEnd(actions, ret, false, rados, end);
  }
}
