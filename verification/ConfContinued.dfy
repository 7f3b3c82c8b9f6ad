/** What load_from_buffer makes of whole texts: continued lines, refused lines, and
    a last line without a newline. */
module ConfContinued {
  import opened ConfLines
  import opened ConfRoundTrip
  import opened ConfShrink
  import opened ConfUtils
  import opened Ordered

  /** No line is open at the end of the text: it is empty, or ends with a newline that
      no backslash is in front of. */
  predicate AtBoundary(pre: string) {
    pre == "" || (pre[|pre| - 1] == '\n' && (|pre| == 1 || pre[|pre| - 2] != '\\'))
  }

  /** A line that is ignored, with a complaint. */
  predicate Refused(line: string, isUtf8: string -> bool) {
    '\0' in line || !isUtf8(line)
  }

  function Reason(line: string): ParseError {
    if '\0' in line then EmbeddedNull else NotUtf8
  }

  function Faults(complaints: seq<Complaint>): (r: seq<ParseError>)
    ensures |r| == |complaints| && forall i | 0 <= i < |r| :: r[i] == complaints[i].error
  {
    seq(|complaints|, i requires 0 <= i < |complaints| => complaints[i].error)
  }

  // ----- texts are lines -----

  lemma {:induction false} NewlineBeyond(a: string, b: string)
    requires '\n' !in a
    ensures NewlineAt(a + b) == |a| + NewlineAt(b)
  {
    if a == "" {
      assert a + b == b;
    } else {
      assert (a + b)[0] == a[0] && (a + b)[1..] == a[1..] + b;
      NewlineBeyond(a[1..], b);
    }
  }

  lemma LinesOne(line: string, rest: string)
    requires '\n' !in line
    ensures Lines(line + "\n" + rest) == [line] + Lines(rest)
  {
    LinesCons(line, rest);
  }

  /** Text behind a newline is read on its own. */
  lemma {:induction false} LinesAppend(pre: string, x: string)
    requires pre == "" || pre[|pre| - 1] == '\n'
    ensures Lines(pre + x) == Lines(pre) + Lines(x)
    decreases |pre|
  {
    hide Lines;
    if pre == "" {
      NoLines();
      assert pre + x == x;
    } else {
      var n := NewlineAt(pre);
      var line, rest := pre[..n], pre[n + 1..];
      assert pre == line + "\n" + rest;
      assert pre + x == line + "\n" + (rest + x);
      LinesOne(line, rest);
      LinesOne(line, rest + x);
      LinesAppend(rest, x);
    }
  }

  lemma LinesTail(tail: string)
    requires '\n' !in tail
    ensures Lines(tail) == []
  {
    assert tail + "" == tail;
    NewlineBeyond(tail, "");
  }

  lemma {:induction false} LogicalAppend(a: seq<string>, b: seq<string>, acc: string, isUtf8: string -> bool)
    ensures Logical(a + b, acc, isUtf8) == Logical(a, acc, isUtf8) + Logical(b, Pending(a, acc, isUtf8), isUtf8)
    ensures Pending(a + b, acc, isUtf8) == Pending(b, Pending(a, acc, isUtf8), isUtf8)
    decreases |a|
  {
    hide Classify;
    if a == [] {
      assert a + b == b;
    } else {
      assert (a + b)[0] == a[0] && (a + b)[1..] == a[1..] + b;
      match Classify(a[0], isUtf8) {
        case Dropped(_) => LogicalAppend(a[1..], b, "", isUtf8);
        case Continued(text) => LogicalAppend(a[1..], b, acc + text, isUtf8);
        case Ended(_) => LogicalAppend(a[1..], b, "", isUtf8);
      }
    }
  }

  lemma {:induction false} ComplaintsAppend(a: seq<string>, b: seq<string>, acc: string, before: nat,
                                            isUtf8: string -> bool)
    ensures Complaints(a + b, acc, before, isUtf8)
         == Complaints(a, acc, before, isUtf8) + Complaints(b, Pending(a, acc, isUtf8), before + |a|, isUtf8)
    decreases |a|
  {
    hide Classify, ParseLine;
    if a == [] {
      assert a + b == b;
    } else {
      assert (a + b)[0] == a[0] && (a + b)[1..] == a[1..] + b;
      match Classify(a[0], isUtf8) {
        case Dropped(_) => ComplaintsAppend(a[1..], b, "", before + 1, isUtf8);
        case Continued(text) => ComplaintsAppend(a[1..], b, acc + text, before + 1, isUtf8);
        case Ended(_) => ComplaintsAppend(a[1..], b, "", before + 1, isUtf8);
      }
    }
  }

  /** Behind a boundary, nothing is carried over. */
  lemma {:induction false} LastLine(pre: string)
    requires pre != "" && pre[|pre| - 1] == '\n'
    ensures var lines := Lines(pre);
            && lines != []
            && var last := lines[|lines| - 1];
               && |last| < |pre|
               && (last != "" ==> last[|last| - 1] == pre[|pre| - 2])
    decreases |pre|
  {
    hide Lines;
    var n := NewlineAt(pre);
    var line, rest := pre[..n], pre[n + 1..];
    assert pre == line + "\n" + rest;
    LinesOne(line, rest);
    if rest == "" {
      NoLines();
    } else {
      LastLine(rest);
      assert rest[|rest| - 1] == pre[|pre| - 1];
    }
  }

  lemma {:induction false} EndedLines(lines: seq<string>, acc: string, isUtf8: string -> bool)
    requires lines != []
    requires var last := lines[|lines| - 1]; last == "" || last[|last| - 1] != '\\'
    ensures Pending(lines, acc, isUtf8) == ""
    decreases |lines|
  {
    if |lines| > 1 {
      var next := match Classify(lines[0], isUtf8) case Continued(text) => acc + text case _ => "";
      EndedLines(lines[1..], next, isUtf8);
    } else {
      assert lines[1..] == [];
    }
  }

  lemma BoundaryClear(pre: string, isUtf8: string -> bool)
    requires AtBoundary(pre)
    ensures Pending(Lines(pre), "", isUtf8) == "" && !EndsMidLine(pre)
  {
    if pre == "" {
      NoLines();
    } else {
      LastLine(pre);
      EndedLines(Lines(pre), "", isUtf8);
    }
  }

  /** What is loaded of a text behind a boundary. */
  lemma LoadedBehind(pre: string, x: string, isUtf8: string -> bool)
    requires AtBoundary(pre)
    ensures Loaded(pre + x, isUtf8)
         == Load(Load(FRESH, Logical(Lines(pre), "", isUtf8)), Logical(Lines(x), "", isUtf8)).sections
  {
    hide Load, Logical, Lines, Pending;
    LinesAppend(pre, x);
    BoundaryClear(pre, isUtf8);
    LogicalAppend(Lines(pre), Lines(x), "", isUtf8);
    LoadAppend(FRESH, Logical(Lines(pre), "", isUtf8), Logical(Lines(x), "", isUtf8));
  }

  /** What a text complains about, if it is read from line n on. */
  function ComplaintsFrom(x: string, n: nat, isUtf8: string -> bool): seq<Complaint> {
    Closing(Complaints(Lines(x), "", n, isUtf8), n + |Lines(x)|, EndsMidLine(x), Pending(Lines(x), "", isUtf8))
  }

  lemma MidLineBehind(pre: string, x: string)
    requires pre == "" || pre[|pre| - 1] == '\n'
    ensures EndsMidLine(pre + x) == EndsMidLine(x)
  {
    if x == "" {
      assert pre + x == pre;
    } else {
      assert (pre + x)[|pre + x| - 1] == x[|x| - 1];
    }
  }

  lemma ClosingAppend(a: seq<Complaint>, b: seq<Complaint>, n: nat, midLine: bool, acc: string)
    ensures Closing(a + b, n, midLine, acc) == a + Closing(b, n, midLine, acc)
  {
  }

  lemma ComplaintsBehind(pre: string, x: string, isUtf8: string -> bool)
    requires AtBoundary(pre)
    ensures AllComplaints(pre + x, isUtf8)
         == AllComplaints(pre, isUtf8) + ComplaintsFrom(x, |Lines(pre)|, isUtf8)
  {
    hide Logical, Lines, Pending, Complaints, EndsMidLine;
    var a, b := Lines(pre), Lines(x);
    LinesAppend(pre, x);
    BoundaryClear(pre, isUtf8);
    LogicalAppend(a, b, "", isUtf8);
    ComplaintsAppend(a, b, "", 0, isUtf8);
    MidLineBehind(pre, x);
    ClosingAppend(Complaints(a, "", 0, isUtf8), Complaints(b, "", |a|, isUtf8), |a| + |b|, EndsMidLine(x),
                  Pending(b, "", isUtf8));
  }

  // ----- numbering does not matter -----

  lemma {:induction false} FaultsAnywhere(lines: seq<string>, acc: string, n: nat, m: nat, isUtf8: string -> bool)
    ensures Faults(Complaints(lines, acc, n, isUtf8)) == Faults(Complaints(lines, acc, m, isUtf8))
    decreases |lines|
  {
    hide Classify, ParseLine;
    if lines != [] {
      match Classify(lines[0], isUtf8) {
        case Dropped(_) => FaultsAnywhere(lines[1..], "", n + 1, m + 1, isUtf8);
        case Continued(text) => FaultsAnywhere(lines[1..], acc + text, n + 1, m + 1, isUtf8);
        case Ended(_) => FaultsAnywhere(lines[1..], "", n + 1, m + 1, isUtf8);
      }
    }
  }

  lemma FaultsAppend(a: seq<Complaint>, b: seq<Complaint>)
    ensures Faults(a + b) == Faults(a) + Faults(b)
  {
  }

  // ----- a continued line -----

  /** a, and behind it a backslash and a newline, and then the line b. */
  function Broken(a: string, b: string, post: string): string {
    a + "\\" + "\n" + (b + "\n" + post)
  }

  function Unbroken(a: string, b: string, post: string): string {
    a + b + "\n" + post
  }

  lemma BrokenLines(a: string, b: string, post: string)
    requires '\n' !in a && '\n' !in b
    ensures Lines(Broken(a, b, post)) == [a + "\\"] + ([b] + Lines(post))
    ensures Lines(Unbroken(a, b, post)) == [a + b] + Lines(post)
  {
    hide Lines;
    LinesOne(a + "\\", b + "\n" + post);
    LinesOne(b, post);
    LinesOne(a + b, post);
  }

  /** The line b takes the text in front of it along: both ways the same. */
  predicate Joinable(a: string, b: string, isUtf8: string -> bool) {
    && Clean(a) && Clean(b) && isUtf8(a + "\\") && isUtf8(b) && isUtf8(a + b)
    && (b != "" || a == "" || a[|a| - 1] != '\\')
  }

  lemma JoinedPiece(a: string, b: string, isUtf8: string -> bool)
    requires Joinable(a, b, isUtf8)
    ensures Classify(a + "\\", isUtf8) == Continued(a)
    ensures if b != "" && b[|b| - 1] == '\\' then
              Classify(b, isUtf8) == Continued(b[..|b| - 1]) && Classify(a + b, isUtf8) == Continued(a + b[..|b| - 1])
            else Classify(b, isUtf8) == Ended(b) && Classify(a + b, isUtf8) == Ended(a + b)
  {
    var s := a + "\\";
    assert s[..|s| - 1] == a;
    if b != "" {
      var j := a + b;
      assert j[|j| - 1] == b[|b| - 1] && j[..|j| - 1] == a + b[..|b| - 1];
    } else {
      assert a + b == a;
    }
  }

  lemma ContinuedOne(line: string, text: string, tail: seq<string>, acc: string, n: nat, isUtf8: string -> bool)
    requires Classify(line, isUtf8) == Continued(text)
    ensures Logical([line] + tail, acc, isUtf8) == Logical(tail, acc + text, isUtf8)
    ensures Pending([line] + tail, acc, isUtf8) == Pending(tail, acc + text, isUtf8)
    ensures Complaints([line] + tail, acc, n, isUtf8) == Complaints(tail, acc + text, n + 1, isUtf8)
  {
    hide Classify, ParseLine;
    assert ([line] + tail)[1..] == tail;
  }

  lemma EndedOne(line: string, tail: seq<string>, acc: string, n: nat, isUtf8: string -> bool)
    requires Classify(line, isUtf8) == Ended(line)
    ensures Logical([line] + tail, acc, isUtf8) == [acc + line] + Logical(tail, "", isUtf8)
    ensures Pending([line] + tail, acc, isUtf8) == Pending(tail, "", isUtf8)
    ensures Complaints([line] + tail, acc, n, isUtf8)
         == BadLine(acc + line, n + 1) + Complaints(tail, "", n + 1, isUtf8)
  {
    hide Classify, ParseLine;
    assert ([line] + tail)[1..] == tail;
  }

  lemma BadAnywhere(text: string, n: nat, m: nat)
    ensures Faults(BadLine(text, n)) == Faults(BadLine(text, m))
  {
    hide ParseLine;
  }

  lemma JoinedLogical(a: string, b: string, rest: seq<string>, n: nat, isUtf8: string -> bool)
    requires Joinable(a, b, isUtf8)
    ensures var broken, whole := [a + "\\"] + ([b] + rest), [a + b] + rest;
            && Logical(broken, "", isUtf8) == Logical(whole, "", isUtf8)
            && Pending(broken, "", isUtf8) == Pending(whole, "", isUtf8)
            && Faults(Complaints(broken, "", n, isUtf8)) == Faults(Complaints(whole, "", n, isUtf8))
  {
    hide Classify, ParseLine, Joinable, Logical, Pending, Complaints, BadLine, Faults;
    JoinedPiece(a, b, isUtf8);
    ContinuedOne(a + "\\", a, [b] + rest, "", n, isUtf8);
    NoneBefore(a);
    NoneBefore(a + b);
    if b != "" && b[|b| - 1] == '\\' {
      var c := b[..|b| - 1];
      NoneBefore(a + c);
      ContinuedOne(b, c, rest, a, n + 1, isUtf8);
      ContinuedOne(a + b, a + c, rest, "", n, isUtf8);
      FaultsAnywhere(rest, a + c, n + 2, n + 1, isUtf8);
    } else {
      EndedOne(b, rest, a, n + 1, isUtf8);
      EndedOne(a + b, rest, "", n, isUtf8);
      BadAnywhere(a + b, n + 2, n + 1);
      FaultsAnywhere(rest, "", n + 2, n + 1, isUtf8);
      FaultsAppend(BadLine(a + b, n + 2), Complaints(rest, "", n + 2, isUtf8));
      FaultsAppend(BadLine(a + b, n + 1), Complaints(rest, "", n + 1, isUtf8));
    }
  }

  /** A backslash at the end of a line joins it with the next one: wherever it stands,
      the text loads the same as with the two lines written as one, and complains about
      the same. */
  lemma ContinuedJoins(pre: string, a: string, b: string, post: string, isUtf8: string -> bool)
    requires AtBoundary(pre) && Joinable(a, b, isUtf8)
    ensures Loaded(pre + Broken(a, b, post), isUtf8) == Loaded(pre + Unbroken(a, b, post), isUtf8)
    ensures Faults(AllComplaints(pre + Broken(a, b, post), isUtf8))
         == Faults(AllComplaints(pre + Unbroken(a, b, post), isUtf8))
  {
    hide Loaded, Load, Logical, Lines, Pending, Complaints, Joinable, AtBoundary, EndsMidLine, AllComplaints, Broken,
         Unbroken;
    var x, y := Broken(a, b, post), Unbroken(a, b, post);
    JoinableClean(a, b, isUtf8);
    BrokenLines(a, b, post);
    LoadedBehind(pre, x, isUtf8);
    LoadedBehind(pre, y, isUtf8);
    JoinedLogical(a, b, Lines(post), |Lines(pre)|, isUtf8);
    ComplaintsBehind(pre, x, isUtf8);
    ComplaintsBehind(pre, y, isUtf8);
    JoinedFaults(a, b, post, |Lines(pre)|, isUtf8);
    FaultsAppend(AllComplaints(pre, isUtf8), ComplaintsFrom(x, |Lines(pre)|, isUtf8));
    FaultsAppend(AllComplaints(pre, isUtf8), ComplaintsFrom(y, |Lines(pre)|, isUtf8));
  }

  lemma JoinableClean(a: string, b: string, isUtf8: string -> bool)
    requires Joinable(a, b, isUtf8)
    ensures '\n' !in a && '\n' !in b
  {
  }

  lemma BrokenMidLine(a: string, b: string, post: string)
    ensures EndsMidLine(Broken(a, b, post)) == EndsMidLine(Unbroken(a, b, post)) == EndsMidLine(post)
  {
    MidLineBehind(a + "\\" + "\n" + (b + "\n"), post);
    assert Broken(a, b, post) == a + "\\" + "\n" + (b + "\n") + post;
    MidLineBehind(a + b + "\n", post);
  }

  lemma JoinedFaults(a: string, b: string, post: string, n: nat, isUtf8: string -> bool)
    requires Joinable(a, b, isUtf8)
    ensures Faults(ComplaintsFrom(Broken(a, b, post), n, isUtf8))
         == Faults(ComplaintsFrom(Unbroken(a, b, post), n, isUtf8))
  {
    hide Logical, Lines, Pending, Complaints, Joinable, EndsMidLine, Broken, Unbroken;
    JoinableClean(a, b, isUtf8);
    BrokenLines(a, b, post);
    BrokenMidLine(a, b, post);
    JoinedLogical(a, b, Lines(post), n, isUtf8);
  }

  // ----- a refused line -----

  lemma RefusedPiece(bad: string, isUtf8: string -> bool)
    requires Refused(bad, isUtf8)
    ensures Classify(bad, isUtf8) == Dropped(Reason(bad))
  {
  }

  lemma RefusedLines(bad: string, rest: seq<string>, acc: string, n: nat, isUtf8: string -> bool)
    requires Refused(bad, isUtf8)
    ensures Logical([bad] + rest, acc, isUtf8) == Logical(rest, "", isUtf8)
    ensures Pending([bad] + rest, acc, isUtf8) == Pending(rest, "", isUtf8)
    ensures Complaints([bad] + rest, acc, n, isUtf8)
         == [Complaint(n + 1, Reason(bad))] + Complaints(rest, "", n + 1, isUtf8)
  {
    hide Classify, Refused, Reason;
    RefusedPiece(bad, isUtf8);
    assert ([bad] + rest)[1..] == rest;
  }

  /** Some lines with a backslash at their ends, each with its newline. */
  function Prefixes(parts: seq<string>): string {
    if parts == [] then "" else parts[0] + "\\" + "\n" + Prefixes(parts[1..])
  }

  function Slashed(parts: seq<string>): (r: seq<string>)
    ensures |r| == |parts| && forall i | 0 <= i < |r| :: r[i] == parts[i] + "\\"
  {
    seq(|parts|, i requires 0 <= i < |parts| => parts[i] + "\\")
  }

  /** The parts can be continued. */
  predicate Continuable(parts: seq<string>, isUtf8: string -> bool) {
    forall i | 0 <= i < |parts| :: Clean(parts[i]) && isUtf8(parts[i] + "\\")
  }

  lemma SlashedFirst(parts: seq<string>, rest: seq<string>)
    requires parts != []
    ensures Slashed(parts) + rest == [parts[0] + "\\"] + (Slashed(parts[1..]) + rest)
  {
    assert Slashed(parts) == [parts[0] + "\\"] + Slashed(parts[1..]);
  }

  lemma {:induction false} PrefixesLines(parts: seq<string>, rest: string)
    requires forall i | 0 <= i < |parts| :: '\n' !in parts[i]
    ensures Lines(Prefixes(parts) + rest) == Slashed(parts) + Lines(rest)
  {
    hide Lines;
    if parts == [] {
      assert Prefixes(parts) + rest == rest && Slashed(parts) == [];
    } else {
      var line, more := parts[0] + "\\", Prefixes(parts[1..]) + rest;
      Assoc(line + "\n", Prefixes(parts[1..]), rest);
      LinesOne(line, more);
      PrefixesLines(parts[1..], rest);
      SlashedFirst(parts, Lines(rest));
    }
  }

  function Joined(parts: seq<string>): string {
    if parts == [] then "" else parts[0] + Joined(parts[1..])
  }

  lemma SlashedPiece(part: string, isUtf8: string -> bool)
    requires Clean(part) && isUtf8(part + "\\")
    ensures Classify(part + "\\", isUtf8) == Continued(part)
  {
    var s := part + "\\";
    assert s[..|s| - 1] == part;
  }

  lemma {:induction false} SlashedLines(parts: seq<string>, acc: string, n: nat, isUtf8: string -> bool)
    requires Continuable(parts, isUtf8)
    ensures Logical(Slashed(parts), acc, isUtf8) == [] && Complaints(Slashed(parts), acc, n, isUtf8) == []
    ensures Pending(Slashed(parts), acc, isUtf8) == acc + Joined(parts)
  {
    hide Classify, Clean;
    if parts == [] {
      assert Slashed(parts) == [] && acc + "" == acc;
    } else {
      SlashedPiece(parts[0], isUtf8);
      SlashedFirst(parts, []);
      assert Slashed(parts) + [] == Slashed(parts) && Slashed(parts[1..]) + [] == Slashed(parts[1..]);
      ContinuedOne(parts[0] + "\\", parts[0], Slashed(parts[1..]), acc, n, isUtf8);
      SlashedLines(parts[1..], acc + parts[0], n + 1, isUtf8);
      Assoc(acc, parts[0], Joined(parts[1..]));
    }
  }

  lemma PartsClean(parts: seq<string>, isUtf8: string -> bool)
    requires Continuable(parts, isUtf8)
    ensures forall i | 0 <= i < |parts| :: '\n' !in parts[i]
  {
  }

  /** Lines that are continued into a refused one: all of them are gone. */
  lemma RefusedRun(parts: seq<string>, bad: string, rest: seq<string>, n: nat, isUtf8: string -> bool)
    requires Continuable(parts, isUtf8) && Refused(bad, isUtf8)
    ensures var lines := Slashed(parts) + ([bad] + rest);
            && Logical(lines, "", isUtf8) == Logical(rest, "", isUtf8)
            && Pending(lines, "", isUtf8) == Pending(rest, "", isUtf8)
            && Complaints(lines, "", n, isUtf8)
               == [Complaint(n + |parts| + 1, Reason(bad))] + Complaints(rest, "", n + |parts| + 1, isUtf8)
  {
    hide Logical, Pending, Complaints, Refused, Reason, Continuable, Joined, Classify;
    var slashed, tail := Slashed(parts), [bad] + rest;
    SlashedLines(parts, "", n, isUtf8);
    LogicalAppend(slashed, tail, "", isUtf8);
    ComplaintsAppend(slashed, tail, "", n, isUtf8);
    RefusedLines(bad, rest, Pending(slashed, "", isUtf8), n + |parts|, isUtf8);
    NoneBefore(Logical(rest, "", isUtf8));
    NoneBefore(Complaints(tail, Pending(slashed, "", isUtf8), n + |parts|, isUtf8));
  }

  lemma NoneBefore<T>(s: seq<T>)
    ensures [] + s == s
  {
  }

  /** Lines that are continued into a line, and what follows it. */
  function Written(parts: seq<string>, bad: string, post: string): string {
    Prefixes(parts) + (bad + "\n" + post)
  }

  lemma WrittenLines(parts: seq<string>, bad: string, post: string)
    requires '\n' !in bad && forall i | 0 <= i < |parts| :: '\n' !in parts[i]
    ensures Lines(Written(parts, bad, post)) == Slashed(parts) + ([bad] + Lines(post))
    ensures EndsMidLine(Written(parts, bad, post)) == EndsMidLine(post)
  {
    hide Lines, Prefixes, EndsMidLine;
    PrefixesLines(parts, bad + "\n" + post);
    LinesOne(bad, post);
    MidLineBehind(Prefixes(parts) + (bad + "\n"), post);
    assert Written(parts, bad, post) == Prefixes(parts) + (bad + "\n") + post;
  }

  lemma SpoiledComplaints(parts: seq<string>, bad: string, post: string, n: nat, isUtf8: string -> bool)
    requires Continuable(parts, isUtf8) && '\n' !in bad && Refused(bad, isUtf8)
    ensures ComplaintsFrom(Written(parts, bad, post), n, isUtf8)
         == [Complaint(n + |parts| + 1, Reason(bad))] + ComplaintsFrom(post, n + |parts| + 1, isUtf8)
  {
    hide Lines, Logical, Pending, Complaints, Refused, Reason, Continuable, Written, EndsMidLine, Closing;
    PartsClean(parts, isUtf8);
    WrittenLines(parts, bad, post);
    RefusedRun(parts, bad, Lines(post), n, isUtf8);
    var m := n + |parts| + 1;
    ClosingAppend([Complaint(m, Reason(bad))], Complaints(Lines(post), "", m, isUtf8), m + |Lines(post)|,
                  EndsMidLine(post), Pending(Lines(post), "", isUtf8));
  }

  /** A refused line takes along what is continued into it, and that is all: with one
      complaint, under its own number, the text loads as if those lines were not there. */
  lemma RefusedIgnored(pre: string, parts: seq<string>, bad: string, post: string, isUtf8: string -> bool)
    requires AtBoundary(pre) && Continuable(parts, isUtf8) && '\n' !in bad && Refused(bad, isUtf8)
    ensures Loaded(pre + Written(parts, bad, post), isUtf8) == Loaded(pre + post, isUtf8)
    ensures var n := |Lines(pre)| + |parts| + 1;
            AllComplaints(pre + Written(parts, bad, post), isUtf8)
            == AllComplaints(pre, isUtf8) + ([Complaint(n, Reason(bad))] + ComplaintsFrom(post, n, isUtf8))
  {
    hide Loaded, Load, Logical, Lines, Pending, Complaints, AtBoundary, EndsMidLine, AllComplaints, Refused, Reason,
         Continuable, Written, ComplaintsFrom;
    var x := Written(parts, bad, post);
    PartsClean(parts, isUtf8);
    WrittenLines(parts, bad, post);
    RefusedRun(parts, bad, Lines(post), |Lines(pre)|, isUtf8);
    LoadedBehind(pre, x, isUtf8);
    LoadedBehind(pre, post, isUtf8);
    ComplaintsBehind(pre, x, isUtf8);
    SpoiledComplaints(parts, bad, post, |Lines(pre)|, isUtf8);
  }

  // ----- a line that ends -----

  /** A line that ends here. */
  predicate Ending(line: string, isUtf8: string -> bool) {
    Clean(line) && isUtf8(line) && (line == "" || line[|line| - 1] != '\\')
  }

  function BadLine(text: string, n: nat): seq<Complaint> {
    match ParseLine(text)
    case Bad(error) => [Complaint(n, error)]
    case _ => []
  }

  lemma EndingPiece(line: string, isUtf8: string -> bool)
    requires Ending(line, isUtf8)
    ensures Classify(line, isUtf8) == Ended(line)
  {
  }

  /** Lines that are continued into one that ends are one logical line. */
  lemma EndedRun(parts: seq<string>, line: string, text: string, rest: seq<string>, n: nat, isUtf8: string -> bool)
    requires Continuable(parts, isUtf8) && Ending(line, isUtf8) && text == Joined(parts) + line
    ensures var lines := Slashed(parts) + ([line] + rest);
            && Logical(lines, "", isUtf8) == [text] + Logical(rest, "", isUtf8)
            && Pending(lines, "", isUtf8) == Pending(rest, "", isUtf8)
            && Complaints(lines, "", n, isUtf8)
               == BadLine(text, n + |parts| + 1) + Complaints(rest, "", n + |parts| + 1, isUtf8)
  {
    hide Logical, Pending, Complaints, Ending, BadLine, Continuable, Joined, Classify;
    var slashed, tail := Slashed(parts), [line] + rest;
    SlashedLines(parts, "", n, isUtf8);
    NoneBefore(Joined(parts));
    LogicalAppend(slashed, tail, "", isUtf8);
    ComplaintsAppend(slashed, tail, "", n, isUtf8);
    EndingPiece(line, isUtf8);
    EndedOne(line, rest, Joined(parts), n + |parts|, isUtf8);
    NoneBefore([text] + Logical(rest, "", isUtf8));
    NoneBefore(Complaints(tail, Joined(parts), n + |parts|, isUtf8));
  }

  lemma EndedComplaints(parts: seq<string>, line: string, text: string, post: string, n: nat, isUtf8: string -> bool)
    requires Continuable(parts, isUtf8) && Ending(line, isUtf8) && text == Joined(parts) + line
    ensures ComplaintsFrom(Written(parts, line, post), n, isUtf8)
         == BadLine(text, n + |parts| + 1) + ComplaintsFrom(post, n + |parts| + 1, isUtf8)
  {
    hide Lines, Logical, Pending, Complaints, Ending, BadLine, Continuable, Written, EndsMidLine, Closing,
         Joined;
    PartsClean(parts, isUtf8);
    EndingClean(line, isUtf8);
    WrittenLines(parts, line, post);
    EndedRun(parts, line, text, Lines(post), n, isUtf8);
    var m := n + |parts| + 1;
    ClosingAppend(BadLine(text, m), Complaints(Lines(post), "", m, isUtf8), m + |Lines(post)|,
                  EndsMidLine(post), Pending(Lines(post), "", isUtf8));
  }

  lemma EndingClean(line: string, isUtf8: string -> bool)
    requires Ending(line, isUtf8)
    ensures '\n' !in line
  {
  }

  /** Any number of continued lines and the line that ends them are read as the one line
      that they make together. */
  lemma EndedTaken(pre: string, parts: seq<string>, line: string, text: string, post: string, isUtf8: string -> bool)
    requires AtBoundary(pre) && Continuable(parts, isUtf8) && Ending(line, isUtf8) && text == Joined(parts) + line
    ensures Loaded(pre + Written(parts, line, post), isUtf8)
         == Load(Apply(Load(FRESH, Logical(Lines(pre), "", isUtf8)), ParseLine(text)),
                 Logical(Lines(post), "", isUtf8)).sections
  {
    hide Loaded, Load, Logical, Lines, Pending, Complaints, AtBoundary, EndsMidLine, BadLine, Ending, Continuable,
         Written, Apply, ParseLine, Joined;
    PartsClean(parts, isUtf8);
    EndingClean(line, isUtf8);
    WrittenLines(parts, line, post);
    EndedRun(parts, line, text, Lines(post), |Lines(pre)|, isUtf8);
    LoadedBehind(pre, Written(parts, line, post), isUtf8);
    LoadCons(Load(FRESH, Logical(Lines(pre), "", isUtf8)), text, Logical(Lines(post), "", isUtf8));
  }

  /** If that line is in error, it is complained about under the number of the line that
      ends it. */
  lemma EndedReported(pre: string, parts: seq<string>, line: string, text: string, post: string,
                      isUtf8: string -> bool)
    requires AtBoundary(pre) && Continuable(parts, isUtf8) && Ending(line, isUtf8) && text == Joined(parts) + line
    ensures var n := |Lines(pre)| + |parts| + 1;
            AllComplaints(pre + Written(parts, line, post), isUtf8)
            == AllComplaints(pre, isUtf8) + (BadLine(text, n) + ComplaintsFrom(post, n, isUtf8))
  {
    hide Lines, AtBoundary, AllComplaints, BadLine, Ending, Continuable, Written, ComplaintsFrom, ParseLine, Joined;
    ComplaintsBehind(pre, Written(parts, line, post), isUtf8);
    EndedComplaints(parts, line, text, post, |Lines(pre)|, isUtf8);
  }

  // ----- the end of the text -----

  lemma TailLines(parts: seq<string>, tail: string)
    requires '\n' !in tail && forall i | 0 <= i < |parts| :: '\n' !in parts[i]
    ensures Lines(Prefixes(parts) + tail) == Slashed(parts)
  {
    hide Lines, Prefixes;
    PrefixesLines(parts, tail);
    LinesTail(tail);
    assert Slashed(parts) + [] == Slashed(parts);
  }

  /** The complaints about the text that remains behind the last newline, and about
      continued text that no line took. */
  function EndComplaints(n: nat, tail: string, acc: string): seq<Complaint> {
    (if tail != "" then [Complaint(n + 1, NoNewline)] else [])
    + (if acc != "" then [Complaint(0, TrailingBackslash)] else [])
  }

  lemma ClosingAlone(n: nat, midLine: bool, tail: string, acc: string)
    requires midLine == (tail != "")
    ensures Closing([], n, midLine, acc) == EndComplaints(n, tail, acc)
  {
  }

  lemma TailFaults(parts: seq<string>, tail: string, n: nat, isUtf8: string -> bool)
    requires Continuable(parts, isUtf8) && '\n' !in tail
    ensures ComplaintsFrom(Prefixes(parts) + tail, n, isUtf8) == EndComplaints(n + |parts|, tail, Joined(parts))
  {
    hide Lines, Complaints, Pending, EndsMidLine, Continuable, Prefixes, Joined, Closing, EndComplaints;
    PartsClean(parts, isUtf8);
    TailLines(parts, tail);
    SlashedLines(parts, "", n, isUtf8);
    NoneBefore(Joined(parts));
    PrefixesEnd(parts, tail);
    var x := Prefixes(parts) + tail;
    ClosingAlone(n + |parts|, EndsMidLine(x), tail, Joined(parts));
  }

  lemma {:induction false} PrefixesEnd(parts: seq<string>, tail: string)
    requires '\n' !in tail
    ensures EndsMidLine(Prefixes(parts) + tail) <==> tail != ""
  {
    if parts == [] {
      assert Prefixes(parts) + tail == tail;
      assert tail != "" ==> tail[|tail| - 1] in tail;
    } else {
      var head := parts[0] + "\\" + "\n";
      PrefixesEnd(parts[1..], tail);
      MidLineBehind(head, Prefixes(parts[1..]) + tail);
      assert Prefixes(parts) + tail == head + (Prefixes(parts[1..]) + tail);
    }
  }

  /** Lines that are continued into nothing, and text behind the last newline, are
      ignored, each with its complaint. */
  lemma TailIgnored(pre: string, parts: seq<string>, tail: string, isUtf8: string -> bool)
    requires AtBoundary(pre) && Continuable(parts, isUtf8) && '\n' !in tail
    ensures var x := Prefixes(parts) + tail;
            && Loaded(pre + x, isUtf8) == Loaded(pre, isUtf8)
            && AllComplaints(pre + x, isUtf8)
               == AllComplaints(pre, isUtf8) + EndComplaints(|Lines(pre)| + |parts|, tail, Joined(parts))
  {
    hide Loaded, Load, Logical, Lines, Pending, Complaints, AtBoundary, EndsMidLine, AllComplaints, Prefixes,
         Continuable, Joined, EndComplaints, ComplaintsFrom;
    var x := Prefixes(parts) + tail;
    PartsClean(parts, isUtf8);
    TailLines(parts, tail);
    TailFaults(parts, tail, |Lines(pre)|, isUtf8);
    SlashedLines(parts, "", 0, isUtf8);
    ComplaintsBehind(pre, x, isUtf8);
    LoadedBehind(pre, x, isUtf8);
    LoadedBehind(pre, "", isUtf8);
    NoLines();
    NothingLogical(isUtf8);
    assert pre + "" == pre;
  }

  lemma NothingLogical(isUtf8: string -> bool)
    ensures Logical([], "", isUtf8) == []
  {
  }
}
