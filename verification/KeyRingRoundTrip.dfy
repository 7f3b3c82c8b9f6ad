/** Reading back a printed keyring: decode_plaintext inverts print. */
module KeyRingRoundTrip {
  import opened Basics
  import opened ConfLines
  import opened ConfText
  import opened ConfUtils
  import opened ConfRoundTrip
  import opened KeyRing
  import opened Ordered
  import Armor
  import opened Crypto
  import Decimal

  // ----- single lines -----

  predicate BareOk(v: string) {
    Trimmed(v) && Free(v, VALUE_STOPS + {'\\'}) && (v != "" ==> v[0] != '"')
  }

  lemma ScanBare(k: string, v: string)
    requires BareOk(v)
    ensures ParseBare(k, Scan(v, VALUE_STOPS, "", false)) == Line(ConfLine(k, v, ""))
  {
    ScanFree(v, "", VALUE_STOPS, "");
    assert v + "" == v && "" + v == v;
    TrimFixed(v, false);
  }

  lemma ParseBareValue(k: string, v: string)
    requires BareOk(v)
    ensures ParseValue(k, " " + v) == Line(ConfLine(k, v, ""))
  {
    assert (" " + v)[1..] == v;
    assert DropLeading(v) == v;
    if v != "" {
      assert v[0] in v;
      ScanBare(k, v);
    }
  }

  /** An unquoted line reads back. */
  lemma ParseBareLine(k: string, v: string)
    requires NameOk(k) && BareOk(v)
    ensures ParseLine(BareLine(k, v)) == Line(ConfLine(Underscored(k), v, ""))
  {
    var t := k + " =" + (" " + v);
    assert BareLine(k, v)[1..] == t;
    assert DropLeading(t) == t;
    assert t[0] == k[0] && k[0] in k;
    ScanPrintedKey(k, " " + v);
    assert ("=" + (" " + v))[1..] == " " + v;
    NormalizePadded(k);
    ParseBareValue(Underscored(k), v);
  }

  lemma Base64IsBare(v: string)
    requires forall c | c in v :: Armor.Base64Char(c)
    ensures BareOk(v) && '\n' !in v
  {
    if v != "" {
      assert v[0] in v && v[|v| - 1] in v;
    }
  }

  lemma KeyTextIsBare(key: CryptoKey)
    ensures BareOk(KeyText(key)) && '\n' !in KeyText(key)
  {
    Armor.ArmorRoundTrip(EncodeKey(key));
    Base64IsBare(KeyText(key));
  }

  lemma DigitsAreBare(v: string)
    requires v != "" && Decimal.AllDigits(v)
    ensures BareOk(v) && '\n' !in v
  {
    assert v[0] in v && v[|v| - 1] in v;
  }

  lemma PrintedIsBare(n: nat)
    ensures BareOk(Decimal.Printed(n)) && '\n' !in Decimal.Printed(n)
  {
    Decimal.PrintedSound(n);
    DigitsAreBare(Decimal.Printed(n));
  }

  lemma BareLineWhole(k: string, v: string, isUtf8: string -> bool)
    requires NameOk(k) && BareOk(v) && '\n' !in k && '\n' !in v && isUtf8(BareLine(k, v))
    ensures Whole(BareLine(k, v), isUtf8)
  {
    var line := BareLine(k, v);
    if v != "" {
      assert line[|line| - 1] == v[|v| - 1] && v[|v| - 1] in v;
    }
    PrintedLineWhole(line, isUtf8);
  }

  // ----- which keyrings print readably -----

  /** A caps subsystem name that survives key normalization and its inverse. */
  predicate SubsystemOk(s: string) {
    NameOk("caps " + s) && '_' !in s
  }

  function CapsKey(s: string): string {
    Underscored("caps " + s)
  }

  predicate ReadableCaps(caps: map<string, string>, isUtf8: string -> bool) {
    forall s | s in caps ::
      && SubsystemOk(s) && '\n' !in s
      && ValueOk(caps[s]) && '\n' !in caps[s] && '\0' !in caps[s]
      && isUtf8(CapsLine(s, caps[s]))
  }

  predicate ReadableAuth(auth: EntityAuth, isUtf8: string -> bool) {
    && |auth.key.secret| < 0x1_0000 && isUtf8(BareLine("key", KeyText(auth.key)))
    && (auth.auid != AUID_DEFAULT ==> isUtf8(BareLine("auid", Decimal.Printed(auth.auid))))
    && ReadableCaps(auth.caps, isUtf8)
  }

  predicate Readable(keys: Keys, isUtf8: string -> bool) {
    forall n | n in keys ::
      && SectionNameOk(ToStr(n)) && '\n' !in ToStr(n) && isUtf8(SectionLine(ToStr(n)))
      && ReadableAuth(keys[n], isUtf8)
  }

  lemma RespacedUnderscored(k: string)
    requires '_' !in k
    ensures Respaced(Underscored(k)) == k
  {
  }

  /** What normalizing and re-spacing give back unchanged was normal before. */
  lemma RespacedTrim(k: string)
    requires Respaced(Normalize(k + " ")) == k
    ensures Trimmed(k) && Compact(k) && '_' !in k
  {
    var t := Trim(k + " ", true);
    TrimSound(k + " ", true);
    forall i | 0 <= i < |k| ensures k[i] == t[i] && k[i] != '_' {
      assert t[i] in t;
      assert k[i] == Respaced(Underscored(t))[i];
    }
    assert t == k;
  }

  lemma FreeCaps(s: string, chars: set<char>)
    requires Free("caps ", chars) && Free(s, chars)
    ensures Free("caps " + s, chars)
  {
  }

  lemma CapsNameParts(s: string)
    requires Free(s, KEY_STOPS + {'\\'})
    ensures Free("caps " + s, KEY_STOPS + {'\\'})
    ensures '_' !in "caps " + s <==> '_' !in s
  {
    FreeCaps(s, KEY_STOPS + {'\\'});
    assert forall i | 0 <= i < |s| :: s[i] == ("caps " + s)[i + 5];
  }

  /** The name of a subsystem comes back if and only if it is readable and free
      of underscores: single blanks inside it survive. */
  lemma SubsystemExact(s: string)
    requires Free(s, KEY_STOPS + {'\\'})
    ensures Respaced(Normalize("caps " + s + " ")) == "caps " + s <==> SubsystemOk(s)
  {
    hide Normalize, Respaced, Underscored, Free, Trimmed, Compact;
    var k := "caps " + s;
    CapsNameParts(s);
    if SubsystemOk(s) {
      NormalizePadded(k);
      RespacedUnderscored(k);
    }
    if Respaced(Normalize(k + " ")) == k {
      RespacedTrim(k);
    }
  }

  // ----- loading the lines of an entity -----

  /** The entries that the lines of an entity define, in order. */
  datatype Entry = Entry(key: string, val: string)

  predicate Entered(line: string, e: Entry, isUtf8: string -> bool) {
    Whole(line, isUtf8) && ParseLine(line) == Line(ConfLine(e.key, e.val, ""))
  }

  function Table(m: map<string, string>, entries: seq<Entry>): map<string, string>
    decreases |entries|
  {
    if entries == [] then m else Table(m[entries[0].key := entries[0].val], entries[1..])
  }

  lemma {:induction false} LoadEntries(st: Loading, lines: seq<string>, entries: seq<Entry>, isUtf8: string -> bool)
    requires InSection(st) && |lines| == |entries|
    requires forall i | 0 <= i < |lines| :: Entered(lines[i], entries[i], isUtf8)
    ensures Load(st, lines) == st.(sections := st.sections[st.current := Table(st.sections[st.current], entries)])
    decreases |lines|
  {
    if lines != [] {
      assert Entered(lines[0], entries[0], isUtf8);
      LoadEntries(Apply(st, ParseLine(lines[0])), lines[1..], entries[1..], isUtf8);
    }
  }

  function CapsEntries(caps: map<string, string>, subsystems: seq<string>): seq<Entry>
    requires forall s | s in subsystems :: s in caps
  {
    if subsystems == [] then []
    else [Entry(CapsKey(subsystems[0]), caps[subsystems[0]])] + CapsEntries(caps, subsystems[1..])
  }

  function HeadEntries(auth: EntityAuth): seq<Entry> {
    [Entry("key", KeyText(auth.key))]
    + (if auth.auid != AUID_DEFAULT then [Entry("auid", Decimal.Printed(auth.auid))] else [])
  }

  ghost function AuthEntries(auth: EntityAuth): seq<Entry> {
    HeadEntries(auth) + CapsEntries(auth.caps, InStringOrder(auth.caps.Keys))
  }

  ghost predicate AllEntered(lines: seq<string>, entries: seq<Entry>, isUtf8: string -> bool) {
    |lines| == |entries| && forall i | 0 <= i < |lines| :: Entered(lines[i], entries[i], isUtf8)
  }

  lemma CapsNameClean(s: string)
    requires NameOk("caps " + s) && '\n' !in s
    ensures '\n' !in "caps " + s && '\0' !in "caps " + s
  {
  }

  lemma CapsLineEntered(s: string, v: string, isUtf8: string -> bool)
    requires SubsystemOk(s) && '\n' !in s
    requires ValueOk(v) && '\n' !in v && '\0' !in v && isUtf8(CapsLine(s, v))
    ensures Entered(CapsLine(s, v), Entry(CapsKey(s), v), isUtf8)
  {
    hide KeyLine, NameOk, ValueOk, ParseLine, Trimmed;
    assert '\n' !in "caps " + s && '\0' !in "caps " + s by {
      CapsNameClean(s);
    }
    QuotedLineExact("caps " + s, v);
    KeyLineEnds("caps " + s, v);
    PrintedLineWhole(CapsLine(s, v), isUtf8);
  }

  lemma {:induction false} CapsEntered(caps: map<string, string>, subsystems: seq<string>, isUtf8: string -> bool)
    requires ReadableCaps(caps, isUtf8) && forall s | s in subsystems :: s in caps
    ensures AllEntered(CapsTexts(caps, subsystems), CapsEntries(caps, subsystems), isUtf8)
  {
    if subsystems != [] {
      CapsLineEntered(subsystems[0], caps[subsystems[0]], isUtf8);
      CapsEntered(caps, subsystems[1..], isUtf8);
    }
  }

  lemma BareLineEntered(k: string, v: string, isUtf8: string -> bool)
    requires NameOk(k) && BareOk(v) && '\n' !in k && '\n' !in v && isUtf8(BareLine(k, v))
    requires ' ' !in k
    ensures Entered(BareLine(k, v), Entry(k, v), isUtf8)
  {
    assert Underscored(k) == k;
    ParseBareLine(k, v);
    BareLineWhole(k, v, isUtf8);
  }

  lemma EnteredAppend(a: seq<string>, x: seq<Entry>, b: seq<string>, y: seq<Entry>, isUtf8: string -> bool)
    requires AllEntered(a, x, isUtf8) && AllEntered(b, y, isUtf8)
    ensures AllEntered(a + b, x + y, isUtf8)
  {
    var l, e := a + b, x + y;
    forall i | 0 <= i < |l| ensures Entered(l[i], e[i], isUtf8) {
      if i < |a| {
        assert l[i] == a[i] && e[i] == x[i];
      } else {
        assert l[i] == b[i - |a|] && e[i] == y[i - |a|];
      }
    }
  }

  lemma EnteredOne(line: string, e: Entry, isUtf8: string -> bool)
    requires Entered(line, e, isUtf8)
    ensures AllEntered([line], [e], isUtf8)
  {
  }

  lemma BareEntered(k: string, v: string, isUtf8: string -> bool)
    requires k == "key" || k == "auid"
    requires BareOk(v) && '\n' !in v && isUtf8(BareLine(k, v))
    ensures AllEntered([BareLine(k, v)], [Entry(k, v)], isUtf8)
  {
    BareLineEntered(k, v, isUtf8);
    EnteredOne(BareLine(k, v), Entry(k, v), isUtf8);
  }

  lemma HeadEntered(auth: EntityAuth, isUtf8: string -> bool)
    requires ReadableAuth(auth, isUtf8)
    ensures AllEntered(HeadTexts(auth), HeadEntries(auth), isUtf8)
  {
    hide BareOk, Entered, BareLine, KeyText, Decimal.Printed;
    var key, auid := KeyText(auth.key), Decimal.Printed(auth.auid);
    KeyTextIsBare(auth.key);
    BareEntered("key", key, isUtf8);
    if auth.auid != AUID_DEFAULT {
      PrintedIsBare(auth.auid);
      BareEntered("auid", auid, isUtf8);
      EnteredAppend([BareLine("key", key)], [Entry("key", key)],
                    [BareLine("auid", auid)], [Entry("auid", auid)], isUtf8);
    } else {
      assert HeadTexts(auth) == [BareLine("key", key)] && HeadEntries(auth) == [Entry("key", key)];
    }
  }

  lemma AuthEntered(auth: EntityAuth, isUtf8: string -> bool)
    requires ReadableAuth(auth, isUtf8)
    ensures AllEntered(AuthTexts(auth), AuthEntries(auth), isUtf8)
  {
    HeadEntered(auth, isUtf8);
    var subsystems := InStringOrder(auth.caps.Keys);
    CapsEntered(auth.caps, subsystems, isUtf8);
    EnteredAppend(HeadTexts(auth), HeadEntries(auth), CapsTexts(auth.caps, subsystems),
                  CapsEntries(auth.caps, subsystems), isUtf8);
  }

  // ----- the table of an entity -----

  /** The lines of a loaded section are those of an entity's authorization. */
  ghost predicate Tabulates(t: map<string, string>, auth: EntityAuth) {
    && "key" in t && t["key"] == KeyText(auth.key)
    && ("auid" in t <==> auth.auid != AUID_DEFAULT)
    && ("auid" in t ==> t["auid"] == Decimal.Printed(auth.auid))
    && (forall s | s in auth.caps :: CapsKey(s) in t && t[CapsKey(s)] == auth.caps[s])
    && (forall k | k in t :: k == "key" || k == "auid" || exists s :: s in auth.caps && CapsKey(s) == k)
  }

  lemma CapsKeyInjective(s: string, t: string)
    requires '_' !in s && '_' !in t && CapsKey(s) == CapsKey(t)
    ensures s == t
  {
    RespacedUnderscored("caps " + s);
    RespacedUnderscored("caps " + t);
    assert ("caps " + s)[5..] == s && ("caps " + t)[5..] == t;
  }

  lemma CapsKeyOther(s: string)
    ensures CapsKey(s) != "key" && CapsKey(s) != "auid"
  {
    assert CapsKey(s)[4] == '_';
  }

  lemma {:induction false} CapsTable(m: map<string, string>, caps: map<string, string>, subsystems: seq<string>)
    requires forall s | s in subsystems :: s in caps && '_' !in s
    ensures var t := Table(m, CapsEntries(caps, subsystems));
            && (forall s | s in subsystems :: CapsKey(s) in t && t[CapsKey(s)] == caps[s])
            && (forall k | k in m && (forall s | s in subsystems :: CapsKey(s) != k) :: k in t && t[k] == m[k])
            && (forall k | k in t :: k in m || exists s :: s in subsystems && CapsKey(s) == k)
    decreases |subsystems|
  {
    if subsystems != [] {
      var s0 := subsystems[0];
      var next := m[CapsKey(s0) := caps[s0]];
      var t := Table(m, CapsEntries(caps, subsystems));
      CapsTable(next, caps, subsystems[1..]);
      assert t == Table(next, CapsEntries(caps, subsystems[1..]));
      forall s | s in subsystems ensures CapsKey(s) in t && t[CapsKey(s)] == caps[s] {
        if s !in subsystems[1..] {
          assert s == s0;
          forall x | x in subsystems[1..] ensures CapsKey(x) != CapsKey(s0) {
            if CapsKey(x) == CapsKey(s0) { CapsKeyInjective(x, s0); }
          }
        }
      }
    }
  }

  lemma {:induction false} TableAppend(m: map<string, string>, a: seq<Entry>, b: seq<Entry>)
    ensures Table(m, a + b) == Table(Table(m, a), b)
    decreases |a|
  {
    if a == [] {
      assert a + b == b;
    } else {
      assert (a + b)[0] == a[0] && (a + b)[1..] == a[1..] + b;
      TableAppend(m[a[0].key := a[0].val], a[1..], b);
    }
  }

  /** What the section of an entity holds once its lines are loaded. */
  ghost function TableOf(auth: EntityAuth): map<string, string> {
    Table(map[], AuthEntries(auth))
  }

  lemma HeadTable(auth: EntityAuth)
    ensures Table(map[], HeadEntries(auth))
         == map["key" := KeyText(auth.key)]
            + (if auth.auid != AUID_DEFAULT then map["auid" := Decimal.Printed(auth.auid)] else map[])
  {
    hide KeyText, Decimal.Printed;
    var key := Entry("key", KeyText(auth.key));
    var auid := Entry("auid", Decimal.Printed(auth.auid));
    if auth.auid != AUID_DEFAULT {
      TableAppend(map[], [key], [auid]);
    }
  }

  lemma CapsOverHead(head: map<string, string>, caps: map<string, string>, subsystems: seq<string>)
    requires forall s | s in subsystems :: s in caps && '_' !in s
    ensures var t := Table(head, CapsEntries(caps, subsystems));
            && (forall s | s in subsystems :: CapsKey(s) in t && t[CapsKey(s)] == caps[s])
            && ("key" in head ==> "key" in t && t["key"] == head["key"])
            && ("auid" in t <==> "auid" in head) && ("auid" in t ==> t["auid"] == head["auid"])
            && (forall k | k in t :: k in head || exists s :: s in subsystems && CapsKey(s) == k)
  {
    CapsTable(head, caps, subsystems);
    forall s | s in subsystems ensures CapsKey(s) != "key" && CapsKey(s) != "auid" {
      CapsKeyOther(s);
    }
  }

  lemma TableSplits(auth: EntityAuth)
    ensures TableOf(auth)
         == Table(Table(map[], HeadEntries(auth)), CapsEntries(auth.caps, InStringOrder(auth.caps.Keys)))
  {
    TableAppend(map[], HeadEntries(auth), CapsEntries(auth.caps, InStringOrder(auth.caps.Keys)));
  }

  lemma AuthTabulates(auth: EntityAuth)
    requires forall s | s in auth.caps :: '_' !in s
    ensures Tabulates(TableOf(auth), auth)
  {
    hide KeyText, Decimal.Printed, CapsKey, CapsEntries, InStringOrder;
    var head := Table(map[], HeadEntries(auth));
    HeadTable(auth);
    assert "key" in head && head["key"] == KeyText(auth.key);
    assert "auid" in head <==> auth.auid != AUID_DEFAULT;
    assert "auid" in head ==> head["auid"] == Decimal.Printed(auth.auid);
    assert forall k | k in head :: k == "key" || k == "auid";
    TableSplits(auth);
    CapsOverHead(head, auth.caps, InStringOrder(auth.caps.Keys));
  }

  // ----- decoding the table of an entity -----

  /** The caps whose lines are among ks. */
  function CapsIn(auth: EntityAuth, ks: seq<string>): map<string, string> {
    map s | s in auth.caps && CapsKey(s) in ks :: auth.caps[s]
  }

  /** An entry after the lines ks of another one were decoded into it. */
  function Merged(e: EntityAuth, auth: EntityAuth, ks: seq<string>): EntityAuth {
    EntityAuth(if "auid" in ks then auth.auid else e.auid,
               if "key" in ks then auth.key else e.key,
               e.caps + CapsIn(auth, ks))
  }

  lemma MergedCons(e: EntityAuth, auth: EntityAuth, k: string, ks: seq<string>)
    ensures Merged(Merged(e, auth, [k]), auth, ks) == Merged(e, auth, [k] + ks)
  {
    assert e.caps + CapsIn(auth, [k]) + CapsIn(auth, ks) == e.caps + CapsIn(auth, [k] + ks);
  }

  ghost predicate Restorable(auth: EntityAuth) {
    |auth.key.secret| < 0x1_0000 && forall s | s in auth.caps :: s != "" && '_' !in s
  }

  lemma NoCapsIn(auth: EntityAuth, k: string)
    requires k == "key" || k == "auid"
    ensures CapsIn(auth, [k]) == map[]
  {
    forall s | s in auth.caps ensures CapsKey(s) != k {
      CapsKeyOther(s);
    }
  }

  lemma OneCapIn(auth: EntityAuth, s: string)
    requires Restorable(auth) && s in auth.caps
    ensures CapsIn(auth, [CapsKey(s)]) == map[s := auth.caps[s]]
  {
    forall x | x in auth.caps && CapsKey(x) == CapsKey(s) ensures x == s {
      CapsKeyInjective(x, s);
    }
  }

  ghost predicate Undone(d: Decoding, name: EntityName, auth: EntityAuth, k: string, val: string) {
    Modified(d, name, Respaced(k), val)
    == var e := Merged(At(d.keys, name), auth, [k]); Decoding(d.keys[name := e], e.caps, true)
  }

  lemma KeyLineUndone(d: Decoding, name: EntityName, auth: EntityAuth)
    requires d.ok && At(d.keys, name).caps == d.caps && |auth.key.secret| < 0x1_0000
    ensures Undone(d, name, auth, "key", KeyText(auth.key))
  {
    hide KeyText, KeyFromText, CapsIn;
    assert Respaced("key") == "key";
    KeyTextExact(auth.key);
    NoCapsIn(auth, "key");
    assert d.caps + map[] == d.caps;
  }

  lemma AuidModified(d: Decoding, name: EntityName, val: string)
    ensures Modified(d, name, "auid", val)
         == d.(keys := d.keys[name := At(d.keys, name).(auid := Decimal.Strtoull(val))])
  {
    hide KeyFromText, Decimal.Strtoull, At;
  }

  lemma AuidLineUndone(d: Decoding, name: EntityName, auth: EntityAuth)
    requires d.ok && At(d.keys, name).caps == d.caps
    ensures Undone(d, name, auth, "auid", Decimal.Printed(auth.auid))
  {
    hide Modified, CapsIn, At, Decimal.Strtoull, Decimal.Printed;
    assert Respaced("auid") == "auid";
    AuidModified(d, name, Decimal.Printed(auth.auid));
    Decimal.StrtoullPrinted(auth.auid);
    NoCapsIn(auth, "auid");
    assert d.caps + map[] == d.caps;
  }

  lemma CapsLineUndone(d: Decoding, name: EntityName, auth: EntityAuth, s: string)
    requires d.ok && At(d.keys, name).caps == d.caps
    requires Restorable(auth) && s in auth.caps
    ensures Undone(d, name, auth, CapsKey(s), auth.caps[s])
  {
    RespacedUnderscored("caps " + s);
    assert ("caps " + s)[5..] == s && "caps " <= "caps " + s;
    CapsKeyOther(s);
    OneCapIn(auth, s);
    assert d.caps + map[s := auth.caps[s]] == d.caps[s := auth.caps[s]];
  }

  /** set_modifier undoes one printed line. */
  lemma ModifiedByLine(d: Decoding, name: EntityName, auth: EntityAuth, t: map<string, string>, k: string)
    requires d.ok && Tabulates(t, auth) && Restorable(auth) && k in t
    requires At(d.keys, name).caps == d.caps
    ensures Undone(d, name, auth, k, t[k])
  {
    if k == "key" {
      KeyLineUndone(d, name, auth);
    } else if k == "auid" {
      AuidLineUndone(d, name, auth);
    } else {
      var s :| s in auth.caps && CapsKey(s) == k;
      CapsLineUndone(d, name, auth, s);
    }
  }

  /** The decoding that the lines ks of an entity lead to. */
  function DecodedInto(d: Decoding, name: EntityName, auth: EntityAuth, ks: seq<string>): Decoding {
    var e := Merged(At(d.keys, name), auth, ks);
    if ks == [] then d else Decoding(d.keys[name := e], e.caps, true)
  }

  lemma DecodedIntoCons(d: Decoding, name: EntityName, auth: EntityAuth, k: string, ks: seq<string>)
    ensures DecodedInto(DecodedInto(d, name, auth, [k]), name, auth, ks) == DecodedInto(d, name, auth, [k] + ks)
  {
    if ks == [] {
      assert [k] + ks == [k];
    } else {
      MergedCons(At(d.keys, name), auth, k, ks);
      var one, all := Merged(At(d.keys, name), auth, [k]), Merged(At(d.keys, name), auth, [k] + ks);
      assert d.keys[name := one][name := all] == d.keys[name := all];
    }
  }

  lemma {:induction false} DecodeTable(d: Decoding, name: EntityName, auth: EntityAuth, t: map<string, string>,
                                       ks: seq<string>)
    requires d.ok && Tabulates(t, auth) && Restorable(auth)
    requires "" !in ks && forall k | k in ks :: k in t
    requires At(d.keys, name).caps == d.caps
    ensures DecodedLines(d, name, t, ks) == DecodedInto(d, name, auth, ks)
    decreases |ks|
  {
    if ks != [] {
      assert ks[0] in ks && ks == [ks[0]] + ks[1..];
      ModifiedByLine(d, name, auth, t, ks[0]);
      DecodeTable(DecodedInto(d, name, auth, [ks[0]]), name, auth, t, ks[1..]);
      DecodedIntoCons(d, name, auth, ks[0], ks[1..]);
    }
  }

  lemma MergedAll(auth: EntityAuth, t: map<string, string>)
    requires Tabulates(t, auth)
    ensures Merged(NO_AUTH, auth, InStringOrder(t.Keys)) == auth
  {
    hide KeyText, Decimal.Printed;
    var ks := InStringOrder(t.Keys);
    assert CapsIn(auth, ks) == auth.caps;
    assert map[] + auth.caps == auth.caps;
  }

  lemma NotGlobal(name: EntityName)
    ensures ToStr(name) != "global"
  {
    assert ToStr(name)[|TypeName(name.entityType)|] == '.';
  }

  /** Decoding the section of a new entity adds exactly that entity. */
  lemma DecodeEntity(d: Decoding, name: EntityName, auth: EntityAuth, t: map<string, string>)
    requires d.ok && name !in d.keys && Tabulates(t, auth) && Restorable(auth)
    ensures var r := DecodedSection(d, ToStr(name), t); r.ok && r.keys == d.keys[name := auth]
  {
    FromStrToStr(name);
    NotGlobal(name);
    var ks := InStringOrder(t.Keys);
    assert "key" in ks && "" !in ks;
    DecodeTable(d.(caps := map[]), name, auth, t, ks);
    MergedAll(auth, t);
  }

  // ----- whole rings -----

  /** Sections that hold a keyring: the tables of its entities, and "global". */
  ghost predicate HoldsRing(sections: Sections, keys: Keys) {
    && (forall s | s in sections :: s == "global" || exists n :: n in keys && ToStr(n) == s)
    && (forall n | n in keys :: ToStr(n) in sections && Tabulates(sections[ToStr(n)], keys[n]))
  }

  lemma ToStrInjective(a: EntityName, b: EntityName)
    requires ToStr(a) == ToStr(b)
    ensures a == b
  {
    FromStrToStr(a);
    FromStrToStr(b);
  }

  /** The part of a ring whose sections are among `names`. */
  function PartOf(keys: Keys, names: seq<string>): Keys {
    map n | n in keys && ToStr(n) in names :: keys[n]
  }

  lemma PartOfCons(base: Keys, keys: Keys, n: EntityName, names: seq<string>)
    requires n in keys && ToStr(n) !in names
    ensures base[n := keys[n]] + PartOf(keys, names) == base + PartOf(keys, [ToStr(n)] + names)
  {
    forall m | m in keys && ToStr(m) == ToStr(n) ensures m == n {
      ToStrInjective(m, n);
    }
  }

  lemma PartOfNothing(keys: Keys)
    ensures PartOf(keys, []) == map[]
  {
  }

  lemma PartOfGlobal(keys: Keys, names: seq<string>)
    ensures PartOf(keys, ["global"] + names) == PartOf(keys, names)
  {
    forall n | n in keys ensures ToStr(n) != "global" {
      NotGlobal(n);
    }
  }

  lemma DistinctTail(names: seq<string>)
    requires names != [] && Distinct(names)
    ensures names == [names[0]] + names[1..] && names[0] in names
    ensures names[0] !in names[1..] && Distinct(names[1..])
  {
    forall i | 0 <= i < |names[1..]| ensures names[1..][i] != names[0] {
      assert names[1..][i] == names[i + 1];
    }
  }

  lemma {:induction false} DecodeRing(d: Decoding, sections: Sections, keys: Keys, names: seq<string>)
    requires d.ok && HoldsRing(sections, keys) && Distinct(names)
    requires forall n | n in keys :: Restorable(keys[n])
    requires forall s | s in names :: s in sections
    requires forall n | n in d.keys :: ToStr(n) !in names
    ensures var r := DecodedSections(d, sections, names); r.ok && r.keys == d.keys + PartOf(keys, names)
    decreases |names|
  {
    hide Tabulates, Restorable, PartOf, FromStr, DecodedLines;
    if names == [] {
      PartOfNothing(keys);
      assert d.keys + map[] == d.keys;
    } else {
      var s := names[0];
      DistinctTail(names);
      if s == "global" {
        PartOfGlobal(keys, names[1..]);
        DecodeRing(d, sections, keys, names[1..]);
      } else {
        var n :| n in keys && ToStr(n) == s;
        DecodeEntity(d, n, keys[n], sections[s]);
        PartOfCons(d.keys, keys, n, names[1..]);
        DecodeRing(DecodedSection(d, s, sections[s]), sections, keys, names[1..]);
      }
    }
  }

  // ----- loading a printed ring -----

  /** The section map after the entities `names` were loaded. */
  ghost function WithEntities(sections: Sections, keys: Keys, names: seq<EntityName>): Sections
    requires forall n | n in names :: n in keys
    decreases |names|
  {
    if names == [] then sections
    else WithEntities(sections[ToStr(names[0]) := TableOf(keys[names[0]])], keys, names[1..])
  }

  lemma LoadEntity(st: Loading, s: string, auth: EntityAuth, isUtf8: string -> bool)
    requires InSection(st) && SectionNameOk(s) && '\n' !in s && isUtf8(SectionLine(s))
    requires s in st.sections ==> st.sections[s] == map[]
    requires ReadableAuth(auth, isUtf8)
    ensures Load(st, [SectionLine(s)] + AuthTexts(auth)) == Loading(st.sections[s := TableOf(auth)], s)
  {
    SectionLineWhole(s, isUtf8);
    LoadCons(st, SectionLine(s), AuthTexts(auth));
    AuthEntered(auth, isUtf8);
    OpenSection(st, s, TableOf(auth));
    LoadEntries(Apply(st, ParseLine(SectionLine(s))), AuthTexts(auth), AuthEntries(auth), isUtf8);
  }

  ghost predicate Unfilled(sections: Sections, names: seq<EntityName>) {
    forall n | n in names :: ToStr(n) in sections ==> sections[ToStr(n)] == map[]
  }

  lemma UnfilledTail(sections: Sections, names: seq<EntityName>, t: map<string, string>)
    requires names != [] && Distinct(names) && Unfilled(sections, names)
    ensures Unfilled(sections[ToStr(names[0]) := t], names[1..]) && Distinct(names[1..])
  {
    forall n | n in names[1..] ensures n in names && ToStr(n) != ToStr(names[0]) {
      DistinctEntities(names, n);
    }
  }

  lemma {:induction false} LoadRing(st: Loading, keys: Keys, names: seq<EntityName>, isUtf8: string -> bool)
    requires InSection(st) && Readable(keys, isUtf8) && Distinct(names)
    requires forall n | n in names :: n in keys
    requires Unfilled(st.sections, names)
    ensures Load(st, RingTexts(keys, names)).sections == WithEntities(st.sections, keys, names)
    decreases |names|
  {
    if names != [] {
      var s, auth := ToStr(names[0]), keys[names[0]];
      LoadEntity(st, s, auth, isUtf8);
      LoadAppend(st, [SectionLine(s)] + AuthTexts(auth), RingTexts(keys, names[1..]));
      UnfilledTail(st.sections, names, TableOf(auth));
      LoadRing(Loading(st.sections[s := TableOf(auth)], s), keys, names[1..], isUtf8);
    }
  }

  lemma DistinctEntities(names: seq<EntityName>, n: EntityName)
    requires names != [] && Distinct(names) && n in names[1..]
    ensures n in names && ToStr(n) != ToStr(names[0])
  {
    var i :| 0 <= i < |names[1..]| && names[1..][i] == n;
    assert names[i + 1] == n && names[0] != names[i + 1];
    if ToStr(n) == ToStr(names[0]) {
      ToStrInjective(n, names[0]);
    }
  }

  lemma {:induction false} WithEntitiesAt(sections: Sections, keys: Keys, names: seq<EntityName>)
    requires Distinct(names) && forall n | n in names :: n in keys
    ensures var r := WithEntities(sections, keys, names);
            && (forall s | s in r :: s in sections || exists n :: n in names && ToStr(n) == s)
            && (forall s | s in sections && (forall n | n in names :: ToStr(n) != s) :: s in r && r[s] == sections[s])
            && (forall n | n in names :: ToStr(n) in r && r[ToStr(n)] == TableOf(keys[n]))
    decreases |names|
  {
    hide TableOf, ToStr;
    if names != [] {
      WithEntitiesAt(sections[ToStr(names[0]) := TableOf(keys[names[0]])], keys, names[1..]);
      forall n | n in names[1..] ensures ToStr(n) != ToStr(names[0]) {
        DistinctEntities(names, n);
      }
    }
  }

  lemma {:induction false} RingTextsWhole(keys: Keys, names: seq<EntityName>, isUtf8: string -> bool)
    requires Readable(keys, isUtf8) && forall n | n in names :: n in keys
    ensures forall l | l in RingTexts(keys, names) :: Whole(l, isUtf8) && !ParseLine(l).Bad?
  {
    if names != [] {
      SectionLineWhole(ToStr(names[0]), isUtf8);
      AuthEntered(keys[names[0]], isUtf8);
      AllEnteredWhole(AuthTexts(keys[names[0]]), AuthEntries(keys[names[0]]), isUtf8);
      RingTextsWhole(keys, names[1..], isUtf8);
    }
  }

  lemma AllEnteredWhole(lines: seq<string>, entries: seq<Entry>, isUtf8: string -> bool)
    requires AllEntered(lines, entries, isUtf8)
    ensures forall l | l in lines :: Whole(l, isUtf8) && !ParseLine(l).Bad?
  {
    forall l | l in lines ensures Whole(l, isUtf8) && !ParseLine(l).Bad? {
      var i :| 0 <= i < |lines| && lines[i] == l;
      assert Entered(lines[i], entries[i], isUtf8);
    }
  }

  lemma InEntityOrderDistinct(s: set<EntityName>)
    ensures Distinct(InEntityOrder(s))
  {
    EntityOrder();
    InOrderIncreasing(s, EntityLess);
  }

  lemma FreshUnfilled(names: seq<EntityName>)
    ensures Unfilled(FRESH.sections, names)
  {
    forall n | n in names ensures ToStr(n) !in FRESH.sections {
      NotGlobal(n);
    }
  }

  lemma LoadedEntities(keys: Keys, isUtf8: string -> bool)
    requires Readable(keys, isUtf8)
    ensures Loaded(PrintedRing(keys), isUtf8)
         == WithEntities(FRESH.sections, keys, InEntityOrder(keys.Keys))
  {
    hide Readable, WithEntities, RingTexts;
    var names := InEntityOrder(keys.Keys);
    InEntityOrderDistinct(keys.Keys);
    RingTextsWhole(keys, names, isUtf8);
    LoadLines(RingTexts(keys, names), isUtf8);
    FreshUnfilled(names);
    LoadRing(FRESH, keys, names, isUtf8);
  }

  lemma AuthReadable(auth: EntityAuth, isUtf8: string -> bool)
    requires ReadableAuth(auth, isUtf8)
    ensures Restorable(auth) && Tabulates(TableOf(auth), auth)
  {
    forall s | s in auth.caps ensures s != "" && '_' !in s {
      assert SubsystemOk(s);
      assert ("caps " + s)[4] == ' ';
    }
    AuthTabulates(auth);
  }

  lemma EntitiesHoldRing(base: Sections, keys: Keys, names: seq<EntityName>)
    requires Distinct(names) && forall n :: n in names <==> n in keys
    requires forall s | s in base :: s == "global"
    requires forall n | n in keys :: Tabulates(TableOf(keys[n]), keys[n])
    ensures HoldsRing(WithEntities(base, keys, names), keys)
  {
    WithEntitiesAt(base, keys, names);
  }

  /** Loading a printed ring gives the sections of its entities. */
  lemma LoadedHoldsRing(keys: Keys, isUtf8: string -> bool)
    requires Readable(keys, isUtf8)
    ensures HoldsRing(Loaded(PrintedRing(keys), isUtf8), keys)
  {
    hide Tabulates, TableOf, ReadableAuth, WithEntities, Loaded, PrintedRing, SectionNameOk, SectionLine, HoldsRing;
    forall n | n in keys ensures Tabulates(TableOf(keys[n]), keys[n]) {
      AuthReadable(keys[n], isUtf8);
    }
    InEntityOrderDistinct(keys.Keys);
    LoadedEntities(keys, isUtf8);
    EntitiesHoldRing(FRESH.sections, keys, InEntityOrder(keys.Keys));
  }

  lemma PartOfAll(sections: Sections, keys: Keys)
    requires HoldsRing(sections, keys)
    ensures map[] + PartOf(keys, InStringOrder(sections.Keys)) == keys
  {
  }

  /** decode_plaintext inverts print: the empty keyring that decodes the printed
      text throws nothing and ends up with the same entities, each with the same
      key, auid and caps. */
  lemma DecodeInvertsPrint(keys: Keys, isUtf8: string -> bool)
    requires Readable(keys, isUtf8)
    ensures Decoded(map[], PrintedRing(keys), isUtf8).ok
    ensures Decoded(map[], PrintedRing(keys), isUtf8).keys == keys
  {
    hide HoldsRing, Restorable, PrintedRing, DecodedSections, PartOf, FromStr;
    var sections := Loaded(PrintedRing(keys), isUtf8);
    LoadedHoldsRing(keys, isUtf8);
    InStringOrderDistinct(sections.Keys);
    forall n | n in keys ensures Restorable(keys[n]) {
      AuthReadable(keys[n], isUtf8);
    }
    DecodeRing(Decoding(map[], map[], true), sections, keys, InStringOrder(sections.Keys));
    PartOfAll(sections, keys);
  }
}
