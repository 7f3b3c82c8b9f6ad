/** Inputs on which the programs do not keep what they suggest: one for each
    condition of the exact results. */
module Witnesses {
  import opened Basics
  import opened Bytes
  import Armor
  import ConfAnswers
  import ConfFileExact
  import ConfLines
  import ConfRoundTrip
  import ConfText
  import ConfUtils
  import CrushBuild
  import CrushBuckets
  import CrushMap
  import Crypto
  import FuseInodes
  import KeyRing
  import KeyRingExact
  import KeyRingRoundTrip
  import MonStore
  import MonStoreConverter
  import PaxosReplay
  import QemuOptions
  import QemuOptionsRoundTrip
  import RadosCopy
  import RbdDiff
  import RbdDiffRoundTrip

  // ----- configuration files and keyrings -----

  /** What a text of plain lines loads. */
  lemma PlainLoaded(lines: seq<string>, isUtf8: string -> bool)
    requires forall l | l in lines :: ConfFileExact.Single(l) && isUtf8(l)
    ensures ConfRoundTrip.Loaded(ConfRoundTrip.Text(lines), isUtf8) == ConfUtils.Load(ConfUtils.FRESH, lines).sections
  {
    hide ConfFileExact.Single, ConfUtils.Load, ConfRoundTrip.Text;
    PlainSingle(lines);
    ConfRoundTrip.LinesOfText(lines);
    ConfFileExact.LoadSeen(ConfUtils.FRESH, lines, isUtf8);
    assert ConfFileExact.AllSeen(lines, isUtf8) == lines;
  }

  lemma PlainSingle(lines: seq<string>)
    requires forall l | l in lines :: ConfFileExact.Single(l)
    ensures forall l | l in lines :: '\n' !in l
  {
  }

  lemma NameScanned(value: string)
    ensures ConfLines.Scan("k =" + value, ConfLines.KEY_STOPS, "", false) == ConfLines.Scanned("k ", "=" + value, false)
  {
    hide ConfLines.Scan;
    assert "k =" + value == "k " + ("=" + value) && "" + "k " == "k ";
    ConfRoundTrip.ScanFree("k ", "=" + value, ConfLines.KEY_STOPS, "");
    ConfRoundTrip.ScanStops("=" + value, ConfLines.KEY_STOPS, "k ");
  }

  lemma NameParsed(value: string)
    ensures ConfLines.ParseLine("k =" + value) == ConfLines.ParseValue("k", value)
  {
    hide ConfLines.Scan, ConfLines.ParseValue, ConfText.Normalize;
    var line := "k =" + value;
    assert line[0] == 'k' && ConfText.DropLeading(line) == line;
    NameScanned(value);
    assert ("=" + value)[1..] == value;
    ConfRoundTrip.NormalizePadded("k");
    assert "k" + " " == "k " && ConfText.Underscored("k") == "k";
  }

  lemma ValueParsed()
    ensures ConfLines.ParseValue("k", " \\\"") == ConfLines.Line(ConfLines.ConfLine("k", "\"", ""))
  {
    hide ConfText.Trim;
    var val := "\\\"";
    assert " \\\""[1..] == val && ConfText.DropLeading(val) == val && ConfText.DropLeading(" \\\"") == val;
    assert val[1..] == "\"" && "\""[1..] == "" && "" + ['"'] == "\"";
    assert ConfLines.Scan(val, ConfLines.VALUE_STOPS, "", false) == ConfLines.Scanned("\"", "", false);
    ConfText.TrimFixed("\"", false);
  }

  /** An escaped quote is a quote. */
  lemma EscapedQuote()
    ensures ConfLines.ParseLine("k = \\\"") == ConfLines.Line(ConfLines.ConfLine("k", "\"", ""))
  {
    hide ConfLines.ParseLine, ConfLines.ParseValue;
    assert "k = \\\"" == "k =" + " \\\"";
    NameParsed(" \\\"");
    ValueParsed();
  }

  lemma QuoteLoaded()
    ensures ConfUtils.Load(ConfUtils.FRESH, ["[a]", "k = \\\""]).sections
         == map["global" := map[], "a" := map["k" := "\""]]
  {
    hide ConfLines.ParseLine;
    EscapedQuote();
    ConfRoundTrip.SectionLineExact("a");
    assert ConfUtils.SectionLine("a") == "[a]";
    assert ["[a]", "k = \\\""][1..] == ["k = \\\""] && ["k = \\\""][1..] == [];
  }

  lemma QuoteText()
    ensures ConfRoundTrip.Text(["[a]", "k = \\\""]) == "[a]\nk = \\\"\n"
  {
  }

  lemma QuoteNotRestored(isUtf8: string -> bool)
    ensures !ConfFileExact.Restored(map["global" := map[], "a" := map["k" := "\""]], isUtf8)
  {
    hide ConfFileExact.Restored;
    var sections := map["global" := map[], "a" := map["k" := "\""]];
    assert '"' in "\"" && "k" in sections["a"];
    assert !ConfRoundTrip.PrintableLines(sections["a"], isUtf8);
    RestoredExact(sections, isUtf8);
  }

  lemma RestoredExact(sections: ConfUtils.Sections, isUtf8: string -> bool)
    ensures ConfFileExact.Restored(sections, isUtf8) <==> ConfRoundTrip.Printable(sections, isUtf8)
  {
    hide ConfRoundTrip.Printable;
    ConfFileExact.PrintedExact(sections, isUtf8);
  }

  /** A value that is a quote can be loaded, and does not come back. */
  lemma QuoteIsLost(isUtf8: string -> bool)
    requires KeyRingExact.AcceptsAscii(isUtf8)
    ensures var sections := map["global" := map[], "a" := map["k" := "\""]];
            && ConfRoundTrip.Loaded("[a]\nk = \\\"\n", isUtf8) == sections
            && !ConfFileExact.Restored(sections, isUtf8)
  {
    hide ConfRoundTrip.Loaded, ConfUtils.Load, ConfFileExact.Restored, ConfRoundTrip.Text;
    PlainLoaded(["[a]", "k = \\\""], isUtf8);
    QuoteText();
    QuoteLoaded();
    QuoteNotRestored(isUtf8);
  }

  lemma BracketParsed()
    ensures ConfLines.ParseLine("[a\\]b]") == ConfLines.Line(ConfLines.ConfLine("", "", "a]b"))
  {
    hide ConfText.Trim, ConfLines.ParseKey;
    var line, name := "[a\\]b]", "a\\]b]";
    assert line[1..] == name && ConfText.DropLeading(line) == line;
    BracketScanned(name);
    ConfText.TrimFixed("a]b", true);
    assert "]"[1..] == "";
  }

  lemma ScanEscaped(c: char, rest: string, stops: set<char>, acc: string)
    requires '\\' !in stops
    ensures ConfLines.Scan(['\\', c] + rest, stops, acc, false) == ConfLines.Scan(rest, stops, acc + [c], false)
  {
    assert (['\\', c] + rest)[1..] == [c] + rest && ([c] + rest)[1..] == rest;
  }

  lemma BracketScanned(name: string)
    requires name == "a\\]b]"
    ensures ConfLines.Scan(name, ConfLines.SECTION_STOPS, "", false) == ConfLines.Scanned("a]b", "]", false)
  {
    hide ConfLines.Scan;
    var stops := ConfLines.SECTION_STOPS;
    ConfRoundTrip.ScanFree("a", "\\]b]", stops, "");
    ScanEscaped(']', "b]", stops, "a");
    ConfRoundTrip.ScanFree("b", "]", stops, "a]");
    ConfRoundTrip.ScanStops("]", stops, "a]b");
    assert name == "a" + "\\]b]" && "\\]b]" == ['\\', ']'] + "b]" && "b]" == "b" + "]";
    assert "" + "a" == "a" && "a" + [']'] == "a]" && "a]" + "b" == "a]b";
  }

  lemma BracketLoaded()
    ensures ConfUtils.Load(ConfUtils.FRESH, ["[a\\]b]"]).sections == map["global" := map[], "a]b" := map[]]
  {
    hide ConfLines.ParseLine;
    BracketParsed();
    assert ["[a\\]b]"][1..] == [];
  }

  lemma BracketAnswers(isUtf8: string -> bool)
    ensures var sections := map["global" := map[], "a]b" := map[]];
            ConfAnswers.SameAnswers(ConfRoundTrip.Loaded(ConfUtils.Printed(sections), isUtf8), sections)
  {
    hide ConfAnswers.SameAnswers, ConfUtils.Printed, ConfRoundTrip.Loaded;
    ConfAnswers.ReadableKeepsAnswers(map["global" := map[], "a]b" := map[]], isUtf8);
  }

  /** A section with a bracket in its name, and without keys: it is not restored,
      though every answer is kept. */
  lemma EmptySectionIsLost(isUtf8: string -> bool)
    requires KeyRingExact.AcceptsAscii(isUtf8)
    ensures var sections := map["global" := map[], "a]b" := map[]];
            && ConfRoundTrip.Loaded("[a\\]b]\n", isUtf8) == sections
            && !ConfFileExact.Restored(sections, isUtf8)
            && ConfAnswers.SameAnswers(ConfRoundTrip.Loaded(ConfUtils.Printed(sections), isUtf8), sections)
  {
    hide ConfRoundTrip.Loaded, ConfUtils.Load, ConfUtils.Printed, ConfFileExact.Restored, ConfRoundTrip.Text,
         ConfAnswers.SameAnswers;
    PlainLoaded(["[a\\]b]"], isUtf8);
    BracketText();
    BracketLoaded();
    BracketAnswers(isUtf8);
    BracketUnprintable(isUtf8);
    RestoredExact(map["global" := map[], "a]b" := map[]], isUtf8);
  }

  lemma BracketText()
    ensures ConfRoundTrip.Text(["[a\\]b]"]) == "[a\\]b]\n"
  {
  }

  lemma BracketUnprintable(isUtf8: string -> bool)
    ensures !ConfRoundTrip.Printable(map["global" := map[], "a]b" := map[]], isUtf8)
  {
    var sections: ConfUtils.Sections := map["global" := map[], "a]b" := map[]];
    assert "a]b" in sections && ']' in "a]b";
    assert !ConfRoundTrip.SectionNameOk("a]b");
  }

  /** A cap string with a quote does not come back. */
  lemma QuotedCapIsLost(isUtf8: string -> bool)
    requires KeyRingExact.AcceptsAscii(isUtf8)
    ensures var name := KeyRing.EntityName(KeyRing.Client, "admin");
            !KeyRingExact.Regained(map[name := KeyRing.NO_AUTH.(caps := map["mon" := "\""])], isUtf8)
  {
    var name := KeyRing.EntityName(KeyRing.Client, "admin");
    var keys := map[name := KeyRing.NO_AUTH.(caps := map["mon" := "\""])];
    assert !ConfRoundTrip.ValueOk("\"") by { assert '"' in "\""; }
    assert !KeyRingRoundTrip.ReadableCaps(keys[name].caps, isUtf8) by { assert "mon" in keys[name].caps; }
    assert name in keys;
    KeyRingExact.DecodePrintedExact(keys, isUtf8);
  }

  /** A secret of 64 KiB comes back empty. */
  lemma LongSecretIsLost(k: Crypto.CryptoKey)
    requires k.secret == Zeros(0x1_0000)
    ensures Crypto.KeyFromText(Crypto.KeyText(k)) == Some(k.(secret := []))
  {
    Armor.ArmorRoundTrip(Crypto.EncodeKey(k));
    Crypto.DecodeEncodeKey(k);
  }

  lemma CommentLoaded()
    ensures ConfUtils.Load(ConfUtils.FRESH, ["#"]).sections == map["global" := map["" := ""]]
  {
    assert ["#"][1..] == [];
    assert ConfLines.ParseLine("#") == ConfLines.Line(ConfLines.ConfLine("", "", ""));
  }

  lemma CommentPrintable(isUtf8: string -> bool)
    requires isUtf8("[global]")
    ensures ConfRoundTrip.Printable(map["global" := map["" := ""]], isUtf8)
  {
    assert ConfRoundTrip.SectionNameOk("global") && ConfUtils.SectionLine("global") == "[global]";
  }

  /** A comment is stored under the empty key, which read answers; what is printed
      of the file does not answer it. */
  lemma CommentIsLost(isUtf8: string -> bool)
    requires KeyRingExact.AcceptsAscii(isUtf8)
    ensures var sections := ConfRoundTrip.Loaded("#\n", isUtf8);
            && ConfUtils.Lookup(sections, "global", "") == Some("")
            && ConfUtils.Lookup(ConfRoundTrip.Loaded(ConfUtils.Printed(sections), isUtf8), "global", "") == None
  {
    hide ConfUtils.Load, ConfUtils.Printed, ConfRoundTrip.Loaded, ConfRoundTrip.Printable;
    PlainLoaded(["#"], isUtf8);
    assert ConfRoundTrip.Text(["#"]) == "#\n";
    CommentLoaded();
    CommentPrintable(isUtf8);
    ConfText.NormalizeSound("");
    ConfRoundTrip.PrintThenLoadKeepsAnswers(map["global" := map["" := ""]], isUtf8, "global", "");
  }

  /** Normalizing a key leaves a tab in it. */
  lemma TabStays()
    ensures ConfText.Normalize("a\tb") == "a\tb"
  {
    ConfText.NormalizeSound("a\tb");
  }

  // ----- diff streams and options -----

  /** A snapshot name of 4097 bytes is written, and refused when it is read. */
  lemma LongNameIsRefused()
    ensures var name := seq(4097, i => 97);
            RbdDiff.Import(RbdDiffRoundTrip.Stream([], None, Some(name), []), RbdDiff.Target([], map[], [])).1.Some?
  {
    var name: seq<byte> := seq(4097, i => 97);
    RbdDiffRoundTrip.DiffRoundTrip([], None, Some(name), [], [], map[]);
  }

  lemma {:induction false} EscapedLength(n: nat, special: set<char>)
    requires '=' in special
    ensures |QemuOptionsRoundTrip.Escaped(seq(n, i => '='), special)| == 2 * n
  {
    if n > 0 {
      assert seq(n, i => '=')[1..] == seq(n - 1, i => '=');
      EscapedLength(n - 1, special);
    }
  }

  /** A name of 64 characters, half of the limit, is too long once it is escaped. */
  lemma LongOptionIsLost(special: set<char>)
    requires QemuOptionsRoundTrip.Suffices(special)
    ensures var pairs := [QemuOptions.Pair(seq(64, i => '='), "v")];
            QemuOptions.ParsePairs(QemuOptionsRoundTrip.Joined(pairs, special)) != QemuOptions.Parse(pairs, false)
  {
    var pairs := [QemuOptions.Pair(seq(64, i => '='), "v")];
    EscapedLength(64, special);
    assert !QemuOptionsRoundTrip.Fits(pairs[0], special);
    QemuOptionsRoundTrip.OptionsRoundTrip(pairs, special);
  }

  // ----- stores and objects -----

  /** Two versions of a service, of which the older has the higher global version. */
  function CrossedStore(): MonStore.OldStore {
    map["auth" := MonStore.Service(1, 2, 0, 0, map[1 := [], 2 := []], true, map[1 := 2, 2 := 1], None)]
  }

  /** A service without files has no entries. */
  lemma NoEntries(names: seq<string>)
    requires "auth" !in names
    ensures MonStoreConverter.AllEntries(CrossedStore(), names) == []
  {
    if names != [] {
      var s := MonStore.NO_SERVICE;
      assert names[0] in names && MonStore.ServiceOf(CrossedStore(), names[0]) == s;
      assert MonStoreConverter.EntriesFrom(names[0], s, 1) == [];
      NoEntries(names[1..]);
    }
  }

  lemma CrossedEntries()
    ensures MonStoreConverter.AllEntries(CrossedStore(), MonStoreConverter.MACHINES)
         == [MonStoreConverter.Entry("auth", 1, [], Some(2)), MonStoreConverter.Entry("auth", 2, [], Some(1))]
  {
    var s, names := MonStore.ServiceOf(CrossedStore(), "auth"), MonStoreConverter.MACHINES;
    var a, b := MonStoreConverter.Entry("auth", 1, [], Some(2)), MonStoreConverter.Entry("auth", 2, [], Some(1));
    assert MonStoreConverter.EntriesFrom("auth", s, 3) == [];
    assert MonStoreConverter.EntriesFrom("auth", s, 2) == [b];
    assert MonStoreConverter.EntriesFrom("auth", s, 1) == [a, b];
    assert "auth" !in names[1..];
    NoEntries(names[1..]);
    assert [a, b] + [] == [a, b];
  }

  /** Every service ends with its last committed version. */
  lemma CrossedEnds()
    ensures MonStoreConverter.AllLastFound(map[], CrossedStore(), MonStoreConverter.MACHINES)
  {
    PaxosReplay.MachineNames();
    PaxosReplay.AllLastFoundExact(map[], CrossedStore(), MonStoreConverter.MACHINES);
  }

  lemma CrossedWindow()
    ensures PaxosReplay.Kept(CrossedStore(), MonStoreConverter.MACHINES, 1, 2)
  {
    hide MonStoreConverter.AllEntries;
    var a, b := MonStoreConverter.Entry("auth", 1, [], Some(2)), MonStoreConverter.Entry("auth", 2, [], Some(1));
    CrossedEntries();
    assert MonStoreConverter.GvsOf([a, b]) == {1, 2} by {
      assert a in [a, b] && b in [a, b];
    }
    PaxosReplay.MachineNames();
  }

  /** Such a store is converted, and replaying its log changes the result. */
  lemma ReplayChanges(acceptedPn: nat, lastPn: nat)
    ensures MonStoreConverter.AllLastFound(map[], CrossedStore(), MonStoreConverter.MACHINES)
    ensures PaxosReplay.Kept(CrossedStore(), MonStoreConverter.MACHINES, 1, 2)
    ensures var db := PaxosReplay.Converted(CrossedStore(), MonStoreConverter.MACHINES, 1, 2, acceptedPn, lastPn);
            PaxosReplay.Replayed(db, db, 1, 3) != db
  {
    hide MonStoreConverter.AllLastFound, MonStoreConverter.AllEntries, PaxosReplay.Converted, PaxosReplay.Replayed,
         PaxosReplay.Kept;
    var store, names := CrossedStore(), MonStoreConverter.MACHINES;
    var a, b := MonStoreConverter.Entry("auth", 1, [], Some(2)), MonStoreConverter.Entry("auth", 2, [], Some(1));
    CrossedEnds();
    CrossedWindow();
    CrossedEntries();
    var all := [a, b];
    assert all[..1] == [a];
    assert PaxosReplay.Owner([a], 2) == Some(a);
    assert PaxosReplay.Owner(all, 2) == Some(a);
    assert "auth" in names && !PaxosReplay.EndsCommitted(store, all, 1, 3, "auth");
    PaxosReplay.ReplayExact(store, names, 1, 2, acceptedPn, lastPn);
  }

  /** An entry under the empty key, or an attribute with a null, is not copied. */
  lemma NotCopied()
    ensures var o := RadosCopy.EMPTY_OBJECT.(omap := map["" := []]); RadosCopy.CopyOf(o) != o
    ensures var o := RadosCopy.EMPTY_OBJECT.(xattrs := map["\0" := []]); RadosCopy.CopyOf(o) != o
  {
    var o := RadosCopy.EMPTY_OBJECT.(omap := map["" := []]);
    var p := RadosCopy.EMPTY_OBJECT.(xattrs := map["\0" := []]);
    RadosCopy.CopyExact(o);
    RadosCopy.CopyExact(p);
    assert "" in o.omap && "\0" in p.xattrs && '\0' in "\0";
  }

  // ----- crush maps -----

  const PAIRS: CrushBuild.Layer := CrushBuild.Layer(CrushMap.List, 2)
  const ALL: CrushBuild.Layer := CrushBuild.Layer(CrushMap.Uniform, 0)

  lemma PairsGrouped(weights: seq<nat>)
    requires weights == [CrushBuild.UNIT, CrushBuild.UNIT, CrushBuild.UNIT]
    ensures CrushBuild.Grouped([0, 1, 2], weights, PAIRS, 1)
         == [CrushBuckets.Made(CrushMap.List, 1, [0, 1], weights[..2]),
             CrushBuckets.Made(CrushMap.List, 1, [2], weights[2..])]
    ensures CrushBuild.GroupWeights(weights, 2) == [2 * CrushBuild.UNIT, CrushBuild.UNIT]
  {
    hide CrushBuckets.Made, CrushMap.Sum;
    var items, last := [0, 1, 2], [CrushBuild.UNIT];
    GroupStep(items, weights, PAIRS, 1);
    assert items[..2] == [0, 1] && items[2..] == [2];
    assert weights[..2] == [CrushBuild.UNIT, CrushBuild.UNIT] && weights[2..] == last;
    GroupStep([2], last, PAIRS, 1);
    assert [2][..1] == [2] && [2][1..] == [] && last[..1] == last && last[1..] == [];
    PairSum(CrushBuild.UNIT, CrushBuild.UNIT);
  }

  /** Three devices in buckets of two: one bucket of two and one of one. */
  lemma PairsBuilt()
    ensures CrushBuild.Built(3, [PAIRS])
         == CrushBuild.Level([CrushBuckets.Made(CrushMap.List, 1, [0, 1], [CrushBuild.UNIT, CrushBuild.UNIT]),
                              CrushBuckets.Made(CrushMap.List, 1, [2], [CrushBuild.UNIT])],
                             [-1, -2], [2 * CrushBuild.UNIT, CrushBuild.UNIT])
  {
    hide CrushBuckets.Made, CrushBuild.Grouped, CrushBuild.GroupWeights;
    var weights := [CrushBuild.UNIT, CrushBuild.UNIT, CrushBuild.UNIT];
    var start := CrushBuild.Start(3);
    assert start.items == [0, 1, 2] && start.weights == weights;
    assert [PAIRS][..0] == [] && CrushBuild.Built(3, []) == start;
    PairsGrouped(weights);
    assert weights[..2] == [CrushBuild.UNIT, CrushBuild.UNIT] && weights[2..] == [CrushBuild.UNIT];
    CrushBuild.IdsAt(0, 2);
    assert CrushBuild.Ids(0, 2) == [-1, -2];
  }

  lemma GroupStep(items: seq<int>, weights: seq<nat>, layer: CrushBuild.Layer, kind: nat)
    requires |items| == |weights| > 0
    ensures var g := CrushBuild.GroupSize(|items|, layer.size);
            && CrushBuild.Grouped(items, weights, layer, kind)
               == [CrushBuckets.Made(layer.alg, kind, items[..g], weights[..g])]
                  + CrushBuild.Grouped(items[g..], weights[g..], layer, kind)
            && CrushBuild.GroupWeights(weights, layer.size)
               == [CrushMap.Sum(weights[..g])] + CrushBuild.GroupWeights(weights[g..], layer.size)
  {
  }

  lemma PairSum(a: nat, b: nat)
    ensures CrushMap.Sum([a]) == a && CrushMap.Sum([a, b]) == a + b
  {
    assert [a, b][1..] == [b] && [a][1..] == [] && [b][1..] == [];
  }

  lemma AllGrouped(weights: seq<nat>)
    requires weights == [2 * CrushBuild.UNIT, CrushBuild.UNIT]
    ensures CrushBuild.Grouped([-1, -2], weights, ALL, 2)
         == [CrushBuckets.Made(CrushMap.Uniform, 2, [-1, -2], weights)]
  {
    var items := [-1, -2];
    GroupStep(items, weights, ALL, 2);
    assert items[..2] == items && items[2..] == [] && weights[..2] == weights;
  }

  /** Those two in one uniform bucket: it stores the weight of four devices, and
      holds the three. */
  lemma UniformOverstates()
    ensures var l := CrushBuild.Built(3, [PAIRS, ALL]);
            && |l.buckets| == 3 && l.items == [-3]
            && l.buckets[2].weight == 4 * CrushBuild.UNIT
            && CrushBuild.Leaves(l.buckets, -3) == seq(3, i => i)
  {
    var layers := [PAIRS, ALL];
    PairsBuilt();
    assert layers[..1] == [PAIRS];
    AllGrouped([2 * CrushBuild.UNIT, CrushBuild.UNIT]);
    assert CrushBuild.Ids(2, 1) == [-3] by {
      assert CrushBuild.Ids(3, 0) == [];
    }
    CrushBuild.RootExact(3, layers);
  }

  /** Without the layer that takes all, the last bucket holds one device. */
  lemma RootIsIncomplete()
    ensures var l := CrushBuild.Built(3, [PAIRS]);
            |l.items| == 2 && CrushBuild.Leaves(l.buckets, l.items[1]) == [2]
  {
    PairsBuilt();
    var l := CrushBuild.Built(3, [PAIRS]);
    assert CrushBuild.Leaves(l.buckets, 2) == [2] && [2][1..] == [];
    assert CrushBuild.LeavesAll(l.buckets[..1], [2]) == [2] by {
      assert CrushBuild.LeavesAll(l.buckets[..1], []) == [];
    }
  }

  // ----- fake inodes -----

  lemma {:induction false} TagsCount(n: nat)
    requires n < FuseInodes.NOSNAP
    ensures var t := FuseInodes.TagsAfter(seq(n, i => i));
            t.last == n && forall s: nat :: s in t.ofSnap <==> s < n || s == FuseInodes.NOSNAP
  {
    if n > 0 {
      assert seq(n, i => i)[..n - 1] == seq(n - 1, i => i);
      TagsCount(n - 1);
    }
  }

  /** The snapshot that gets tag 2 to the 16 decodes as the live one. */
  lemma LateSnapshotIsLost(root: nat)
    ensures var snaps := seq(0x1_0000, i => i);
            var f := FuseInodes.Fino(snaps, 0xffff, 5);
            var t := FuseInodes.TagsAfter(snaps);
            && FuseInodes.Inverse(t) && FuseInodes.FinoStag(f) in t.ofTag && f != 1
            && FuseInodes.Decoded(t, root, f) == (5, FuseInodes.NOSNAP)
  {
    var snaps := seq(0x1_0000, i => i);
    var n := 0xffff;
    assert snaps[..n] == seq(n, i => i) && snaps[..n + 1] == snaps && snaps[..n + 1][..n] == snaps[..n];
    TagsCount(n);
    FuseInodes.RunInverse(snaps);
    FuseInodes.RunHas(snaps, n);
    assert FuseInodes.TagOf(snaps, n) == 0x1_0000;
    FuseInodes.PackExact(5, 0x1_0000);
  }

  /** The first inode with 49 bits is cut. */
  lemma LargeInodeIsLost(stag: nat)
    ensures FuseInodes.FinoIno(FuseInodes.MakeFino(FuseInodes.INO_LIMIT, stag)) != FuseInodes.INO_LIMIT
  {
    FuseInodes.PackExact(FuseInodes.INO_LIMIT, stag);
  }
}
