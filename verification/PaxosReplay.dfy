/** The log that the converter leaves behind, replayed over the store that it
    leaves behind. */
module PaxosReplay {
  import opened Basics
  import opened MonStore
  import opened MonStoreConverter
  import Ordered

  /** The last entry to log itself under a global version: later ones overwrite
      earlier ones. */
  function Owner(entries: seq<Entry>, g: nat): Option<Entry> {
    if entries == [] then None
    else
      var e := entries[|entries| - 1];
      if e.gv == Some(g) then Some(e) else Owner(entries[..|entries| - 1], g)
  }

  lemma OwnerSnoc(entries: seq<Entry>, e: Entry, g: nat)
    ensures Owner(entries + [e], g) == if e.gv == Some(g) then Some(e) else Owner(entries, g)
  {
    assert (entries + [e])[..|entries|] == entries;
  }

  lemma {:induction false} OwnerSound(entries: seq<Entry>, g: nat)
    ensures Owner(entries, g).Some? ==> Owner(entries, g).value in entries && Owner(entries, g).value.gv == Some(g)
    ensures Owner(entries, g).Some? <==> g in GvsOf(entries)
  {
    if entries != [] {
      var n := |entries| - 1;
      OwnerSound(entries[..n], g);
      assert entries == entries[..n] + [entries[n]];
      GvsAppend(entries[..n], [entries[n]]);
    }
  }

  // ----- what conversion records -----

  function LogPlace(g: nat): Place {
    ("paxos", Ver(g))
  }

  function LastCommitted(machine: string): Place {
    (machine, Named("last_committed"))
  }

  /** The entry is a version file of the old store. */
  predicate Genuine(e: Entry, store: OldStore) {
    var s := ServiceOf(store, e.machine);
    e.machine != "paxos" && e.ver in s.versions && e == EntryOf(e.machine, s, e.ver) && e.ver <= s.lastCommitted
  }

  predicate StoredAt(db: Db, e: Entry) {
    (e.machine, Ver(e.ver)) in db && db[(e.machine, Ver(e.ver))] == Raw(e.bl)
  }

  predicate RecordedAt(db: Db, entries: seq<Entry>, g: nat) {
    && (LogPlace(g) in db <==> Owner(entries, g).Some?)
    && (Owner(entries, g).Some? ==> db[LogPlace(g)] == Encoded(VersionTx(Owner(entries, g).value)))
  }

  /** Every version is stored with its own bytes, and the log holds, under each
      global version, the transaction of its owner. */
  ghost predicate Recorded(db: Db, entries: seq<Entry>) {
    && (forall g: nat :: RecordedAt(db, entries, g))
    && (forall e | e in entries :: StoredAt(db, e))
  }

  ghost predicate AllGenuine(entries: seq<Entry>, store: OldStore) {
    forall e | e in entries :: Genuine(e, store)
  }

  lemma VersionTxApplied(db: Db, e: Entry)
    ensures Applied(db, VersionTx(e))
         == db[(e.machine, Ver(e.ver)) := Raw(e.bl)][LastCommitted(e.machine) := Int(e.ver)]
  {
    var a, b := Put(e.machine, Ver(e.ver), Raw(e.bl)), Put(e.machine, Named("last_committed"), Int(e.ver));
    assert [a, b] == [a] + [b];
    AppliedAppend(db, [a], [b]);
    AppliedOne(db, a);
    AppliedOne(Applied(db, [a]), b);
  }

  function AfterEntry(db: Db, e: Entry): Db {
    var db1 := db[(e.machine, Ver(e.ver)) := Raw(e.bl)][LastCommitted(e.machine) := Int(e.ver)];
    if e.gv.Some? then db1[LogPlace(e.gv.value) := Encoded(VersionTx(e))] else db1
  }

  lemma ConvertTxApplied(db: Db, e: Entry)
    ensures Applied(db, ConvertTx(e)) == AfterEntry(db, e)
  {
    VersionTxApplied(db, e);
    if e.gv.Some? {
      var log := Put("paxos", Ver(e.gv.value), Encoded(VersionTx(e)));
      AppliedAppend(db, VersionTx(e), [log]);
      AppliedOne(Applied(db, VersionTx(e)), log);
    } else {
      assert VersionTx(e) + [] == VersionTx(e);
    }
  }

  lemma RecordOne(db: Db, done: seq<Entry>, e: Entry, store: OldStore)
    requires Recorded(db, done) && Genuine(e, store) && AllGenuine(done, store)
    ensures Recorded(AfterEntry(db, e), done + [e]) && AllGenuine(done + [e], store)
  {
    var next := AfterEntry(db, e);
    forall g: nat ensures RecordedAt(next, done + [e], g) {
      assert RecordedAt(db, done, g);
      OwnerSnoc(done, e, g);
    }
    forall x | x in done + [e] ensures StoredAt(next, x) {
      if x in done {
        assert StoredAt(db, x) && Genuine(x, store);
      }
    }
  }

  lemma {:induction false} RecordEntries(db: Db, done: seq<Entry>, entries: seq<Entry>, store: OldStore)
    requires Recorded(db, done) && AllGenuine(done, store) && AllGenuine(entries, store)
    ensures Recorded(ConvertedEntries(db, entries), done + entries) && AllGenuine(done + entries, store)
    decreases |entries|
  {
    if entries == [] {
      assert done + entries == done;
    } else {
      var e := entries[0];
      assert e in entries;
      ConvertTxApplied(db, e);
      RecordOne(db, done, e, store);
      assert done + [e] + entries[1..] == done + entries;
      RecordEntries(AfterEntry(db, e), done + [e], entries[1..], store);
    }
  }

  /** What converting the entries of a service does to the other places. */
  ghost predicate SameLast(db: Db, next: Db, m: string) {
    (LastCommitted(m) in next <==> LastCommitted(m) in db)
    && (LastCommitted(m) in db ==> next[LastCommitted(m)] == db[LastCommitted(m)])
  }

  lemma {:induction false} EntriesElsewhere(db: Db, entries: seq<Entry>, machine: string, m: string)
    requires m != machine
    requires forall x | x in entries :: x.machine == machine
    ensures SameLast(db, ConvertedEntries(db, entries), m)
    decreases |entries|
  {
    if entries != [] {
      var e := entries[0];
      assert e in entries;
      ConvertTxApplied(db, e);
      assert SameLast(db, AfterEntry(db, e), m);
      EntriesElsewhere(AfterEntry(db, e), entries[1..], machine, m);
    }
  }

  /** The last entry is left as the last committed version. */
  lemma {:induction false} LastEntryCommitted(db: Db, entries: seq<Entry>, machine: string)
    requires entries != []
    requires forall x | x in entries :: x.machine == machine
    ensures GetInt(ConvertedEntries(db, entries), machine, Named("last_committed")) == entries[|entries| - 1].ver
    decreases |entries|
  {
    var e, rest := entries[0], entries[1..];
    assert e in entries;
    ConvertTxApplied(db, e);
    if rest == [] {
      assert entries == [e];
    } else {
      LastEntryCommitted(AfterEntry(db, e), rest, machine);
    }
  }

  lemma {:induction false} EntriesGenuine(store: OldStore, machine: string, ver: nat)
    requires machine != "paxos"
    ensures AllGenuine(EntriesFrom(machine, ServiceOf(store, machine), ver), store)
    ensures forall e | e in EntriesFrom(machine, ServiceOf(store, machine), ver) :: e.machine == machine
    decreases ServiceOf(store, machine).lastCommitted + 1 - ver
  {
    var s := ServiceOf(store, machine);
    if ver <= s.lastCommitted {
      EntriesGenuine(store, machine, ver + 1);
    }
  }

  // ----- the closing transaction -----

  /** Only names and full maps of one service differ. */
  ghost predicate SameButNames(db: Db, next: Db, machine: string) {
    forall p: Place | p.0 != machine || p.1.Ver? :: (p in next <==> p in db) && (p in db ==> next[p] == db[p])
  }

  predicate OnlyNames(tx: seq<Op>, machine: string) {
    forall i | 0 <= i < |tx| :: tx[i].Put? && tx[i].prefix == machine && !tx[i].key.Ver?
  }

  lemma {:induction false} NamesApplied(db: Db, tx: seq<Op>, machine: string)
    requires OnlyNames(tx, machine)
    ensures SameButNames(db, Applied(db, tx), machine)
    decreases |tx|
  {
    if tx != [] {
      NamesApplied(db[(tx[0].prefix, tx[0].key) := tx[0].value], tx[1..], machine);
    }
  }

  predicate LastIs(db: Db, machine: string, n: nat) {
    LastCommitted(machine) in db && db[LastCommitted(machine)] == Int(n)
  }

  lemma {:induction false} KeepsLast(db: Db, tx: seq<Op>, machine: string, n: nat)
    requires LastIs(db, machine, n)
    requires forall i | 0 <= i < |tx| :: tx[i].Put? && tx[i].key != Named("last_committed")
    ensures LastIs(Applied(db, tx), machine, n)
    decreases |tx|
  {
    if tx != [] {
      KeepsLast(db[(tx[0].prefix, tx[0].key) := tx[0].value], tx[1..], machine, n);
    }
  }

  lemma ClosingApplied(db: Db, machine: string, s: Service)
    ensures LastIs(Applied(db, ClosingTx(machine, s)), machine, s.lastCommitted)
    ensures SameButNames(db, Applied(db, ClosingTx(machine, s)), machine)
  {
    var tx := ClosingTx(machine, s);
    NamesApplied(db, tx, machine);
    var last := tx[1];
    assert tx == [tx[0]] + ([last] + tx[2..]);
    AppliedAppend(db, [tx[0]], [last] + tx[2..]);
    var db1 := Applied(db, [tx[0]]);
    AppliedAppend(db1, [last], tx[2..]);
    AppliedOne(db1, last);
    assert LastIs(Applied(db1, [last]), machine, s.lastCommitted);
    KeepsLast(Applied(db1, [last]), tx[2..], machine, s.lastCommitted);
  }

  // ----- all services -----

  /** Every service that was converted stores its own last committed version. */
  ghost predicate Closed(db: Db, store: OldStore, machines: set<string>) {
    forall m | m in machines :: LastIs(db, m, ServiceOf(store, m).lastCommitted)
  }

  lemma RecordMachine(db: Db, done: seq<Entry>, store: OldStore, machine: string)
    requires Recorded(db, done) && AllGenuine(done, store) && machine != "paxos"
    ensures Recorded(ConvertedMachine(db, machine, ServiceOf(store, machine)),
                     done + EntriesOf(machine, ServiceOf(store, machine)))
    ensures AllGenuine(done + EntriesOf(machine, ServiceOf(store, machine)), store)
  {
    var s := ServiceOf(store, machine);
    var entries := EntriesOf(machine, s);
    EntriesGenuine(store, machine, s.firstCommitted);
    RecordEntries(db, done, entries, store);
    var mid := ConvertedEntries(db, entries);
    ClosingApplied(mid, machine, s);
    RecordedSame(mid, Applied(mid, ClosingTx(machine, s)), done + entries, machine);
  }

  lemma RecordedSame(db: Db, next: Db, entries: seq<Entry>, machine: string)
    requires Recorded(db, entries) && SameButNames(db, next, machine)
    ensures Recorded(next, entries)
  {
    forall g: nat ensures RecordedAt(next, entries, g) {
      assert RecordedAt(db, entries, g);
    }
    forall e | e in entries ensures StoredAt(next, e) {
      assert StoredAt(db, e);
    }
  }

  lemma CloseMachine(db: Db, store: OldStore, machines: set<string>, machine: string)
    requires Closed(db, store, machines) && machine != "paxos"
    ensures Closed(ConvertedMachine(db, machine, ServiceOf(store, machine)), store, machines + {machine})
  {
    var s := ServiceOf(store, machine);
    var entries := EntriesOf(machine, s);
    EntriesGenuine(store, machine, s.firstCommitted);
    var mid := ConvertedEntries(db, entries);
    ClosingApplied(mid, machine, s);
    forall m | m in machines && m != machine
      ensures LastIs(ConvertedMachine(db, machine, s), m, ServiceOf(store, m).lastCommitted)
    {
      EntriesElsewhere(db, entries, machine, m);
      assert LastIs(mid, m, ServiceOf(store, m).lastCommitted);
    }
  }

  lemma {:induction false} RecordMachines(db: Db, done: seq<Entry>, store: OldStore, names: seq<string>)
    requires Recorded(db, done) && AllGenuine(done, store) && "paxos" !in names
    ensures Recorded(ConvertedMachines(db, store, names), done + AllEntries(store, names))
    ensures AllGenuine(done + AllEntries(store, names), store)
    decreases |names|
  {
    if names == [] {
      assert done + AllEntries(store, names) == done;
    } else {
      var s := ServiceOf(store, names[0]);
      var entries := EntriesOf(names[0], s);
      RecordMachine(db, done, store, names[0]);
      RecordMachines(ConvertedMachine(db, names[0], s), done + entries, store, names[1..]);
      Ordered.Assoc(done, entries, AllEntries(store, names[1..]));
    }
  }

  function NameSet(names: seq<string>): set<string> {
    set n | n in names
  }

  lemma {:induction false} CloseMachines(db: Db, store: OldStore, machines: set<string>, names: seq<string>)
    requires Closed(db, store, machines) && "paxos" !in names
    ensures Closed(ConvertedMachines(db, store, names), store, machines + NameSet(names))
    decreases |names|
  {
    if names == [] {
      assert machines + NameSet(names) == machines;
    } else {
      CloseMachine(db, store, machines, names[0]);
      var next := ConvertedMachine(db, names[0], ServiceOf(store, names[0]));
      CloseMachines(next, store, machines + {names[0]}, names[1..]);
      assert machines + {names[0]} + NameSet(names[1..]) == machines + NameSet(names);
    }
  }

  /** The entries of all services together are those of each. */
  lemma {:induction false} AllEntriesSplit(store: OldStore, names: seq<string>, e: Entry)
    requires "paxos" !in names
    ensures e in AllEntries(store, names)
       <==> e.machine in names && e in EntriesOf(e.machine, ServiceOf(store, e.machine))
  {
    if names != [] {
      EntriesGenuine(store, names[0], ServiceOf(store, names[0]).firstCommitted);
      AllEntriesSplit(store, names[1..], e);
    }
  }

  // ----- which old stores can be converted -----

  /** The last committed version of a service is one of its files, or there is
      nothing to commit. */
  predicate Ends(s: Service) {
    s.lastCommitted == 0 || (s.firstCommitted <= s.lastCommitted && s.lastCommitted in s.versions)
  }

  /** The last entry, if any, is a version up to the last committed one, and that one
      itself if it is there. */
  lemma {:induction false} LastEntry(machine: string, s: Service, ver: nat)
    ensures var entries := EntriesFrom(machine, s, ver);
            && (entries != [] ==> entries[|entries| - 1].ver <= s.lastCommitted)
            && (entries != [] && entries[|entries| - 1].ver == s.lastCommitted
                <==> ver <= s.lastCommitted && s.lastCommitted in s.versions)
    ensures forall e | e in EntriesFrom(machine, s, ver) :: e.machine == machine
    decreases s.lastCommitted + 1 - ver
  {
    if ver <= s.lastCommitted {
      LastEntry(machine, s, ver + 1);
    }
  }

  /** On a store that knows nothing of the service, the assertion holds if and only
      if its last committed version is there. */
  lemma LastFoundExact(db: Db, machine: string, s: Service)
    requires LastCommitted(machine) !in db
    ensures LastFound(db, machine, s) <==> Ends(s)
  {
    var entries := EntriesOf(machine, s);
    LastEntry(machine, s, s.firstCommitted);
    if entries != [] {
      LastEntryCommitted(db, entries, machine);
    }
  }

  ghost predicate Unknown(db: Db, names: seq<string>) {
    forall m | m in names :: LastCommitted(m) !in db
  }

  lemma StillUnknown(db: Db, machine: string, s: Service, m: string)
    requires LastCommitted(m) !in db && m != machine
    ensures LastCommitted(m) !in ConvertedMachine(db, machine, s)
  {
    var entries := EntriesOf(machine, s);
    LastEntry(machine, s, s.firstCommitted);
    EntriesElsewhere(db, entries, machine, m);
    ClosingApplied(ConvertedEntries(db, entries), machine, s);
  }

  /** The assertions of the conversion all hold if and only if every service ends
      with its last committed version. */
  lemma {:induction false} AllLastFoundExact(db: Db, store: OldStore, names: seq<string>)
    requires Unknown(db, names) && Distinct(names)
    ensures AllLastFound(db, store, names) <==> forall m | m in names :: Ends(ServiceOf(store, m))
    decreases |names|
  {
    if names != [] {
      var s, rest := ServiceOf(store, names[0]), names[1..];
      LastFoundExact(db, names[0], s);
      forall i | 0 <= i < |rest| ensures rest[i] != names[0] {
        assert rest[i] == names[i + 1];
      }
      forall m | m in rest ensures LastCommitted(m) !in ConvertedMachine(db, names[0], s) {
        StillUnknown(db, names[0], s, m);
      }
      AllLastFoundExact(ConvertedMachine(db, names[0], s), store, rest);
    }
  }

  /** A version that the conversion logs. */
  predicate Logs(s: Service, v: nat) {
    s.firstCommitted <= v <= s.lastCommitted && v in s.versions && s.hasGv && v in s.gv
  }

  lemma {:induction false} EntryIn(machine: string, s: Service, ver: nat, v: nat)
    requires ver <= v <= s.lastCommitted && v in s.versions
    ensures EntryOf(machine, s, v) in EntriesFrom(machine, s, ver)
    decreases v - ver
  {
    if ver < v {
      EntryIn(machine, s, ver + 1, v);
    }
  }

  lemma {:induction false} EntryFrom(machine: string, s: Service, ver: nat, e: Entry)
    requires e in EntriesFrom(machine, s, ver)
    ensures ver <= e.ver <= s.lastCommitted && e.ver in s.versions && e == EntryOf(machine, s, e.ver)
    decreases s.lastCommitted + 1 - ver
  {
    if !(ver in s.versions && e == EntryOf(machine, s, ver)) {
      EntryFrom(machine, s, ver + 1, e);
    }
  }

  /** Something is logged if and only if some version has a global version. */
  lemma LogsExact(store: OldStore, names: seq<string>)
    requires "paxos" !in names
    ensures GvsOf(AllEntries(store, names)) != {} <==> exists m, v :: m in names && Logs(ServiceOf(store, m), v)
  {
    var all := AllEntries(store, names);
    if g :| g in GvsOf(all) {
      var e :| e in all && e.gv == Some(g);
      AllEntriesSplit(store, names, e);
      var s := ServiceOf(store, e.machine);
      EntryFrom(e.machine, s, s.firstCommitted, e);
      assert e.machine in names && Logs(s, e.ver);
    }
    if m, v :| m in names && Logs(ServiceOf(store, m), v) {
      var s := ServiceOf(store, m);
      var e := EntryOf(m, s, v);
      EntryIn(m, s, s.firstCommitted, v);
      AllEntriesSplit(store, names, e);
      assert e.gv.value in GvsOf(all);
    }
  }

  // ----- the whole conversion -----

  /** The new store after converting these services, for a window of the log. */
  function Converted(store: OldStore, names: seq<string>, lo: nat, hi: nat, acceptedPn: nat, lastPn: nat): Db {
    ConvertedPaxos(ConvertedMachines(map[], store, names), GvsOf(AllEntries(store, names)), lo, hi, acceptedPn, lastPn)
  }

  /** The choice that the converter makes for the log: see Converter.ConvertPaxos. */
  ghost predicate Kept(store: OldStore, names: seq<string>, lo: nat, hi: nat) {
    "paxos" !in names && IsWindow(GvsOf(AllEntries(store, names)), lo, hi)
  }

  lemma PaxosPlaces(db: Db, gvs: set<nat>, lo: nat, hi: nat, acceptedPn: nat, lastPn: nat, p: Place)
    requires p.0 != "paxos" || p.1.Ver?
    ensures var next := ConvertedPaxos(db, gvs, lo, hi, acceptedPn, lastPn);
            && (p in next <==> p in db && !(p.0 == "paxos" && p.1.version in gvs && p.1.version < lo))
            && (p in next ==> next[p] == db[p])
  {
    var gone := set g | g in gvs && g < lo :: ("paxos", Ver(g));
    if p.0 == "paxos" {
      assert p == ("paxos", Ver(p.1.version));
      assert p in gone <==> p.1.version in gvs && p.1.version < lo;
    }
  }

  lemma RecordedAll(store: OldStore, names: seq<string>)
    requires "paxos" !in names
    ensures Recorded(ConvertedMachines(map[], store, names), AllEntries(store, names))
    ensures AllGenuine(AllEntries(store, names), store)
    ensures Closed(ConvertedMachines(map[], store, names), store, NameSet(names))
  {
    var db: Db := map[];
    forall g: nat ensures RecordedAt(db, [], g) {}
    assert Recorded(db, []);
    RecordMachines(db, [], store, names);
    assert [] + AllEntries(store, names) == AllEntries(store, names);
    CloseMachines(db, store, {}, names);
    assert {} + NameSet(names) == NameSet(names);
  }

  /** What the converted store records: the log between its bounds and nothing
      else of the log, every version, and every last committed version. */
  ghost predicate RecordedIn(db: Db, entries: seq<Entry>, lo: nat, hi: nat) {
    && (forall g: nat :: LogPlace(g) in db <==> lo <= g <= hi)
    && (forall g: nat | lo <= g <= hi :: Owner(entries, g).Some? && RecordedAt(db, entries, g))
    && (forall e | e in entries :: e.machine != "paxos" && StoredAt(db, e) && LastCommitted(e.machine) in db)
  }

  lemma ConvertedLog(store: OldStore, names: seq<string>, lo: nat, hi: nat, acceptedPn: nat, lastPn: nat, g: nat)
    requires Kept(store, names, lo, hi)
    ensures var db, all := Converted(store, names, lo, hi, acceptedPn, lastPn), AllEntries(store, names);
            && (LogPlace(g) in db <==> lo <= g <= hi)
            && (lo <= g <= hi ==> Owner(all, g).Some? && RecordedAt(db, all, g))
  {
    var all, db0 := AllEntries(store, names), ConvertedMachines(map[], store, names);
    RecordedAll(store, names);
    assert RecordedAt(db0, all, g);
    OwnerSound(all, g);
    PaxosPlaces(db0, GvsOf(all), lo, hi, acceptedPn, lastPn, LogPlace(g));
  }

  lemma ConvertedVersion(store: OldStore, names: seq<string>, lo: nat, hi: nat, acceptedPn: nat, lastPn: nat, e: Entry)
    requires Kept(store, names, lo, hi) && e in AllEntries(store, names)
    ensures StoredAt(Converted(store, names, lo, hi, acceptedPn, lastPn), e) && e.machine in names
  {
    var all, db0 := AllEntries(store, names), ConvertedMachines(map[], store, names);
    RecordedAll(store, names);
    AllEntriesSplit(store, names, e);
    assert StoredAt(db0, e);
    PaxosPlaces(db0, GvsOf(all), lo, hi, acceptedPn, lastPn, (e.machine, Ver(e.ver)));
  }

  lemma ConvertedLast(store: OldStore, names: seq<string>, lo: nat, hi: nat, acceptedPn: nat, lastPn: nat, m: string)
    requires Kept(store, names, lo, hi) && m in names
    ensures LastIs(Converted(store, names, lo, hi, acceptedPn, lastPn), m, ServiceOf(store, m).lastCommitted)
  {
    var all, db0 := AllEntries(store, names), ConvertedMachines(map[], store, names);
    RecordedAll(store, names);
    assert m in NameSet(names);
    assert LastIs(db0, m, ServiceOf(store, m).lastCommitted);
    PaxosPlaces(db0, GvsOf(all), lo, hi, acceptedPn, lastPn, LastCommitted(m));
  }

  lemma ConvertedRecorded(store: OldStore, names: seq<string>, lo: nat, hi: nat, acceptedPn: nat, lastPn: nat)
    requires Kept(store, names, lo, hi)
    ensures RecordedIn(Converted(store, names, lo, hi, acceptedPn, lastPn), AllEntries(store, names), lo, hi)
  {
    var db, all := Converted(store, names, lo, hi, acceptedPn, lastPn), AllEntries(store, names);
    forall g: nat
      ensures LogPlace(g) in db <==> lo <= g <= hi
      ensures lo <= g <= hi ==> Owner(all, g).Some? && RecordedAt(db, all, g)
    {
      ConvertedLog(store, names, lo, hi, acceptedPn, lastPn, g);
    }
    forall e | e in all ensures e.machine != "paxos" && StoredAt(db, e) && LastCommitted(e.machine) in db {
      ConvertedVersion(store, names, lo, hi, acceptedPn, lastPn, e);
      ConvertedLast(store, names, lo, hi, acceptedPn, lastPn, e.machine);
    }
  }

  /** The stored log is exactly the interval between the bounds that are stored
      with it: it ends at the highest global version, holds at most 50, and could
      not be longer without a gap or without holding more. */
  lemma PaxosWindow(store: OldStore, names: seq<string>, lo: nat, hi: nat, acceptedPn: nat, lastPn: nat)
    requires Kept(store, names, lo, hi)
    ensures var db, gvs := Converted(store, names, lo, hi, acceptedPn, lastPn), GvsOf(AllEntries(store, names));
            var first := GetInt(db, "paxos", Named("first_committed"));
            var last := GetInt(db, "paxos", Named("last_committed"));
            && (forall g: nat :: LogPlace(g) in db <==> first <= g <= last)
            && (forall g: nat | LogPlace(g) in db :: g in gvs)
            && IsMax(last, gvs)
            && last - first + 1 <= PAXOS_MAX_VERSIONS
            && (last - first + 1 == PAXOS_MAX_VERSIONS || first == 0 || first - 1 !in gvs)
  {
    hide Owner, StoredAt, AllEntries, GvsOf;
    ConvertedRecorded(store, names, lo, hi, acceptedPn, lastPn);
  }

  // ----- replay -----

  /** The logged transaction of a global version. */
  function LogTx(log: Db, g: nat): seq<Op> {
    if LogPlace(g) in log && log[LogPlace(g)].Encoded? then log[LogPlace(g)].tx else []
  }

  /** The transactions from lo up to and without n, applied in order. */
  function Replayed(db: Db, log: Db, lo: nat, n: nat): Db {
    if n <= lo then db else Applied(Replayed(db, log, lo, n - 1), LogTx(log, n - 1))
  }

  /** The last of these that concerns a service. */
  function LastOwner(entries: seq<Entry>, machine: string, lo: nat, n: nat): Option<Entry> {
    if n <= lo then None
    else if Owner(entries, n - 1).Some? && Owner(entries, n - 1).value.machine == machine then Owner(entries, n - 1)
    else LastOwner(entries, machine, lo, n - 1)
  }

  /** Replay changes nothing but the last committed versions, which it sets to the
      last that it sees. */
  predicate ReplayAt(db: Db, entries: seq<Entry>, lo: nat, n: nat, r: Db, p: Place) {
    && (p in r <==> p in db)
    && (p in db ==>
          r[p] == if p.1 == Named("last_committed") && LastOwner(entries, p.0, lo, n).Some?
                  then Int(LastOwner(entries, p.0, lo, n).value.ver) else db[p])
  }

  ghost predicate ReplayState(db: Db, entries: seq<Entry>, lo: nat, n: nat, r: Db) {
    forall p: Place :: ReplayAt(db, entries, lo, n, r, p)
  }

  lemma ReplayOne(db: Db, entries: seq<Entry>, lo: nat, n: nat, r: Db, e: Entry)
    requires n >= lo && Owner(entries, n) == Some(e) && StoredAt(db, e) && LastCommitted(e.machine) in db
    requires ReplayState(db, entries, lo, n, r)
    ensures ReplayState(db, entries, lo, n + 1,
                        r[(e.machine, Ver(e.ver)) := Raw(e.bl)][LastCommitted(e.machine) := Int(e.ver)])
  {
    var next := r[(e.machine, Ver(e.ver)) := Raw(e.bl)][LastCommitted(e.machine) := Int(e.ver)];
    var m := n + 1;
    forall p: Place ensures ReplayAt(db, entries, lo, m, next, p) {
      assert ReplayAt(db, entries, lo, n, r, p);
    }
  }

  lemma {:induction false} ReplayedState(db: Db, entries: seq<Entry>, lo: nat, n: nat, hi: nat)
    requires RecordedIn(db, entries, lo, hi) && lo <= n <= hi + 1
    ensures ReplayState(db, entries, lo, n, Replayed(db, db, lo, n))
    decreases n
  {
    if n > lo {
      var g := n - 1;
      ReplayedState(db, entries, lo, g, hi);
      OwnerSound(entries, g);
      assert RecordedAt(db, entries, g);
      var e := Owner(entries, g).value;
      VersionTxApplied(Replayed(db, db, lo, g), e);
      ReplayOne(db, entries, lo, g, Replayed(db, db, lo, g), e);
    }
  }

  lemma {:induction false} LastOwnerSound(entries: seq<Entry>, machine: string, lo: nat, n: nat)
    ensures var o := LastOwner(entries, machine, lo, n);
            o.Some? ==>
              && o.value in entries && o.value.machine == machine
              && o.value.gv.Some? && lo <= o.value.gv.value < n
              && forall g: nat | o.value.gv.value < g < n ::
                   Owner(entries, g).Some? ==> Owner(entries, g).value.machine != machine
  {
    if n > lo {
      OwnerSound(entries, n - 1);
      LastOwnerSound(entries, machine, lo, n - 1);
    }
  }

  /** The last transaction of a service in the log, if any, is for its last
      committed version. */
  predicate EndsCommitted(store: OldStore, entries: seq<Entry>, lo: nat, n: nat, m: string) {
    var o := LastOwner(entries, m, lo, n);
    o.Some? ==> o.value.ver == ServiceOf(store, m).lastCommitted
  }

  lemma SameExact(db: Db, entries: seq<Entry>, lo: nat, n: nat, r: Db)
    requires ReplayState(db, entries, lo, n, r)
    ensures r == db
       <==> forall m: string ::
              LastCommitted(m) in db && LastOwner(entries, m, lo, n).Some? ==>
                db[LastCommitted(m)] == Int(LastOwner(entries, m, lo, n).value.ver)
  {
    forall m: string
      ensures LastCommitted(m) in db && LastOwner(entries, m, lo, n).Some? ==>
                LastCommitted(m) in r && r[LastCommitted(m)] == Int(LastOwner(entries, m, lo, n).value.ver)
    {
      assert ReplayAt(db, entries, lo, n, r, LastCommitted(m));
    }
    if forall m: string ::
         LastCommitted(m) in db && LastOwner(entries, m, lo, n).Some? ==>
           db[LastCommitted(m)] == Int(LastOwner(entries, m, lo, n).value.ver)
    {
      forall p: Place ensures (p in r <==> p in db) && (p in db ==> r[p] == db[p]) {
        assert ReplayAt(db, entries, lo, n, r, p);
        assert p.1 == Named("last_committed") ==> p == LastCommitted(p.0);
      }
      assert r == db;
    }
  }

  /** Replaying the retained log changes nothing if and only if, for every service
      that occurs in it, the last transaction is for the last committed version. */
  lemma ReplayExact(store: OldStore, names: seq<string>, lo: nat, hi: nat, acceptedPn: nat, lastPn: nat)
    requires Kept(store, names, lo, hi)
    ensures var db := Converted(store, names, lo, hi, acceptedPn, lastPn);
            Replayed(db, db, lo, hi + 1) == db
            <==> forall m | m in names :: EndsCommitted(store, AllEntries(store, names), lo, hi + 1, m)
  {
    var db, all := Converted(store, names, lo, hi, acceptedPn, lastPn), AllEntries(store, names);
    var n := hi + 1;
    ConvertedRecorded(store, names, lo, hi, acceptedPn, lastPn);
    ReplayedState(db, all, lo, n, hi);
    SameExact(db, all, lo, n, Replayed(db, db, lo, n));
    forall m: string
      ensures LastOwner(all, m, lo, n).Some? ==> m in names
      ensures m in names ==> LastIs(db, m, ServiceOf(store, m).lastCommitted)
    {
      LastOwnerSound(all, m, lo, n);
      if LastOwner(all, m, lo, n).Some? {
        AllEntriesSplit(store, names, LastOwner(all, m, lo, n).value);
      }
      if m in names {
        ConvertedLast(store, names, lo, hi, acceptedPn, lastPn, m);
      }
    }
  }

  // ----- when replay is a no-op -----

  /** Every version has a global version; these are distinct, and increase with
      the version within a service. */
  ghost predicate Numbered(entries: seq<Entry>) {
    && (forall e | e in entries :: e.gv.Some?)
    && (forall e, f | e in entries && f in entries :: e.gv == f.gv ==> e == f)
    && (forall e, f | e in entries && f in entries ::
          e.machine == f.machine && e.ver < f.ver ==> e.gv.value < f.gv.value)
  }

  lemma {:induction false} LastPresent(db: Db, store: OldStore, names: seq<string>, m: string)
    requires AllLastFound(db, store, names) && m in names && "paxos" !in names
    requires EntriesOf(m, ServiceOf(store, m)) != []
    ensures exists e :: e in AllEntries(store, names) && e.machine == m && e.ver == ServiceOf(store, m).lastCommitted
    decreases |names|
  {
    if m == names[0] {
      var s := ServiceOf(store, m);
      var entries := EntriesOf(m, s);
      EntriesGenuine(store, m, s.firstCommitted);
      LastEntryCommitted(db, entries, m);
      var top := entries[|entries| - 1];
      assert top in entries;
      assert top in AllEntries(store, names);
    } else {
      LastPresent(ConvertedMachine(db, names[0], ServiceOf(store, names[0])), store, names[1..], m);
      var e :| e in AllEntries(store, names[1..]) && e.machine == m && e.ver == ServiceOf(store, m).lastCommitted;
      assert e in AllEntries(store, names);
    }
  }

  lemma NumberedEnds(store: OldStore, names: seq<string>, lo: nat, hi: nat, m: string)
    requires Kept(store, names, lo, hi) && Numbered(AllEntries(store, names))
    requires AllLastFound(map[], store, names) && m in names
    ensures EndsCommitted(store, AllEntries(store, names), lo, hi + 1, m)
  {
    hide Recorded, Closed, ConvertedMachines, AllLastFound, Owner, LastOwner, EntriesOf, AllEntries;
    var all := AllEntries(store, names);
    var o := LastOwner(all, m, lo, hi + 1);
    LastOwnerSound(all, m, lo, hi + 1);
    if o.Some? {
      var e := o.value;
      AllEntriesSplit(store, names, e);
      RecordedAll(store, names);
      LastPresent(map[], store, names, m);
      var top :| top in all && top.machine == m && top.ver == ServiceOf(store, m).lastCommitted;
      assert Genuine(e, store);
      NumberedOwner(all, top);
    }
  }

  lemma NumberedOwner(entries: seq<Entry>, e: Entry)
    requires Numbered(entries) && e in entries
    ensures e.gv.Some? && e.gv.value in GvsOf(entries) && Owner(entries, e.gv.value) == Some(e)
  {
    OwnerSound(entries, e.gv.value);
  }

  /** The log is a record of the store: under the numbering that the old monitors
      keep, replaying what is retained of it changes nothing. */
  lemma ReplayIsNoOp(store: OldStore, names: seq<string>, lo: nat, hi: nat, acceptedPn: nat, lastPn: nat)
    requires Kept(store, names, lo, hi) && Numbered(AllEntries(store, names))
    requires AllLastFound(map[], store, names)
    ensures var db := Converted(store, names, lo, hi, acceptedPn, lastPn);
            Replayed(db, db, lo, hi + 1) == db
  {
    forall m | m in names ensures EndsCommitted(store, AllEntries(store, names), lo, hi + 1, m) {
      NumberedEnds(store, names, lo, hi, m);
    }
    ReplayExact(store, names, lo, hi, acceptedPn, lastPn);
  }

  lemma MachineNames()
    ensures "paxos" !in MACHINES && Distinct(MACHINES)
  {
  }
}
