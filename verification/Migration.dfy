/** What a whole conversion leaves in the new store, said of the old one alone. */
module Migration {
  import opened Basics
  import opened MonStore
  import opened MonStoreConverter
  import opened PaxosReplay

  function Held(db: Db, p: Place): Option<Value> {
    if p in db then Some(db[p]) else None
  }

  // ----- what a service is converted to -----

  /** What the new store holds for a service under each key. */
  function ServiceHolds(s: Service, key: Key): Option<Value> {
    match key
    case Ver(v) =>
      if s.firstCommitted <= v <= s.lastCommitted && v in s.versions then Some(Raw(s.versions[v])) else None
    case Named(name) =>
      if name == "first_committed" then Some(Int(s.firstCommitted))
      else if name == "last_committed" then Some(Int(s.lastCommitted))
      else if s.latest.None? || s.latest.value.raw == [] then None
      else if name == "latest" then Some(Raw(s.latest.value.raw))
      else if name == "full_latest" then Some(Int(s.latest.value.ver))
      else None
    case Full(v) =>
      if s.latest.Some? && s.latest.value.raw != [] && v == s.latest.value.ver then Some(Raw(s.latest.value.bl))
      else None
  }

  /** The versions: each one that exists in the range, with its bytes. */
  lemma {:induction false} EntriesHold(db: Db, machine: string, s: Service, ver: nat, v: nat)
    requires machine != "paxos"
    ensures Held(ConvertedEntries(db, EntriesFrom(machine, s, ver)), (machine, Ver(v)))
         == if ver <= v <= s.lastCommitted && v in s.versions then Some(Raw(s.versions[v]))
            else Held(db, (machine, Ver(v)))
    decreases s.lastCommitted + 1 - ver
  {
    hide Applied, ConvertTx;
    if ver <= s.lastCommitted {
      NextEntry(db, machine, s, ver);
      if ver in s.versions {
        var e := EntryOf(machine, s, ver);
        ConvertTxApplied(db, e);
        EntriesHold(AfterEntry(db, e), machine, s, ver + 1, v);
      } else {
        EntriesHold(db, machine, s, ver + 1, v);
      }
    }
  }

  /** A place that converting versions of this service leaves alone. */
  predicate Aside(machine: string, p: Place) {
    if p.0 == machine then !p.1.Ver? && p.1 != Named("last_committed") else p.0 != "paxos" || !p.1.Ver?
  }

  lemma {:induction false} EntriesAside(db: Db, machine: string, s: Service, ver: nat, p: Place)
    requires machine != "paxos" && Aside(machine, p)
    ensures Held(ConvertedEntries(db, EntriesFrom(machine, s, ver)), p) == Held(db, p)
    decreases s.lastCommitted + 1 - ver
  {
    hide Applied, ConvertTx;
    if ver <= s.lastCommitted {
      NextEntry(db, machine, s, ver);
      if ver in s.versions {
        var e := EntryOf(machine, s, ver);
        ConvertTxApplied(db, e);
        EntriesAside(AfterEntry(db, e), machine, s, ver + 1, p);
      } else {
        EntriesAside(db, machine, s, ver + 1, p);
      }
    }
  }

  /** Puts, one after the other. */
  lemma AppliedFive(db: Db, a: Op, b: Op, c: Op, d: Op, e: Op)
    requires a.Put? && b.Put? && c.Put? && d.Put? && e.Put?
    ensures Applied(db, [a, b, c, d, e])
         == db[(a.prefix, a.key) := a.value][(b.prefix, b.key) := b.value][(c.prefix, c.key) := c.value]
              [(d.prefix, d.key) := d.value][(e.prefix, e.key) := e.value]
  {
    hide Applied;
    AppliedTwo(db, a, b);
    var db2 := db[(a.prefix, a.key) := a.value][(b.prefix, b.key) := b.value];
    assert [a, b, c, d, e] == [a, b] + ([c, d] + [e]);
    AppliedAppend(db, [a, b], [c, d] + [e]);
    AppliedAppend(db2, [c, d], [e]);
    AppliedTwo(db2, c, d);
    AppliedOne(db2[(c.prefix, c.key) := c.value][(d.prefix, d.key) := d.value], e);
  }

  lemma AppliedTwo(db: Db, a: Op, b: Op)
    requires a.Put? && b.Put?
    ensures Applied(db, [a, b]) == db[(a.prefix, a.key) := a.value][(b.prefix, b.key) := b.value]
  {
    assert [a, b] == [a] + [b];
    AppliedAppend(db, [a], [b]);
    AppliedOne(db, a);
    AppliedOne(db[(a.prefix, a.key) := a.value], b);
  }

  /** The closing transaction: the names and the full map, and nothing else. */
  lemma ClosingHolds(db: Db, machine: string, s: Service, p: Place)
    ensures Held(Applied(db, ClosingTx(machine, s)), p)
         == if p.0 == machine && !p.1.Ver? && ServiceHolds(s, p.1).Some? then ServiceHolds(s, p.1) else Held(db, p)
  {
    hide Applied;
    var a := Put(machine, Named("first_committed"), Int(s.firstCommitted));
    var b := Put(machine, Named("last_committed"), Int(s.lastCommitted));
    if s.latest.Some? && s.latest.value.raw != [] {
      var c := Put(machine, Named("latest"), Raw(s.latest.value.raw));
      var d := Put(machine, Named("full_latest"), Int(s.latest.value.ver));
      var e := Put(machine, Full(s.latest.value.ver), Raw(s.latest.value.bl));
      assert ClosingTx(machine, s) == [a, b, c, d, e];
      AppliedFive(db, a, b, c, d, e);
    } else {
      assert ClosingTx(machine, s) == [a, b];
      AppliedTwo(db, a, b);
    }
  }

  /** A service is converted to what it should be, and the others stay. */
  lemma MachineHolds(db: Db, machine: string, s: Service, p: Place)
    requires machine != "paxos" && (p.0 == "paxos" ==> !p.1.Ver?)
    requires p.0 == machine ==> p !in db
    ensures Held(ConvertedMachine(db, machine, s), p)
         == if p.0 == machine then ServiceHolds(s, p.1) else Held(db, p)
  {
    hide Applied, ConvertedEntries, ClosingTx;
    ClosingHolds(ConvertedEntries(db, EntriesOf(machine, s)), machine, s, p);
    if p.0 == machine && p.1.Ver? {
      EntriesHold(db, machine, s, s.firstCommitted, p.1.version);
    } else if p != LastCommitted(machine) {
      EntriesAside(db, machine, s, s.firstCommitted, p);
    }
  }

  lemma {:induction false} MachinesHold(db: Db, store: OldStore, names: seq<string>, p: Place)
    requires "paxos" !in names && Distinct(names) && (p.0 == "paxos" ==> !p.1.Ver?)
    requires p.0 in names ==> p !in db
    ensures Held(ConvertedMachines(db, store, names), p)
         == if p.0 in names then ServiceHolds(ServiceOf(store, p.0), p.1) else Held(db, p)
    decreases |names|
  {
    hide ConvertedMachine, ServiceHolds;
    if names != [] {
      var machine, rest := names[0], names[1..];
      var s := ServiceOf(store, machine);
      forall i: nat | i < |rest| ensures rest[i] != machine {
        assert rest[i] == names[i + 1];
      }
      MachineHolds(db, machine, s, p);
      MachinesHold(ConvertedMachine(db, machine, s), store, rest, p);
    }
  }

  // ----- what is logged -----

  /** A version that the conversion logs under this global version. */
  predicate LogsAs(s: Service, v: nat, g: nat) {
    Logs(s, v) && s.gv[v] == g
  }

  ghost predicate Logged(store: OldStore, names: seq<string>, g: nat) {
    exists i: nat, v: nat :: i < |names| && LogsAs(ServiceOf(store, names[i]), v, g)
  }

  /** The last of them: of the last service that logs it the last version. */
  ghost predicate OwnedBy(store: OldStore, names: seq<string>, g: nat, i: nat, v: nat) {
    && i < |names| && LogsAs(ServiceOf(store, names[i]), v, g)
    && (forall j: nat, w: nat | j < |names| && LogsAs(ServiceOf(store, names[j]), w, g) :: j < i || (j == i && w <= v))
  }

  lemma {:induction false} OwnerAppend(a: seq<Entry>, b: seq<Entry>, g: nat)
    ensures Owner(a + b, g) == if Owner(b, g).Some? then Owner(b, g) else Owner(a, g)
    decreases |b|
  {
    if b == [] {
      assert a + b == a;
    } else {
      var n := |b| - 1;
      OwnerAppend(a, b[..n], g);
      assert a + b == a + b[..n] + [b[n]];
      OwnerSnoc(a + b[..n], b[n], g);
    }
  }

  lemma OwnerLogs(machine: string, s: Service, ver: nat, g: nat)
    requires ver >= s.firstCommitted
    ensures var o := Owner(EntriesFrom(machine, s, ver), g);
            o.Some? ==> o.value.ver >= ver && LogsAs(s, o.value.ver, g)
  {
    var entries := EntriesFrom(machine, s, ver);
    OwnerSound(entries, g);
    if Owner(entries, g).Some? {
      EntryFrom(machine, s, ver, Owner(entries, g).value);
    }
  }

  /** Of one service, the last version owns the log entry. */
  lemma {:induction false} ServiceOwner(machine: string, s: Service, ver: nat, g: nat, v: nat)
    requires ver <= v && LogsAs(s, v, g) && ver >= s.firstCommitted
    requires forall w: nat | LogsAs(s, w, g) :: w <= v
    ensures Owner(EntriesFrom(machine, s, ver), g) == Some(EntryOf(machine, s, v))
    decreases v - ver
  {
    hide Owner;
    var rest := EntriesFrom(machine, s, ver + 1);
    if ver in s.versions {
      OwnerAppend([EntryOf(machine, s, ver)], rest, g);
      OwnerSnoc([], EntryOf(machine, s, ver), g);
      assert [] + [EntryOf(machine, s, ver)] == [EntryOf(machine, s, ver)];
    } else {
      assert EntriesFrom(machine, s, ver) == rest;
    }
    if ver < v {
      ServiceOwner(machine, s, ver + 1, g, v);
    } else {
      OwnerLogs(machine, s, ver + 1, g);
    }
  }

  /** Nobody logs what has no owner. */
  lemma LoggedOwner(store: OldStore, names: seq<string>, g: nat)
    requires "paxos" !in names && Owner(AllEntries(store, names), g).Some?
    ensures Logged(store, names, g)
  {
    var all := AllEntries(store, names);
    OwnerSound(all, g);
    var e := Owner(all, g).value;
    AllEntriesSplit(store, names, e);
    var s := ServiceOf(store, e.machine);
    EntryFrom(e.machine, s, s.firstCommitted, e);
    var i: nat :| i < |names| && names[i] == e.machine;
    assert LogsAs(ServiceOf(store, names[i]), e.ver, g);
  }

  lemma NotLater(store: OldStore, names: seq<string>, g: nat, v: nat)
    requires OwnedBy(store, names, g, 0, v)
    ensures !Logged(store, names[1..], g)
  {
    var rest := names[1..];
    forall j: nat, w: nat | j < |rest| ensures !LogsAs(ServiceOf(store, rest[j]), w, g) {
      assert rest[j] == names[j + 1];
    }
  }

  lemma {:induction false} OwnerExact(store: OldStore, names: seq<string>, g: nat, i: nat, v: nat)
    requires "paxos" !in names && OwnedBy(store, names, g, i, v)
    ensures Owner(AllEntries(store, names), g) == Some(EntryOf(names[i], ServiceOf(store, names[i]), v))
    decreases |names|
  {
    hide Owner, EntriesFrom;
    var s, rest := ServiceOf(store, names[0]), names[1..];
    OwnerAppend(EntriesOf(names[0], s), AllEntries(store, rest), g);
    if i == 0 {
      NotLater(store, names, g, v);
      if Owner(AllEntries(store, rest), g).Some? {
        LoggedOwner(store, rest, g);
      }
      forall w: nat | LogsAs(s, w, g) ensures w <= v {
        assert LogsAs(ServiceOf(store, names[0]), w, g);
      }
      ServiceOwner(names[0], s, s.firstCommitted, g, v);
    } else {
      RestOwned(store, names, g, i, v);
      OwnerExact(store, rest, g, i - 1, v);
    }
  }

  lemma RestOwned(store: OldStore, names: seq<string>, g: nat, i: nat, v: nat)
    requires OwnedBy(store, names, g, i, v) && i > 0
    ensures OwnedBy(store, names[1..], g, i - 1, v)
  {
    hide LogsAs;
    var rest := names[1..];
    forall j: nat, w: nat | j < |rest| && LogsAs(ServiceOf(store, rest[j]), w, g)
      ensures j < i - 1 || (j == i - 1 && w <= v)
    {
      assert rest[j] == names[j + 1];
    }
  }

  lemma {:induction false} LastVersion(s: Service, g: nat, v: nat) returns (top: nat)
    requires LogsAs(s, v, g)
    ensures LogsAs(s, top, g) && forall w: nat | LogsAs(s, w, g) :: w <= top
    decreases s.lastCommitted - v
  {
    if w: nat :| w > v && LogsAs(s, w, g) {
      top := LastVersion(s, g, w);
    } else {
      top := v;
    }
  }

  lemma {:induction false} LastLogged(store: OldStore, names: seq<string>, g: nat, i: nat, v: nat)
    returns (j: nat, w: nat)
    requires i < |names| && LogsAs(ServiceOf(store, names[i]), v, g)
    ensures OwnedBy(store, names, g, j, w)
    decreases |names| - i
  {
    hide LogsAs;
    if k: nat, x: nat :| i < k < |names| && LogsAs(ServiceOf(store, names[k]), x, g) {
      j, w := LastLogged(store, names, g, k, x);
    } else {
      j := i;
      w := LastVersion(ServiceOf(store, names[i]), g, v);
    }
  }

  /** What is logged has an owner, and that one is found. */
  lemma OwnerFound(store: OldStore, names: seq<string>, g: nat) returns (i: nat, v: nat)
    requires "paxos" !in names && Owner(AllEntries(store, names), g).Some?
    ensures OwnedBy(store, names, g, i, v)
    ensures Owner(AllEntries(store, names), g) == Some(EntryOf(names[i], ServiceOf(store, names[i]), v))
  {
    hide Owner, AllEntries, OwnedBy, LogsAs;
    LoggedOwner(store, names, g);
    var j: nat, w: nat :| j < |names| && LogsAs(ServiceOf(store, names[j]), w, g);
    i, v := LastLogged(store, names, g, j, w);
    OwnerExact(store, names, g, i, v);
  }

  lemma LoggedExact(store: OldStore, names: seq<string>, g: nat)
    requires "paxos" !in names
    ensures g in GvsOf(AllEntries(store, names)) <==> Logged(store, names, g)
  {
    hide Owner, AllEntries, LogsAs, OwnedBy, GvsOf;
    OwnerSound(AllEntries(store, names), g);
    if Owner(AllEntries(store, names), g).Some? {
      LoggedOwner(store, names, g);
    }
    if Logged(store, names, g) {
      var j: nat, w: nat :| j < |names| && LogsAs(ServiceOf(store, names[j]), w, g);
      var i, v := LastLogged(store, names, g, j, w);
      OwnerExact(store, names, g, i, v);
    }
  }

  // ----- the window -----

  /** From lo to hi everything is logged, and nothing above; it is 50 numbers, or
      starts at 0 or behind one that is not logged. */
  ghost predicate Window(store: OldStore, names: seq<string>, lo: nat, hi: nat) {
    && lo <= hi < lo + 50
    && (forall g: nat | lo <= g <= hi :: Logged(store, names, g))
    && (forall g: nat | Logged(store, names, g) :: g <= hi)
    && (hi == lo + 49 || lo == 0 || !Logged(store, names, lo - 1))
  }

  lemma WindowExact(store: OldStore, names: seq<string>, lo: nat, hi: nat)
    requires "paxos" !in names
    ensures IsWindow(GvsOf(AllEntries(store, names)), lo, hi) <==> Window(store, names, lo, hi)
  {
    hide AllEntries, GvsOf, Logged;
    var gvs := GvsOf(AllEntries(store, names));
    forall g: nat ensures g in gvs <==> Logged(store, names, g) {
      LoggedExact(store, names, g);
    }
  }

  // ----- everything that is stored -----

  /** A number of the log: the highest of those of the services, or 0. */
  predicate Highest(v: Option<Value>, pns: seq<nat>) {
    v.Some? && v.value.Int? && IsHighest(v.value.n, 0, pns)
  }

  /** A log entry: the transaction that put its owner. */
  predicate LogEntry(v: Option<Value>, machine: string, s: Service, ver: nat)
    requires ver in s.versions
  {
    v == Some(Encoded([Put(machine, Ver(ver), Raw(s.versions[ver])),
                       Put(machine, Named("last_committed"), Int(ver))]))
  }

  /** The log from lo to hi, with its bounds and numbers, and nothing else. */
  ghost predicate LogHolds(store: OldStore, names: seq<string>, db: Db, lo: nat, hi: nat) {
    && Held(db, ("paxos", Named("first_committed"))) == Some(Int(lo))
    && Held(db, ("paxos", Named("last_committed"))) == Some(Int(hi))
    && Highest(Held(db, ("paxos", Named("accepted_pn"))), AcceptedPns(store, names))
    && Highest(Held(db, ("paxos", Named("last_pn"))), LastPns(store, names))
    && (forall name: string | ("paxos", Named(name)) in db ::
          name in {"first_committed", "last_committed", "accepted_pn", "last_pn"})
    && (forall v: nat :: ("paxos", Full(v)) !in db)
    && (forall g: nat :: ("paxos", Ver(g)) in db <==> lo <= g <= hi)
    && (forall g: nat, i: nat, v: nat | lo <= g <= hi && OwnedBy(store, names, g, i, v) ::
          LogEntry(Held(db, ("paxos", Ver(g))), names[i], ServiceOf(store, names[i]), v))
  }

  /** Each service as it should be, and nothing of anybody else. */
  ghost predicate ServicesHold(store: OldStore, names: seq<string>, db: Db) {
    forall p: Place | p.0 != "paxos" ::
      Held(db, p) == if p.0 in names then ServiceHolds(ServiceOf(store, p.0), p.1) else None
  }

  lemma ConvertedServices(store: OldStore, names: seq<string>, lo: nat, hi: nat, acceptedPn: nat, lastPn: nat)
    requires "paxos" !in names && Distinct(names)
    ensures ServicesHold(store, names, Converted(store, names, lo, hi, acceptedPn, lastPn))
  {
    hide ConvertedMachines, AllEntries, ServiceHolds, ConvertedPaxos, GvsOf;
    forall p: Place | p.0 != "paxos"
      ensures Held(Converted(store, names, lo, hi, acceptedPn, lastPn), p)
           == if p.0 in names then ServiceHolds(ServiceOf(store, p.0), p.1) else None
    {
      MachinesHold(map[], store, names, p);
      var db := ConvertedMachines(map[], store, names);
      PaxosPlaces(db, GvsOf(AllEntries(store, names)), lo, hi, acceptedPn, lastPn, p);
    }
  }

  lemma BoundsHold(db: Db, gvs: set<nat>, lo: nat, hi: nat, acceptedPn: nat, lastPn: nat)
    requires forall key: Key | !key.Ver? :: ("paxos", key) !in db
    ensures var next := ConvertedPaxos(db, gvs, lo, hi, acceptedPn, lastPn);
            && Held(next, ("paxos", Named("first_committed"))) == Some(Int(lo))
            && Held(next, ("paxos", Named("last_committed"))) == Some(Int(hi))
            && Held(next, ("paxos", Named("accepted_pn"))) == Some(Int(acceptedPn))
            && Held(next, ("paxos", Named("last_pn"))) == Some(Int(lastPn))
            && (forall name: string | ("paxos", Named(name)) in next ::
                  name in {"first_committed", "last_committed", "accepted_pn", "last_pn"})
            && (forall v: nat :: ("paxos", Full(v)) !in next)
  {
  }

  lemma NoPaxosNames(store: OldStore, names: seq<string>)
    requires "paxos" !in names && Distinct(names)
    ensures forall key: Key | !key.Ver? :: ("paxos", key) !in ConvertedMachines(map[], store, names)
  {
    forall key: Key | !key.Ver? ensures ("paxos", key) !in ConvertedMachines(map[], store, names) {
      MachinesHold(map[], store, names, ("paxos", key));
    }
  }

  lemma ConvertedEntry(store: OldStore, names: seq<string>, lo: nat, hi: nat, acceptedPn: nat, lastPn: nat,
                       g: nat, i: nat, v: nat)
    requires Kept(store, names, lo, hi) && lo <= g <= hi && OwnedBy(store, names, g, i, v)
    ensures LogEntry(Held(Converted(store, names, lo, hi, acceptedPn, lastPn), ("paxos", Ver(g))), names[i],
                     ServiceOf(store, names[i]), v)
  {
    hide Owner, AllEntries, Converted, Kept;
    ConvertedLog(store, names, lo, hi, acceptedPn, lastPn, g);
    KeptNames(store, names, lo, hi);
    OwnerExact(store, names, g, i, v);
  }

  lemma KeptNames(store: OldStore, names: seq<string>, lo: nat, hi: nat)
    requires Kept(store, names, lo, hi)
    ensures "paxos" !in names && IsWindow(GvsOf(AllEntries(store, names)), lo, hi)
  {
  }

  lemma ConvertedHolds(store: OldStore, names: seq<string>, lo: nat, hi: nat, acceptedPn: nat, lastPn: nat)
    requires Kept(store, names, lo, hi) && Distinct(names)
    requires IsHighest(acceptedPn, 0, AcceptedPns(store, names)) && IsHighest(lastPn, 0, LastPns(store, names))
    ensures LogHolds(store, names, Converted(store, names, lo, hi, acceptedPn, lastPn), lo, hi)
  {
    hide Owner, AllEntries, Kept, ConvertedPaxos, ConvertedMachines, GvsOf, IsHighest;
    KeptNames(store, names, lo, hi);
    NoPaxosNames(store, names);
    BoundsHold(ConvertedMachines(map[], store, names), GvsOf(AllEntries(store, names)), lo, hi, acceptedPn, lastPn);
    forall g: nat
      ensures ("paxos", Ver(g)) in Converted(store, names, lo, hi, acceptedPn, lastPn) <==> lo <= g <= hi
    {
      ConvertedLog(store, names, lo, hi, acceptedPn, lastPn, g);
    }
    forall g: nat, i: nat, v: nat | lo <= g <= hi && OwnedBy(store, names, g, i, v)
      ensures LogEntry(Held(Converted(store, names, lo, hi, acceptedPn, lastPn), ("paxos", Ver(g))), names[i],
                       ServiceOf(store, names[i]), v)
    {
      ConvertedEntry(store, names, lo, hi, acceptedPn, lastPn, g, i, v);
    }
  }

  // ----- replay -----

  /** For every service that occurs in the log between lo and hi, the last version
      that is logged there is its last committed one. */
  ghost predicate EndsWithLast(store: OldStore, names: seq<string>, lo: nat, hi: nat) {
    forall g: nat, i: nat, v: nat | lo <= g <= hi && OwnedBy(store, names, g, i, v)
        && (forall h: nat, w: nat | g < h <= hi :: !OwnedBy(store, names, h, i, w)) ::
      v == ServiceOf(store, names[i]).lastCommitted
  }

  /** The last entry of a service in the log, over the numbers. */
  lemma {:induction false} LastOwnerExact(entries: seq<Entry>, machine: string, lo: nat, n: nat)
    ensures var o := LastOwner(entries, machine, lo, n);
            && (o.Some? ==> o.value.gv.Some? && Owner(entries, o.value.gv.value) == o)
            && (o.None? ==> forall g: nat | lo <= g < n && Owner(entries, g).Some? ::
                  Owner(entries, g).value.machine != machine)
    decreases n
  {
    if n > lo {
      OwnerSound(entries, n - 1);
      LastOwnerExact(entries, machine, lo, n - 1);
    }
  }

  lemma OwnedIndex(store: OldStore, names: seq<string>, g: nat, i: nat, v: nat, j: nat, w: nat)
    requires OwnedBy(store, names, g, i, v) && OwnedBy(store, names, g, j, w)
    ensures i == j && v == w
  {
  }

  /** What a service owns last in the log is found there. */
  lemma EndsFrom(store: OldStore, names: seq<string>, lo: nat, hi: nat, m: string)
    requires "paxos" !in names && Distinct(names) && m in names && EndsWithLast(store, names, lo, hi)
    ensures EndsCommitted(store, AllEntries(store, names), lo, hi + 1, m)
  {
    hide Owner, AllEntries, OwnedBy, LastOwner;
    var all, n := AllEntries(store, names), hi + 1;
    var o := LastOwner(all, m, lo, n);
    LastOwnerSound(all, m, lo, n);
    LastOwnerExact(all, m, lo, n);
    if o.Some? {
      var g := o.value.gv.value;
      var i, v := OwnerFound(store, names, g);
      forall h: nat, w: nat | g < h <= hi ensures !OwnedBy(store, names, h, i, w) {
        if OwnedBy(store, names, h, i, w) {
          OwnerExact(store, names, h, i, w);
          OwnedInside(store, names, h, i, w);
        }
      }
      OwnedInside(store, names, g, i, v);
    }
  }

  lemma OwnedInside(store: OldStore, names: seq<string>, g: nat, i: nat, v: nat)
    requires OwnedBy(store, names, g, i, v)
    ensures i < |names| && v in ServiceOf(store, names[i]).versions
  {
  }

  lemma EndsTo(store: OldStore, names: seq<string>, lo: nat, hi: nat, g: nat, i: nat, v: nat)
    requires "paxos" !in names && Distinct(names) && lo <= g <= hi && OwnedBy(store, names, g, i, v)
    requires forall h: nat, w: nat | g < h <= hi :: !OwnedBy(store, names, h, i, w)
    requires forall m | m in names :: EndsCommitted(store, AllEntries(store, names), lo, hi + 1, m)
    ensures v == ServiceOf(store, names[i]).lastCommitted
  {
    hide Owner, AllEntries, OwnedBy, LastOwner;
    OwnedInside(store, names, g, i, v);
    assert names[i] in names;
    assert EndsCommitted(store, AllEntries(store, names), lo, hi + 1, names[i]);
    var all, n := AllEntries(store, names), hi + 1;
    var m := names[i];
    OwnerExact(store, names, g, i, v);
    var o := LastOwner(all, m, lo, n);
    LastOwnerSound(all, m, lo, n);
    LastOwnerExact(all, m, lo, n);
    var h := o.value.gv.value;
    var j, w := OwnerFound(store, names, h);
    OwnedInside(store, names, h, j, w);
    SameIndex(names, i, j);
    if h == g {
      OwnedIndex(store, names, g, i, v, j, w);
    }
  }

  lemma SameIndex(names: seq<string>, i: nat, j: nat)
    requires Distinct(names) && i < |names| && j < |names| && names[i] == names[j]
    ensures i == j
  {
  }

  lemma EndsExact(store: OldStore, names: seq<string>, lo: nat, hi: nat)
    requires "paxos" !in names && Distinct(names)
    ensures EndsWithLast(store, names, lo, hi)
       <==> forall m | m in names :: EndsCommitted(store, AllEntries(store, names), lo, hi + 1, m)
  {
    hide AllEntries, EndsCommitted, OwnedBy;
    if EndsWithLast(store, names, lo, hi) {
      forall m | m in names ensures EndsCommitted(store, AllEntries(store, names), lo, hi + 1, m) {
        EndsFrom(store, names, lo, hi, m);
      }
    }
    if forall m | m in names :: EndsCommitted(store, AllEntries(store, names), lo, hi + 1, m) {
      forall g: nat, i: nat, v: nat | lo <= g <= hi && OwnedBy(store, names, g, i, v)
          && (forall h: nat, w: nat | g < h <= hi :: !OwnedBy(store, names, h, i, w))
        ensures i < |names| && v == ServiceOf(store, names[i]).lastCommitted
      {
        EndsTo(store, names, lo, hi, g, i, v);
        OwnedInside(store, names, g, i, v);
      }
    }
  }

  // ----- the numbering of the old monitors -----

  predicate Converts(s: Service, v: nat) {
    s.firstCommitted <= v <= s.lastCommitted && v in s.versions
  }

  /** Every version that is converted has a global version; these are distinct, and
      increase with the version within a service. */
  ghost predicate WellNumbered(store: OldStore, names: seq<string>) {
    && (forall m, v: nat | m in names && Converts(ServiceOf(store, m), v) :: Logs(ServiceOf(store, m), v))
    && (forall m, v: nat, k, w: nat, g: nat | m in names && k in names
          && LogsAs(ServiceOf(store, m), v, g) && LogsAs(ServiceOf(store, k), w, g) :: m == k && v == w)
    && (forall m, v: nat, w: nat, g: nat, h: nat | m in names && v < w
          && LogsAs(ServiceOf(store, m), v, g) && LogsAs(ServiceOf(store, m), w, h) :: g < h)
  }

  lemma EntryLogged(store: OldStore, names: seq<string>, e: Entry)
    requires "paxos" !in names && e in AllEntries(store, names) && WellNumbered(store, names)
    ensures e.machine in names && e.gv.Some? && LogsAs(ServiceOf(store, e.machine), e.ver, e.gv.value)
    ensures e == EntryOf(e.machine, ServiceOf(store, e.machine), e.ver)
  {
    hide AllEntries;
    AllEntriesSplit(store, names, e);
    var s := ServiceOf(store, e.machine);
    EntryFrom(e.machine, s, s.firstCommitted, e);
    assert Converts(s, e.ver);
  }

  lemma WellNumberedEntries(store: OldStore, names: seq<string>)
    requires "paxos" !in names && WellNumbered(store, names)
    ensures Numbered(AllEntries(store, names))
  {
    hide AllEntries, WellNumbered, LogsAs;
    var all := AllEntries(store, names);
    forall e | e in all ensures e.gv.Some? {
      EntryLogged(store, names, e);
    }
    forall e, f | e in all && f in all
      ensures e.gv == f.gv ==> e == f
      ensures e.machine == f.machine && e.ver < f.ver ==> e.gv.value < f.gv.value
    {
      EntryLogged(store, names, e);
      EntryLogged(store, names, f);
      PairNumbered(store, names, e, f);
    }
  }

  lemma PairNumbered(store: OldStore, names: seq<string>, e: Entry, f: Entry)
    requires WellNumbered(store, names) && e.machine in names && f.machine in names && e.gv.Some? && f.gv.Some?
    requires LogsAs(ServiceOf(store, e.machine), e.ver, e.gv.value)
    requires LogsAs(ServiceOf(store, f.machine), f.ver, f.gv.value)
    ensures e.gv == f.gv ==> e.machine == f.machine && e.ver == f.ver
    ensures e.machine == f.machine && e.ver < f.ver ==> e.gv.value < f.gv.value
  {
    hide LogsAs;
  }

  // ----- the whole conversion -----

  /** What holds of the new store after the conversion of these services. */
  ghost predicate Faithful(store: OldStore, names: seq<string>, db: Db, lo: nat, hi: nat) {
    && Window(store, names, lo, hi)
    && ServicesHold(store, names, db)
    && LogHolds(store, names, db, lo, hi)
    && (Replayed(db, db, lo, hi + 1) == db <==> EndsWithLast(store, names, lo, hi))
    && (WellNumbered(store, names) ==> Replayed(db, db, lo, hi + 1) == db)
  }

  lemma ConvertedFaithful(store: OldStore, names: seq<string>, lo: nat, hi: nat, acceptedPn: nat, lastPn: nat)
    requires Kept(store, names, lo, hi) && AllLastFound(map[], store, names) && Distinct(names)
    requires IsHighest(acceptedPn, 0, AcceptedPns(store, names)) && IsHighest(lastPn, 0, LastPns(store, names))
    ensures Faithful(store, names, Converted(store, names, lo, hi, acceptedPn, lastPn), lo, hi)
  {
    hide Converted, AllLastFound, Window, ServicesHold, LogHolds, Replayed, EndsWithLast, WellNumbered, AllEntries,
         IsHighest, Kept, Numbered, IsWindow, EndsCommitted;
    KeptNames(store, names, lo, hi);
    WindowExact(store, names, lo, hi);
    ConvertedServices(store, names, lo, hi, acceptedPn, lastPn);
    ConvertedHolds(store, names, lo, hi, acceptedPn, lastPn);
    ReplayExact(store, names, lo, hi, acceptedPn, lastPn);
    EndsExact(store, names, lo, hi);
    if WellNumbered(store, names) {
      WellNumberedEntries(store, names);
      ReplayIsNoOp(store, names, lo, hi, acceptedPn, lastPn);
    }
  }

  /** The conversion of a store as a whole; false stands for a failed assertion of
      the converter. */
  method Migrate(store: OldStore) returns (ok: bool, db: Db, lo: nat, hi: nat)
    ensures ok <==>
              && (forall m | m in MACHINES :: Ends(ServiceOf(store, m)))
              && exists m, v :: m in MACHINES && Logs(ServiceOf(store, m), v)
    ensures ok ==> Faithful(store, MACHINES, db, lo, hi)
  {
    hide Faithful, IsHighest;
    var converter := new Converter();
    ok, lo, hi := converter.ConvertMachines(store);
    db := converter.db;
    MachineNames();
    AllLastFoundExact(map[], store, MACHINES);
    LogsExact(store, MACHINES);
    if ok {
      ConvertedFaithful(store, MACHINES, lo, hi, converter.highestAcceptedPn, converter.highestLastPn);
    }
  }
}
