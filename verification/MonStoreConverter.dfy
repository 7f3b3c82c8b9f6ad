/** MonitorStoreConverter of mon_store_converter.cc: moving the versions of every
    service into the new store, logging each as a paxos transaction on the way,
    and then keeping a contiguous end of that log. */
module MonStoreConverter {
  import opened Basics
  import opened Bytes
  import opened MonStore
  import opened Ordered

  const PAXOS_MAX_VERSIONS: nat := 50

  /** One existing version of a service, with its global version if it has one. */
  datatype Entry = Entry(machine: string, ver: nat, bl: seq<byte>, gv: Option<nat>)

  /** What a version contributes: its bytes, and itself as the last committed. */
  function VersionTx(e: Entry): seq<Op> {
    [Put(e.machine, Ver(e.ver), Raw(e.bl)), Put(e.machine, Named("last_committed"), Int(e.ver))]
  }

  /** The transaction that is applied: a version with a global version also logs
      itself under that number. */
  function ConvertTx(e: Entry): seq<Op> {
    VersionTx(e) + if e.gv.Some? then [Put("paxos", Ver(e.gv.value), Encoded(VersionTx(e)))] else []
  }

  function EntryOf(machine: string, s: Service, ver: nat): Entry
    requires ver in s.versions
  {
    Entry(machine, ver, s.versions[ver], if s.hasGv && ver in s.gv then Some(s.gv[ver]) else None)
  }

  /** The versions from `ver` on, up to the last committed. */
  function EntriesFrom(machine: string, s: Service, ver: nat): seq<Entry>
    decreases s.lastCommitted + 1 - ver
  {
    if ver > s.lastCommitted then []
    else (if ver in s.versions then [EntryOf(machine, s, ver)] else []) + EntriesFrom(machine, s, ver + 1)
  }

  function EntriesOf(machine: string, s: Service): seq<Entry> {
    EntriesFrom(machine, s, s.firstCommitted)
  }

  function ConvertedEntries(db: Db, entries: seq<Entry>): Db
    decreases |entries|
  {
    if entries == [] then db else ConvertedEntries(Applied(db, ConvertTx(entries[0])), entries[1..])
  }

  function GvsOf(entries: seq<Entry>): set<nat> {
    set e | e in entries && e.gv.Some? :: e.gv.value
  }

  function ClosingTx(machine: string, s: Service): seq<Op> {
    [Put(machine, Named("first_committed"), Int(s.firstCommitted)),
     Put(machine, Named("last_committed"), Int(s.lastCommitted))]
    + if s.latest.Some? && s.latest.value.raw != [] then
        [Put(machine, Named("latest"), Raw(s.latest.value.raw)),
         Put(machine, Named("full_latest"), Int(s.latest.value.ver)),
         Put(machine, Full(s.latest.value.ver), Raw(s.latest.value.bl))]
      else []
  }

  function ConvertedMachine(db: Db, machine: string, s: Service): Db {
    Applied(ConvertedEntries(db, EntriesOf(machine, s)), ClosingTx(machine, s))
  }

  /** The assertion in the middle of _convert_machines: the last version that was
      found is the last committed. */
  predicate LastFound(db: Db, machine: string, s: Service) {
    GetInt(ConvertedEntries(db, EntriesOf(machine, s)), machine, Named("last_committed")) == s.lastCommitted
  }

  function Max(a: nat, b: nat): nat {
    if a > b then a else b
  }

  // ----- all machines -----

  const MACHINES: seq<string> := ["auth", "logm", "mdsmap", "monmap", "osdmap", "pgmap"]

  function ConvertedMachines(db: Db, store: OldStore, names: seq<string>): Db
    decreases |names|
  {
    if names == [] then db
    else ConvertedMachines(ConvertedMachine(db, names[0], ServiceOf(store, names[0])), store, names[1..])
  }

  function AllEntries(store: OldStore, names: seq<string>): seq<Entry> {
    if names == [] then []
    else EntriesOf(names[0], ServiceOf(store, names[0])) + AllEntries(store, names[1..])
  }

  function AcceptedPns(store: OldStore, names: seq<string>): (r: seq<nat>)
    ensures |r| == |names| && forall i | 0 <= i < |r| :: r[i] == ServiceOf(store, names[i]).acceptedPn
  {
    seq(|names|, i requires 0 <= i < |names| => ServiceOf(store, names[i]).acceptedPn)
  }

  function LastPns(store: OldStore, names: seq<string>): (r: seq<nat>)
    ensures |r| == |names| && forall i | 0 <= i < |r| :: r[i] == ServiceOf(store, names[i]).lastPn
  {
    seq(|names|, i requires 0 <= i < |names| => ServiceOf(store, names[i]).lastPn)
  }

  /** The highest of these numbers and the one to start with. */
  predicate IsHighest(n: nat, start: nat, pns: seq<nat>) {
    start <= n && (forall k | 0 <= k < |pns| :: pns[k] <= n) && (n == start || n in pns)
  }

  lemma HighestAlone(n: nat)
    ensures IsHighest(n, n, [])
  {
  }

  lemma HigherNext(n: nat, start: nat, pns: seq<nat>, it: nat)
    requires it < |pns| && IsHighest(n, start, pns[..it])
    ensures IsHighest(Max(n, pns[it]), start, pns[..it + 1])
  {
    assert pns[..it + 1] == pns[..it] + [pns[it]];
  }

  predicate AllLastFound(db: Db, store: OldStore, names: seq<string>)
    decreases |names|
  {
    names == [] ||
    (LastFound(db, names[0], ServiceOf(store, names[0]))
     && AllLastFound(ConvertedMachine(db, names[0], ServiceOf(store, names[0])), store, names[1..]))
  }

  // ----- the window of the log -----

  ghost predicate IsMax(m: nat, s: set<nat>) {
    IsFirst<nat>(m, s, Above)
  }

  /** Everything from lo to hi is there, hi is the highest, there are at most as
      many as are kept, and no more could be kept without a gap. */
  ghost predicate IsWindow(gvs: set<nat>, lo: nat, hi: nat) {
    && IsMax(hi, gvs) && lo <= hi && hi - lo < PAXOS_MAX_VERSIONS
    && (forall g | lo <= g <= hi :: g in gvs)
    && (hi - lo == PAXOS_MAX_VERSIONS - 1 || lo == 0 || lo - 1 !in gvs)
  }

  /** The log keeps its window only, and records its bounds and numbers. */
  function ConvertedPaxos(db: Db, gvs: set<nat>, lo: nat, hi: nat, acceptedPn: nat, lastPn: nat): Db {
    (db - set g | g in gvs && g < lo :: ("paxos", Ver(g)))
      [("paxos", Named("first_committed")) := Int(lo)]
      [("paxos", Named("last_committed")) := Int(hi)]
      [("paxos", Named("accepted_pn")) := Int(acceptedPn)]
      [("paxos", Named("last_pn")) := Int(lastPn)]
  }

  class Converter {
    var db: Db
    var gvs: set<nat>
    var highestLastPn: nat
    var highestAcceptedPn: nat

    constructor ()
      ensures db == map[] && gvs == {} && highestLastPn == 0 && highestAcceptedPn == 0
    {
      db, gvs, highestLastPn, highestAcceptedPn := map[], {}, 0, 0;
    }

    /** One existing version of the loop in _convert_machines. */
    method ConvertVersion(machine: string, s: Service, ver: nat)
      requires ver in s.versions
      modifies `db, `gvs
      ensures db == Applied(old(db), ConvertTx(EntryOf(machine, s, ver)))
      ensures gvs == old(gvs) + GvsOf([EntryOf(machine, s, ver)])
    {
      var bl := s.versions[ver];
      var tx := [Put(machine, Ver(ver), Raw(bl))];
      tx := tx + [Put(machine, Named("last_committed"), Int(ver))];
      ghost var e := EntryOf(machine, s, ver);
      assert tx == VersionTx(e);
      if s.hasGv && ver in s.gv {
        var gv := s.gv[ver];
        if gv !in gvs {
          gvs := gvs + {gv};
        }
        tx := tx + [Put("paxos", Ver(gv), Encoded(tx))];
      } else {
        assert tx + [] == tx;
      }
      db := Applied(db, tx);
    }

    /** The version loop of _convert_machines. */
    method ConvertVersions(machine: string, s: Service)
      modifies `db, `gvs
      ensures db == ConvertedEntries(old(db), EntriesOf(machine, s))
      ensures gvs == old(gvs) + GvsOf(EntriesOf(machine, s))
    {
      hide ConvertTx, Applied, EntryOf;
      var ver := s.firstCommitted;
      while ver <= s.lastCommitted
        invariant ConvertedEntries(db, EntriesFrom(machine, s, ver)) == ConvertedEntries(old(db), EntriesOf(machine, s))
        invariant gvs + GvsOf(EntriesFrom(machine, s, ver)) == old(gvs) + GvsOf(EntriesOf(machine, s))
        decreases s.lastCommitted + 1 - ver
      {
        NextEntry(db, machine, s, ver);
        if ver in s.versions {
          ConvertVersion(machine, s, ver);
        }
        ver := ver + 1;
      }
    }

    /** The closing transaction of _convert_machines. */
    method CloseMachine(machine: string, s: Service)
      modifies `db
      ensures db == Applied(old(db), ClosingTx(machine, s))
    {
      var tx := [Put(machine, Named("first_committed"), Int(s.firstCommitted))];
      tx := tx + [Put(machine, Named("last_committed"), Int(s.lastCommitted))];
      if s.latest.Some? && s.latest.value.raw != [] {
        tx := tx + [Put(machine, Named("latest"), Raw(s.latest.value.raw))];
        tx := tx + [Put(machine, Named("full_latest"), Int(s.latest.value.ver))];
        tx := tx + [Put(machine, Full(s.latest.value.ver), Raw(s.latest.value.bl))];
      }
      assert tx == ClosingTx(machine, s);
      db := Applied(db, tx);
    }

    /** _convert_machines of one service; false stands for the failed assertion. */
    method ConvertMachine(machine: string, s: Service) returns (ok: bool)
      modifies this
      ensures ok == LastFound(old(db), machine, s)
      ensures ok ==> db == ConvertedMachine(old(db), machine, s)
      ensures gvs == old(gvs) + GvsOf(EntriesOf(machine, s))
      ensures highestAcceptedPn == Max(old(highestAcceptedPn), s.acceptedPn)
      ensures highestLastPn == Max(old(highestLastPn), s.lastPn)
    {
      if s.acceptedPn > highestAcceptedPn {
        highestAcceptedPn := s.acceptedPn;
      }
      if s.lastPn > highestLastPn {
        highestLastPn := s.lastPn;
      }
      ConvertVersions(machine, s);
      var lc := GetInt(db, machine, Named("last_committed"));
      if lc != s.lastCommitted {
        return false;
      }
      CloseMachine(machine, s);
      ok := true;
    }

    /** The first loop of _convert_paxos: down from the highest version, until
        there is a gap or enough are kept. */
    method FindWindow() returns (lastGv: nat, highestGv: nat)
      requires gvs != {}
      ensures IsWindow(gvs, lastGv, highestGv)
    {
      highestGv := Least<nat>(gvs, Above);
      lastGv := highestGv;
      var left := gvs;
      var n := 0;
      while left != {} && n < PAXOS_MAX_VERSIONS
        invariant 0 <= n <= PAXOS_MAX_VERSIONS && lastGv <= highestGv
        invariant n == 0 ==> left == gvs && lastGv == highestGv
        invariant n > 0 ==> (forall g :: g in left <==> g in gvs && g < lastGv) && highestGv - lastGv == n - 1
        invariant forall g | lastGv <= g <= highestGv :: g in gvs
        decreases left
      {
        var gv := Least<nat>(left, Above);
        if lastGv != gv {
          if lastGv - gv > 1 {
            break;
          }
          lastGv := gv;
        }
        left := left - {gv};
        n := n + 1;
      }
    }

    /** The second loop of _convert_paxos: erase what is below the window, from
        the lowest version up. */
    method EraseBelow(lastGv: nat) returns (tx: seq<Op>)
      ensures Applied(db, tx) == db - set g | g in gvs && g < lastGv :: ("paxos", Ver(g))
    {
      tx := [];
      var left := set g | g in gvs && g < lastGv;
      ghost var all := left;
      while left != {}
        invariant left <= all
        invariant Applied(db, tx) == db - set g | g in all - left :: ("paxos", Ver(g))
        decreases left
      {
        var it := Least<nat>(left, Below);
        AppliedAppend(db, tx, [Erase("paxos", Ver(it))]);
        AppliedOne(Applied(db, tx), Erase("paxos", Ver(it)));
        ErasedOne(db, all, left, it);
        tx := tx + [Erase("paxos", Ver(it))];
        left := left - {it};
      }
      ErasedAll(db, gvs, lastGv, all);
    }

    /** _convert_paxos.  The source asserts that there is a global version. */
    method ConvertPaxos() returns (lastGv: nat, highestGv: nat)
      requires gvs != {}
      modifies `db
      ensures IsWindow(gvs, lastGv, highestGv)
      ensures db == ConvertedPaxos(old(db), gvs, lastGv, highestGv, highestAcceptedPn, highestLastPn)
    {
      lastGv, highestGv := FindWindow();
      var tx := EraseBelow(lastGv);
      var bounds := [Put("paxos", Named("first_committed"), Int(lastGv)),
                     Put("paxos", Named("last_committed"), Int(highestGv)),
                     Put("paxos", Named("accepted_pn"), Int(highestAcceptedPn)),
                     Put("paxos", Named("last_pn"), Int(highestLastPn))];
      AppliedAppend(db, tx, bounds);
      BoundsApplied(Applied(db, tx), lastGv, highestGv, highestAcceptedPn, highestLastPn);
      db := Applied(db, tx + bounds);
    }

    /** The services one after the other; false stands for a failed assertion. */
    method ConvertEach(store: OldStore, names: seq<string>) returns (ok: bool)
      modifies this
      ensures ok ==> IsHighest(highestAcceptedPn, old(highestAcceptedPn), AcceptedPns(store, names))
      ensures ok ==> IsHighest(highestLastPn, old(highestLastPn), LastPns(store, names))
      ensures ok == AllLastFound(old(db), store, names)
      ensures ok ==> db == ConvertedMachines(old(db), store, names)
      ensures ok ==> gvs == old(gvs) + GvsOf(AllEntries(store, names))
    {
      hide EntriesOf, ConvertedMachine, IsHighest, LastFound, Max;
      ok := true;
      ghost var accepted, last := AcceptedPns(store, names), LastPns(store, names);
      HighestAlone(highestAcceptedPn);
      HighestAlone(highestLastPn);
      for it := 0 to |names|
        invariant ok
        invariant IsHighest(highestAcceptedPn, old(highestAcceptedPn), accepted[..it])
        invariant IsHighest(highestLastPn, old(highestLastPn), last[..it])
        invariant AllLastFound(old(db), store, names) <==> AllLastFound(db, store, names[it..])
        invariant ConvertedMachines(db, store, names[it..]) == ConvertedMachines(old(db), store, names)
        invariant gvs + GvsOf(AllEntries(store, names[it..])) == old(gvs) + GvsOf(AllEntries(store, names))
      {
        var s := ServiceOf(store, names[it]);
        assert names[it..][0] == names[it] && names[it..][1..] == names[it + 1..];
        GvsAppend(EntriesOf(names[it], s), AllEntries(store, names[it + 1..]));
        HigherNext(highestAcceptedPn, old(highestAcceptedPn), accepted, it);
        HigherNext(highestLastPn, old(highestLastPn), last, it);
        ok := ConvertMachine(names[it], s);
        if !ok {
          return;
        }
      }
      assert accepted[..|names|] == accepted && last[..|names|] == last;
    }

    /** _convert_machines: every service in order, then the log.  false stands for
        a failed assertion. */
    method ConvertMachines(store: OldStore) returns (ok: bool, lastGv: nat, highestGv: nat)
      requires gvs == {}
      modifies this
      ensures ok ==> IsHighest(highestAcceptedPn, old(highestAcceptedPn), AcceptedPns(store, MACHINES))
      ensures ok ==> IsHighest(highestLastPn, old(highestLastPn), LastPns(store, MACHINES))
      ensures ok <==> AllLastFound(old(db), store, MACHINES) && GvsOf(AllEntries(store, MACHINES)) != {}
      ensures ok ==> gvs == GvsOf(AllEntries(store, MACHINES)) && IsWindow(gvs, lastGv, highestGv)
      ensures ok ==>
                db == ConvertedPaxos(ConvertedMachines(old(db), store, MACHINES), gvs, lastGv, highestGv,
                                     highestAcceptedPn, highestLastPn)
    {
      hide IsHighest, AllLastFound, AllEntries, GvsOf, ConvertedMachines, ConvertedPaxos, IsWindow;
      lastGv, highestGv := 0, 0;
      ok := ConvertEach(store, MACHINES);
      if !ok || gvs == {} {
        return false, 0, 0;
      }
      lastGv, highestGv := ConvertPaxos();
    }
  }

  lemma GvsAppend(a: seq<Entry>, b: seq<Entry>)
    ensures GvsOf(a + b) == GvsOf(a) + GvsOf(b)
  {
  }

  lemma ErasedOne(db: Db, all: set<nat>, left: set<nat>, it: nat)
    requires it in left && left <= all
    ensures (db - set g | g in all - left :: ("paxos", Ver(g))) - {("paxos", Ver(it))}
         == db - set g | g in all - (left - {it}) :: ("paxos", Ver(g))
  {
    assert all - (left - {it}) == all - left + {it};
    assert (set g | g in all - left + {it} :: ("paxos", Ver(g)))
        == (set g | g in all - left :: ("paxos", Ver(g))) + {("paxos", Ver(it))};
  }

  lemma ErasedAll(db: Db, gvs: set<nat>, lastGv: nat, all: set<nat>)
    requires all == set g | g in gvs && g < lastGv
    ensures (set g | g in all - {} :: ("paxos", Ver(g))) == set g | g in gvs && g < lastGv :: ("paxos", Ver(g))
  {
  }

  lemma BoundsApplied(db: Db, lo: nat, hi: nat, acceptedPn: nat, lastPn: nat)
    ensures Applied(db, [Put("paxos", Named("first_committed"), Int(lo)),
                         Put("paxos", Named("last_committed"), Int(hi)),
                         Put("paxos", Named("accepted_pn"), Int(acceptedPn)),
                         Put("paxos", Named("last_pn"), Int(lastPn))])
         == db[("paxos", Named("first_committed")) := Int(lo)]
              [("paxos", Named("last_committed")) := Int(hi)]
              [("paxos", Named("accepted_pn")) := Int(acceptedPn)]
              [("paxos", Named("last_pn")) := Int(lastPn)]
  {
    var a, b := Put("paxos", Named("first_committed"), Int(lo)), Put("paxos", Named("last_committed"), Int(hi));
    var c, d := Put("paxos", Named("accepted_pn"), Int(acceptedPn)), Put("paxos", Named("last_pn"), Int(lastPn));
    assert [a, b, c, d] == [a] + ([b] + ([c] + [d]));
    AppliedAppend(db, [a], [b] + ([c] + [d]));
    var db1 := Applied(db, [a]);
    AppliedAppend(db1, [b], [c] + [d]);
    var db2 := Applied(db1, [b]);
    AppliedAppend(db2, [c], [d]);
    AppliedOne(db, a);
    AppliedOne(db1, b);
    AppliedOne(db2, c);
    AppliedOne(Applied(db2, [c]), d);
  }

  lemma NextEntry(db: Db, machine: string, s: Service, ver: nat)
    requires ver <= s.lastCommitted
    ensures ver !in s.versions ==> EntriesFrom(machine, s, ver) == EntriesFrom(machine, s, ver + 1)
    ensures ver in s.versions ==>
              var e, rest := EntryOf(machine, s, ver), EntriesFrom(machine, s, ver + 1);
              && ConvertedEntries(db, EntriesFrom(machine, s, ver)) == ConvertedEntries(Applied(db, ConvertTx(e)), rest)
              && GvsOf(EntriesFrom(machine, s, ver)) == GvsOf([e]) + GvsOf(rest)
  {
    if ver in s.versions {
      var e, rest := EntryOf(machine, s, ver), EntriesFrom(machine, s, ver + 1);
      assert ([e] + rest)[1..] == rest;
    }
  }
}
