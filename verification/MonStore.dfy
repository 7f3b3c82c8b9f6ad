/** The monitor stores: the old one, a directory of files per service, and the new
    one, a key/value store that is changed by transactions. */
module MonStore {
  import opened Basics
  import opened Bytes

  // ----- the new store -----

  /** A key below a prefix: a version number, a name, or full_<version>. */
  datatype Key = Ver(version: nat) | Named(name: string) | Full(version: nat)

  /** A stored value: a number, bytes, or an encoded transaction. */
  datatype Value = Int(n: nat) | Raw(bl: seq<byte>) | Encoded(tx: seq<Op>)

  datatype Op = Put(prefix: string, key: Key, value: Value) | Erase(prefix: string, key: Key)

  type Place = (string, Key)
  type Db = map<Place, Value>

  /** apply_transaction: the operations in order. */
  function Applied(db: Db, tx: seq<Op>): Db
    decreases |tx|
  {
    if tx == [] then db
    else
      var op := tx[0];
      Applied(if op.Put? then db[(op.prefix, op.key) := op.value] else db - {(op.prefix, op.key)}, tx[1..])
  }

  lemma {:induction false} AppliedAppend(db: Db, a: seq<Op>, b: seq<Op>)
    ensures Applied(db, a + b) == Applied(Applied(db, a), b)
    decreases |a|
  {
    if a == [] {
      assert a + b == b;
    } else {
      assert (a + b)[0] == a[0] && (a + b)[1..] == a[1..] + b;
      var op := a[0];
      AppliedAppend(if op.Put? then db[(op.prefix, op.key) := op.value] else db - {(op.prefix, op.key)}, a[1..], b);
    }
  }

  lemma AppliedOne(db: Db, op: Op)
    ensures Applied(db, [op])
         == if op.Put? then db[(op.prefix, op.key) := op.value] else db - {(op.prefix, op.key)}
  {
    assert [op][1..] == [];
  }

  /** MonitorDBStore::get of a number: 0 when there is none. */
  function GetInt(db: Db, prefix: string, key: Key): nat {
    if (prefix, key) in db && db[(prefix, key)].Int? then db[(prefix, key)].n else 0
  }

  // ----- the old store -----

  /** The latest file: its bytes, and the version and map that they encode. */
  datatype Latest = Latest(raw: seq<byte>, ver: nat, bl: seq<byte>)

  /** The files of one service; missing numbers read as 0. */
  datatype Service = Service(
    firstCommitted: nat, lastCommitted: nat, acceptedPn: nat, lastPn: nat,
    versions: map<nat, seq<byte>>,      // the version files
    hasGv: bool, gv: map<nat, nat>,     // the global version of a version
    latest: Option<Latest>)

  type OldStore = map<string, Service>

  const NO_SERVICE := Service(0, 0, 0, 0, map[], false, map[], None)

  function ServiceOf(store: OldStore, name: string): Service {
    if name in store then store[name] else NO_SERVICE
  }
}
