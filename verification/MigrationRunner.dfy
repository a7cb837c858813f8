/** data/migrate/migrate.go, Apply: what one run does to a database. The schema is an abstract value; executing a
    migration's SQL is an abstract partial function on it that leaves the bookkeeping table alone. */
module MigrationRunner {
  import opened Octets
  import opened MigrationFiles

  type Exec<!S> = (Bytes, S) -> Option<S>

  datatype Row = Row(name: string, checksum: Bytes)

  type Table = map<int, Row>

  /** The committed database; the bookkeeping table is missing before the first run. */
  datatype Db<S> = Db(schema: S, table: Option<Table>)

  /** CREATE TABLE IF NOT EXISTS */
  function TableOf<S>(db: Db<S>): Table {
    if db.table.None? then map[] else db.table.value
  }

  datatype Outcome<S> = Done(db: Db<S>) | ChecksumChanged(version: int) | SqlFailed(version: int) | RowExists(version: int)

  /** One iteration: skip what is applied with the same checksum, otherwise run the SQL and insert the row. */
  function ApplyOne<S>(exec: Exec<S>, applied: map<int, Bytes>, work: Db<S>, m: Migration): Outcome<S> {
    if m.version in applied then
      if applied[m.version] != m.checksum then ChecksumChanged(m.version) else Done(work)
    else
      var schema := exec(m.sql, work.schema);
      if schema.None? then SqlFailed(m.version)
      else if m.version in TableOf(work) then RowExists(m.version)
      else Done(Db(schema.value, Some(TableOf(work)[m.version := Row(m.name, m.checksum)])))
  }

  function ApplyAll<S>(exec: Exec<S>, applied: map<int, Bytes>, work: Db<S>, ms: seq<Migration>): Outcome<S>
    decreases |ms|
  {
    if ms == [] then Done(work)
    else
      var o := ApplyOne(exec, applied, work, ms[0]);
      if o.Done? then ApplyAll(exec, applied, o.db, ms[1..]) else o
  }

  /** SELECT version, checksum */
  function Checksums(table: Table): (r: map<int, Bytes>)
    ensures r.Keys == table.Keys && forall v :: v in table ==> r[v] == table[v].checksum
  {
    map v | v in table :: table[v].checksum
  }

  function RunAll<S>(exec: Exec<S>, db: Db<S>, ms: seq<Migration>): Outcome<S> {
    ApplyAll(exec, Checksums(TableOf(db)), Db(db.schema, Some(TableOf(db))), ms)
  }

  // ---------------------------------------------------------------- what a run amounts to

  /** The migrations whose versions are not recorded, in order. */
  function Pending(applied: map<int, Bytes>, ms: seq<Migration>): seq<Migration> {
    if ms == [] then []
    else (if ms[0].version in applied then [] else [ms[0]]) + Pending(applied, ms[1..])
  }

  /** Running the SQL of ms one after the other. */
  function ExecAll<S>(exec: Exec<S>, schema: S, ms: seq<Migration>): Option<S>
    decreases |ms|
  {
    if ms == [] then Some(schema)
    else
      var next := exec(ms[0].sql, schema);
      if next.None? then None else ExecAll(exec, next.value, ms[1..])
  }

  /** The rows of ms added to a table. */
  function Record(table: Table, ms: seq<Migration>): Table
    decreases |ms|
  {
    if ms == [] then table else Record(table[ms[0].version := Row(ms[0].name, ms[0].checksum)], ms[1..])
  }

  predicate ChecksumsAgree(applied: map<int, Bytes>, ms: seq<Migration>) {
    forall i :: 0 <= i < |ms| && ms[i].version in applied ==> applied[ms[i].version] == ms[i].checksum
  }

  /** No version is in the table or twice in ms. */
  predicate NewVersions(table: Table, ms: seq<Migration>) {
    && (forall i :: 0 <= i < |ms| ==> ms[i].version !in table)
    && (forall i, j :: 0 <= i < j < |ms| ==> ms[i].version != ms[j].version)
  }

  lemma NewVersionsStep(table: Table, ms: seq<Migration>, row: Row)
    requires ms != []
    ensures NewVersions(table, ms) <==>
              ms[0].version !in table && NewVersions(table[ms[0].version := row], ms[1..])
  {
  }

  lemma AgreeStep(applied: map<int, Bytes>, ms: seq<Migration>)
    requires ms != []
    ensures ChecksumsAgree(applied, ms) <==>
              (ms[0].version in applied ==> applied[ms[0].version] == ms[0].checksum) && ChecksumsAgree(applied, ms[1..])
  {
  }

  /** A run succeeds exactly when recorded checksums agree, the pending versions are new and distinct, and their SQL runs
      through; its whole effect is that SQL and one row per pending migration. */
  lemma {:induction false} ApplyAllExact<S>(exec: Exec<S>, applied: map<int, Bytes>, work: Db<S>, ms: seq<Migration>)
    requires work.table.Some?
    ensures var pending := Pending(applied, ms);
            var schema := ExecAll(exec, work.schema, pending);
            var o := ApplyAll(exec, applied, work, ms);
            && (o.Done? <==> ChecksumsAgree(applied, ms) && NewVersions(work.table.value, pending) && schema.Some?)
            && (o.Done? ==> o.db == Db(schema.value, Some(Record(work.table.value, pending))))
    decreases |ms|
  {
    if ms != [] {
      AgreeStep(applied, ms);
      var m := ms[0];
      var o := ApplyOne(exec, applied, work, m);
      var rest := Pending(applied, ms[1..]);
      if m.version in applied {
        assert Pending(applied, ms) == rest;
        ApplyAllExact(exec, applied, work, ms[1..]);
      } else {
        var pending := Pending(applied, ms);
        assert pending == [m] + rest && pending[1..] == rest;
        NewVersionsStep(work.table.value, pending, Row(m.name, m.checksum));
        if o.Done? {
          ApplyAllExact(exec, applied, o.db, ms[1..]);
        }
      }
    }
  }

  /** ms are recorded in the table with their checksums. */
  ghost predicate Recorded(table: Table, ms: seq<Migration>) {
    forall i :: 0 <= i < |ms| ==> ms[i].version in table && table[ms[i].version].checksum == ms[i].checksum
  }

  /** Recording new versions adds exactly their rows. */
  lemma {:induction false} RecordExact(table: Table, ms: seq<Migration>)
    requires NewVersions(table, ms)
    ensures Recorded(Record(table, ms), ms)
    ensures forall i :: 0 <= i < |ms| ==> Record(table, ms)[ms[i].version] == Row(ms[i].name, ms[i].checksum)
    ensures forall v :: v in table ==> v in Record(table, ms) && Record(table, ms)[v] == table[v]
    ensures forall v :: v in Record(table, ms) && v !in table ==> exists i :: 0 <= i < |ms| && ms[i].version == v
    decreases |ms|
  {
    if ms != [] {
      var row := Row(ms[0].name, ms[0].checksum);
      var t := table[ms[0].version := row];
      NewVersionsStep(table, ms, row);
      RecordExact(t, ms[1..]);
      assert ms[0].version in t;
      forall i | 0 <= i < |ms|
        ensures ms[i].version in Record(table, ms)
        ensures Record(table, ms)[ms[i].version] == Row(ms[i].name, ms[i].checksum)
      {
        assert i > 0 ==> ms[i] == ms[1..][i - 1];
      }
      forall v | v in Record(table, ms) && v !in table
        ensures exists i :: 0 <= i < |ms| && ms[i].version == v
      {
        if v != ms[0].version {
          var i :| 0 <= i < |ms[1..]| && ms[1..][i].version == v;
          assert ms[i + 1].version == v;
        } else {
          assert ms[0].version == v;
        }
      }
    }
  }

  lemma {:induction false} PendingMember(applied: map<int, Bytes>, ms: seq<Migration>, i: nat) returns (k: nat)
    requires i < |ms| && ms[i].version !in applied
    ensures k < |Pending(applied, ms)| && Pending(applied, ms)[k] == ms[i]
    decreases |ms|
  {
    if i == 0 {
      k := 0;
    } else {
      var j := PendingMember(applied, ms[1..], i - 1);
      k := if ms[0].version in applied then j else j + 1;
    }
  }

  /** After a successful run every migration of the list is recorded with its checksum. */
  lemma SuccessRecords<S>(exec: Exec<S>, db: Db<S>, ms: seq<Migration>)
    requires RunAll(exec, db, ms).Done?
    ensures RunAll(exec, db, ms).db.table.Some? && Recorded(RunAll(exec, db, ms).db.table.value, ms)
  {
    var (table, applied) := (TableOf(db), Checksums(TableOf(db)));
    ApplyAllExact(exec, applied, Db(db.schema, Some(table)), ms);
    var pending := Pending(applied, ms);
    RecordExact(table, pending);
    forall i | 0 <= i < |ms|
      ensures ms[i].version in Record(table, pending) && Record(table, pending)[ms[i].version].checksum == ms[i].checksum
    {
      if ms[i].version !in applied {
        var k := PendingMember(applied, ms, i);
      }
    }
  }

  lemma {:induction false} NothingPending<S>(exec: Exec<S>, applied: map<int, Bytes>, work: Db<S>, ms: seq<Migration>)
    requires forall i :: 0 <= i < |ms| ==> ms[i].version in applied && applied[ms[i].version] == ms[i].checksum
    ensures ApplyAll(exec, applied, work, ms) == Done(work)
    decreases |ms|
  {
    if ms != [] {
      assert forall i :: 0 <= i < |ms[1..]| ==> ms[1..][i] == ms[i + 1];
      NothingPending(exec, applied, work, ms[1..]);
    }
  }

  /** Rerunning a list that succeeded changes nothing, even on a database where its SQL would no longer run. */
  lemma RerunChangesNothing<S>(exec: Exec<S>, later: Exec<S>, db: Db<S>, ms: seq<Migration>)
    requires RunAll(exec, db, ms).Done?
    ensures RunAll(later, RunAll(exec, db, ms).db, ms) == Done(RunAll(exec, db, ms).db)
  {
    SuccessRecords(exec, db, ms);
    var after := RunAll(exec, db, ms).db;
    NothingPending(later, Checksums(TableOf(after)), after, ms);
  }

  lemma {:induction false} ApplyAllConcat<S>(exec: Exec<S>, applied: map<int, Bytes>, work: Db<S>, a: seq<Migration>, b: seq<Migration>)
    ensures ApplyAll(exec, applied, work, a + b) ==
            var o := ApplyAll(exec, applied, work, a);
            if o.Done? then ApplyAll(exec, applied, o.db, b) else o
    decreases |a|
  {
    if a == [] {
      assert a + b == b;
    } else {
      assert (a + b)[1..] == a[1..] + b;
      var o := ApplyOne(exec, applied, work, a[0]);
      if o.Done? {
        ApplyAllConcat(exec, applied, o.db, a[1..], b);
      }
    }
  }

  /** What one more migration at the end of a list does. One with a version of its own runs its SQL on the schema the
      others left and adds its row to their table, or fails with its SQL; one that was recorded before the run does
      nothing, or fails if its checksum has changed. */
  lemma OneMoreMigration<S>(exec: Exec<S>, db: Db<S>, ms: seq<Migration>, m: Migration)
    requires RunAll(exec, db, ms).Done?
    ensures var (before, after) := (RunAll(exec, db, ms).db, RunAll(exec, db, ms + [m]));
            && (m.version !in TableOf(before) ==>
                  match exec(m.sql, before.schema)
                  case Some(schema) =>
                    after == Done(Db(schema, Some(TableOf(before)[m.version := Row(m.name, m.checksum)])))
                  case None => after == SqlFailed(m.version))
            && (m.version in TableOf(db) ==>
                  after == if TableOf(db)[m.version].checksum == m.checksum then Done(before) else ChecksumChanged(m.version))
  {
    var (table, applied) := (TableOf(db), Checksums(TableOf(db)));
    var work := Db(db.schema, Some(table));
    ApplyAllConcat(exec, applied, work, ms, [m]);
    ApplyAllExact(exec, applied, work, ms);
    RecordExact(table, Pending(applied, ms));
    assert [m][1..] == [];
  }

  // ---------------------------------------------------------------- Apply

  class Database<S> {
    var committed: Db<S>

    constructor (committed: Db<S>)
      ensures this.committed == committed
    {
      this.committed := committed;
    }
  }

  datatype Report = Success | Failure | CommitLost

  /** One run on its own, in a transaction that works on a private copy. The connection answers the first `answered`
      statements; if it breaks during the commit, `landed` says whether the server committed all the same. */
  method Apply<S>(database: Database<S>, exec: Exec<S>, ms: seq<Migration>, answered: nat, landed: bool) returns (r: Report)
    modifies database
    ensures r == Success ==> RunAll(exec, old(database.committed), ms) == Done(database.committed)
    ensures r == Failure ==> database.committed == old(database.committed)
    ensures r == CommitLost ==>
              && RunAll(exec, old(database.committed), ms).Done?
              && database.committed ==
                 if landed then RunAll(exec, old(database.committed), ms).db else old(database.committed)
    ensures answered >= 5 + 2 * |ms| ==> (r == Success <==> RunAll(exec, old(database.committed), ms).Done?)
  {
    // Begin, lock, create table, select.
    if answered < 4 {
      return Failure;
    }
    var statements := 4;
    var work := Db(database.committed.schema, Some(TableOf(database.committed)));
    var applied := Checksums(TableOf(work));
    for i := 0 to |ms|
      invariant database.committed == old(database.committed) && statements <= 4 + 2 * i
      invariant ApplyAll(exec, applied, work, ms[i..]) == RunAll(exec, old(database.committed), ms)
    {
      assert ms[i..][0] == ms[i] && ms[i..][1..] == ms[i + 1..];
      var m := ms[i];
      if m.version !in applied {
        statements := statements + 2;
        if answered < statements {
          return Failure;
        }
      }
      var next := ApplyOne(exec, applied, work, m);
      if !next.Done? {
        return Failure;
      }
      work := next.db;
    }
    if answered < statements + 1 {
      if landed {
        database.committed := work;
      }
      return CommitLost;
    }
    database.committed := work;
    r := Success;
  }
}
