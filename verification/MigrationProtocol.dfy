/** Any number of concurrent migration runners on one database, each with its own list. The advisory lock is held from
    the lock statement to the end of the transaction; a runner's work is private until it commits. */
module MigrationProtocol {
  import opened Octets
  import opened MigrationFiles
  import opened MigrationRunner

  datatype Runner<S> =
    | Waiting(ms: seq<Migration>)
    | Locked(ms: seq<Migration>)
    | Looping(ms: seq<Migration>, next: nat, applied: map<int, Bytes>, work: Db<S>, done: seq<Migration>)
    | Finished(ms: seq<Migration>)
    | Failed(ms: seq<Migration>)

  /** `history` is the SQL that took part in the committed schema, in order; `offered` all migrations of all lists. */
  datatype State<S> = State(
    committed: Db<S>,
    lock: Option<nat>,
    runners: map<nat, Runner<S>>,
    history: seq<Migration>,
    offered: set<Migration>)

  datatype Action =
    | Begin(runner: nat, ms: seq<Migration>)
    | Lock(runner: nat)
    | ReadTable(runner: nat)
    | Step(runner: nat)
    | Commit(runner: nat)
    | LoseCommit(runner: nat, landed: bool)
    | Abort(runner: nat)

  predicate Enabled<S(!new)>(s: State<S>, a: Action) {
    if a.Begin? then a.runner !in s.runners
    else
      && a.runner in s.runners
      && var r := s.runners[a.runner];
         match a
         case Lock(_) => r.Waiting? && s.lock.None?
         case ReadTable(_) => r.Locked?
         case Step(_) => r.Looping? && r.next < |r.ms|
         case Commit(_) => r.Looping? && r.next == |r.ms|
         case LoseCommit(_, _) => r.Looping? && r.next == |r.ms|
         case Abort(_) => r.Waiting? || r.Locked? || r.Looping?
         case Begin(_, _) => true
  }

  function Release<S>(s: State<S>, r: nat, after: Runner<S>): State<S> {
    s.(runners := s.runners[r := after], lock := if s.lock == Some(r) then None else s.lock)
  }

  function Publish<S>(s: State<S>, r: nat): State<S>
    requires r in s.runners && s.runners[r].Looping?
  {
    s.(committed := s.runners[r].work, history := s.history + s.runners[r].done)
  }

  function DoStep<S>(exec: Exec<S>, s: State<S>, r: nat): State<S>
    requires r in s.runners && s.runners[r].Looping? && s.runners[r].next < |s.runners[r].ms|
  {
    var Looping(ms, next, applied, work, done) := s.runners[r];
    var m := ms[next];
    var o := ApplyOne(exec, applied, work, m);
    if !o.Done? then Release(s, r, Failed(ms))
    else
      s.(runners := s.runners[r := Looping(ms, next + 1, applied, o.db, if m.version in applied then done else done + [m])])
  }

  function Do<S(!new)>(exec: Exec<S>, s: State<S>, a: Action): State<S>
    requires Enabled(s, a)
  {
    match a
    case Begin(r, ms) => s.(runners := s.runners[r := Waiting(ms)], offered := s.offered + set m | m in ms)
    case Lock(r) => s.(runners := s.runners[r := Locked(s.runners[r].ms)], lock := Some(r))
    case ReadTable(r) =>
      var table := TableOf(s.committed);
      var work := Db(s.committed.schema, Some(table));
      s.(runners := s.runners[r := Looping(s.runners[r].ms, 0, Checksums(table), work, [])])
    case Step(r) => DoStep(exec, s, r)
    case Commit(r) => Release(Publish(s, r), r, Finished(s.runners[r].ms))
    case LoseCommit(r, landed) => Release(if landed then Publish(s, r) else s, r, Failed(s.runners[r].ms))
    case Abort(r) => Release(s, r, Failed(s.runners[r].ms))
  }

  // ---------------------------------------------------------------- the invariant

  /** From `base`, running `ms` gives `db`: its SQL ran through once each, and each left one row. */
  ghost predicate Built<S>(exec: Exec<S>, base: Db<S>, ms: seq<Migration>, db: Db<S>) {
    && ExecAll(exec, base.schema, ms) == Some(db.schema)
    && NewVersions(TableOf(base), ms)
    && TableOf(db) == Record(TableOf(base), ms)
  }

  ghost predicate RunnerOk<S>(exec: Exec<S>, s: State<S>, r: nat) {
    r in s.runners ==>
      && (forall m :: m in s.runners[r].ms ==> m in s.offered)
      && match s.runners[r]
         case Waiting(_) => true
         case Locked(_) => s.lock == Some(r)
         case Looping(ms, next, applied, work, done) =>
           && s.lock == Some(r) && next <= |ms|
           && applied == Checksums(TableOf(s.committed))
           && work.table.Some? && Built(exec, s.committed, done, work)
           && Recorded(TableOf(work), ms[..next])
           && ApplyAll(exec, applied, work, ms[next..]) == RunAll(exec, s.committed, ms)
           && (forall m :: m in done ==> m in s.offered)
         case Finished(ms) => Recorded(TableOf(s.committed), ms)
         case Failed(_) => true
  }

  ghost predicate Inv<S(!new)>(exec: Exec<S>, init: Db<S>, s: State<S>) {
    && Built(exec, init, s.history, s.committed)
    && (forall m :: m in s.history ==> m in s.offered)
    && (forall r :: RunnerOk(exec, s, r))
  }

  // ---------------------------------------------------------------- composing builds

  lemma {:induction false} ExecConcat<S>(exec: Exec<S>, schema: S, a: seq<Migration>, b: seq<Migration>)
    ensures ExecAll(exec, schema, a + b) ==
            var middle := ExecAll(exec, schema, a);
            if middle.None? then None else ExecAll(exec, middle.value, b)
    decreases |a|
  {
    if a == [] {
      assert a + b == b;
    } else {
      assert (a + b)[1..] == a[1..] + b;
      var next := exec(a[0].sql, schema);
      if next.Some? {
        ExecConcat(exec, next.value, a[1..], b);
      }
    }
  }

  lemma {:induction false} RecordConcat(table: Table, a: seq<Migration>, b: seq<Migration>)
    ensures Record(table, a + b) == Record(Record(table, a), b)
    decreases |a|
  {
    if a == [] {
      assert a + b == b;
    } else {
      assert (a + b)[1..] == a[1..] + b;
      RecordConcat(table[a[0].version := Row(a[0].name, a[0].checksum)], a[1..], b);
    }
  }

  lemma NewConcat(table: Table, a: seq<Migration>, b: seq<Migration>)
    requires NewVersions(table, a) && NewVersions(Record(table, a), b)
    ensures NewVersions(table, a + b)
  {
    RecordExact(table, a);
    forall i, j | 0 <= i < j < |a + b|
      ensures (a + b)[i].version != (a + b)[j].version
    {
      if i < |a| && j >= |a| {
        assert a[i].version in Record(table, a) && b[j - |a|].version !in Record(table, a);
      }
    }
    forall j | 0 <= j < |a + b|
      ensures (a + b)[j].version !in table
    {
      if j >= |a| {
        assert b[j - |a|].version !in Record(table, a);
      }
    }
  }

  lemma BuiltConcat<S>(exec: Exec<S>, base: Db<S>, a: seq<Migration>, middle: Db<S>, b: seq<Migration>, db: Db<S>)
    requires Built(exec, base, a, middle) && Built(exec, middle, b, db)
    ensures Built(exec, base, a + b, db)
  {
    ExecConcat(exec, base.schema, a, b);
    RecordConcat(TableOf(base), a, b);
    NewConcat(TableOf(base), a, b);
  }

  /** One migration that ran builds on what was there. */
  lemma BuiltOne<S>(exec: Exec<S>, applied: map<int, Bytes>, work: Db<S>, m: Migration)
    requires m.version !in applied && ApplyOne(exec, applied, work, m).Done?
    ensures Built(exec, work, [m], ApplyOne(exec, applied, work, m).db)
  {
  }

  lemma RecordedNext(table: Table, ms: seq<Migration>, next: nat)
    requires next < |ms| && Recorded(table, ms[..next])
    requires ms[next].version in table && table[ms[next].version].checksum == ms[next].checksum
    ensures Recorded(table, ms[..next + 1])
  {
  }

  lemma RecordedKept(before: Table, table: Table, ms: seq<Migration>)
    requires Recorded(before, ms) && forall v :: v in before ==> v in table && table[v] == before[v]
    ensures Recorded(table, ms)
  {
  }

  // ---------------------------------------------------------------- every action keeps it

  /** Only runner r moved; the committed state is as it was. */
  lemma OthersKept<S(!new)>(exec: Exec<S>, init: Db<S>, s: State<S>, t: State<S>, r: nat)
    requires Inv(exec, init, s)
    requires t.committed == s.committed && t.history == s.history && s.offered <= t.offered
    requires r in t.runners && t.runners.Keys == s.runners.Keys + {r}
    requires forall q :: q in s.runners && q != r ==> t.runners[q] == s.runners[q]
    requires t.lock == s.lock || s.lock == None || s.lock == Some(r)
    requires RunnerOk(exec, t, r)
    ensures Inv(exec, init, t)
  {
    forall q
      ensures RunnerOk(exec, t, q)
    {
      assert RunnerOk(exec, s, q);
    }
  }

  lemma StepKeeps<S(!new)>(exec: Exec<S>, init: Db<S>, s: State<S>, r: nat)
    requires Inv(exec, init, s) && Enabled(s, Step(r))
    ensures Inv(exec, init, DoStep(exec, s, r))
  {
    assert RunnerOk(exec, s, r);
    var Looping(ms, next, applied, work, done) := s.runners[r];
    var m := ms[next];
    var o := ApplyOne(exec, applied, work, m);
    assert ms[next..][0] == m && ms[next..][1..] == ms[next + 1..];
    if o.Done? {
      if m.version in applied {
        RecordExact(TableOf(s.committed), done);
        RecordedNext(TableOf(work), ms, next);
      } else {
        BuiltOne(exec, applied, work, m);
        BuiltConcat(exec, s.committed, done, work, [m], o.db);
        RecordedKept(TableOf(work), TableOf(o.db), ms[..next]);
        RecordedNext(TableOf(o.db), ms, next);
      }
    }
    OthersKept(exec, init, s, DoStep(exec, s, r), r);
  }

  /** Publishing under the lock: history grows by what the runner did, and everybody else's records stand. */
  lemma PublishKeeps<S(!new)>(exec: Exec<S>, init: Db<S>, s: State<S>, r: nat, after: Runner<S>)
    requires Inv(exec, init, s) && Enabled(s, Commit(r))
    requires after == Finished(s.runners[r].ms) || after == Failed(s.runners[r].ms)
    ensures Inv(exec, init, Release(Publish(s, r), r, after))
  {
    assert RunnerOk(exec, s, r);
    var (t, run) := (Release(Publish(s, r), r, after), s.runners[r]);
    BuiltConcat(exec, init, s.history, s.committed, run.done, run.work);
    RecordExact(TableOf(s.committed), run.done);
    assert run.ms[..run.next] == run.ms;
    forall q
      ensures RunnerOk(exec, t, q)
    {
      assert RunnerOk(exec, s, q);
      if q in s.runners && q != r && s.runners[q].Finished? {
        RecordedKept(TableOf(s.committed), TableOf(t.committed), s.runners[q].ms);
      }
    }
  }

  lemma ReadTableKeeps<S(!new)>(exec: Exec<S>, init: Db<S>, s: State<S>, r: nat)
    requires Inv(exec, init, s) && Enabled(s, ReadTable(r))
    ensures Inv(exec, init, Do(exec, s, ReadTable(r)))
  {
    assert RunnerOk(exec, s, r);
    assert s.runners[r].ms[0..] == s.runners[r].ms;
    OthersKept(exec, init, s, Do(exec, s, ReadTable(r)), r);
  }

  lemma ActionKeeps<S(!new)>(exec: Exec<S>, init: Db<S>, s: State<S>, a: Action)
    requires Inv(exec, init, s) && Enabled(s, a)
    ensures Inv(exec, init, Do(exec, s, a))
  {
    assert RunnerOk(exec, s, a.runner);
    match a
    case Step(r) => StepKeeps(exec, init, s, r);
    case Commit(r) => PublishKeeps(exec, init, s, r, Finished(s.runners[r].ms));
    case LoseCommit(r, landed) =>
      if landed {
        PublishKeeps(exec, init, s, r, Failed(s.runners[r].ms));
      } else {
        OthersKept(exec, init, s, Do(exec, s, a), r);
      }
    case ReadTable(r) => ReadTableKeeps(exec, init, s, r);
    case _ => OthersKept(exec, init, s, Do(exec, s, a), a.runner);
  }

  // ---------------------------------------------------------------- whole runs

  ghost predicate Legal<S(!new)>(exec: Exec<S>, s: State<S>, run: seq<Action>)
    decreases |run|
  {
    run == [] || (Enabled(s, run[0]) && Legal(exec, Do(exec, s, run[0]), run[1..]))
  }

  ghost function Final<S(!new)>(exec: Exec<S>, s: State<S>, run: seq<Action>): State<S>
    requires Legal(exec, s, run)
    decreases |run|
  {
    if run == [] then s else Final(exec, Do(exec, s, run[0]), run[1..])
  }

  function Start<S>(init: Db<S>): State<S> {
    State(init, None, map[], [], {})
  }

  lemma {:induction false} RunKeeps<S(!new)>(exec: Exec<S>, init: Db<S>, s: State<S>, run: seq<Action>)
    requires Inv(exec, init, s) && Legal(exec, s, run)
    ensures Inv(exec, init, Final(exec, s, run))
    decreases |run|
  {
    if run != [] {
      ActionKeeps(exec, init, s, run[0]);
      RunKeeps(exec, init, Do(exec, s, run[0]), run[1..]);
    }
  }

  /** How often a version's SQL took part in the committed schema. */
  function Count(history: seq<Migration>, version: int): nat {
    if history == [] then 0 else (if history[0].version == version then 1 else 0) + Count(history[1..], version)
  }

  lemma {:induction false} CountNew(table: Table, history: seq<Migration>, version: int)
    requires NewVersions(table, history)
    ensures Count(history, version) == if exists k :: 0 <= k < |history| && history[k].version == version then 1 else 0
    decreases |history|
  {
    if history != [] {
      NewVersionsStep(table, history, Row("", []));
      var rest := history[1..];
      CountNew(table[history[0].version := Row("", [])], rest, version);
      assert forall k :: 0 <= k < |rest| ==> rest[k] == history[k + 1];
      if k :| 0 <= k < |rest| && rest[k].version == version {
        assert history[k + 1].version == version;
      }
    }
  }

  /** In every interleaving, whether or not any runner was ever told of its success: the committed schema is the initial
      one with the SQL of `history` run in order, and a version's SQL is part of it exactly once if the committed table
      has a row for it that the initial table had not, and otherwise not at all. */
  lemma AtMostOnce<S(!new)>(exec: Exec<S>, init: Db<S>, run: seq<Action>, version: int)
    requires Legal(exec, Start(init), run)
    ensures var s := Final(exec, Start(init), run);
            && ExecAll(exec, init.schema, s.history) == Some(s.committed.schema)
            && Count(s.history, version) ==
               (if version in TableOf(s.committed) && version !in TableOf(init) then 1 else 0)
  {
    RunKeeps(exec, init, Start(init), run);
    var s := Final(exec, Start(init), run);
    RecordExact(TableOf(init), s.history);
    CountNew(TableOf(init), s.history, version);
  }

  /** Once a runner has succeeded, each version of its list that the initial table did not have was run exactly once, by
      a migration with its checksum, and none that the table had was run at all. */
  lemma ExactlyOnce<S(!new)>(exec: Exec<S>, init: Db<S>, run: seq<Action>, r: nat, i: nat)
    requires Legal(exec, Start(init), run)
    requires var s := Final(exec, Start(init), run); r in s.runners && s.runners[r].Finished? && i < |s.runners[r].ms|
    ensures var s := Final(exec, Start(init), run);
            var m := s.runners[r].ms[i];
            && Count(s.history, m.version) == (if m.version in TableOf(init) then 0 else 1)
            && (forall k :: 0 <= k < |s.history| && s.history[k].version == m.version ==> s.history[k].checksum == m.checksum)
  {
    RunKeeps(exec, init, Start(init), run);
    var s := Final(exec, Start(init), run);
    assert RunnerOk(exec, s, r);
    RecordExact(TableOf(init), s.history);
    CountNew(TableOf(init), s.history, s.runners[r].ms[i].version);
  }

  /** When all runners share one loaded list, what ran is that very migration. */
  lemma SameListSameSql<S(!new)>(exec: Exec<S>, init: Db<S>, run: seq<Action>, ms: seq<Migration>, i: nat, k: nat)
    requires Legal(exec, Start(init), run)
    requires i < |ms| && forall p, q :: 0 <= p < q < |ms| ==> ms[p].version != ms[q].version
    requires var s := Final(exec, Start(init), run);
             (forall m :: m in s.offered ==> m in ms) && k < |s.history| && s.history[k].version == ms[i].version
    ensures Final(exec, Start(init), run).history[k] == ms[i]
  {
    RunKeeps(exec, init, Start(init), run);
    var s := Final(exec, Start(init), run);
    assert s.history[k] in s.history;
    var j :| 0 <= j < |ms| && ms[j] == s.history[k];
  }

  /** Runners are serialised: in every run, what a runner commits is what Apply on its own would have made of the database
      as it was at that very moment, and a step that fails is one on which Apply would have failed. */
  lemma CommitsWhatApplyWould<S(!new)>(exec: Exec<S>, init: Db<S>, run: seq<Action>, r: nat)
    requires Legal(exec, Start(init), run)
    ensures var s := Final(exec, Start(init), run);
            && (Enabled(s, Commit(r)) ==>
                  RunAll(exec, s.committed, s.runners[r].ms) == Done(Do(exec, s, Commit(r)).committed))
            && (Enabled(s, LoseCommit(r, true)) ==>
                  RunAll(exec, s.committed, s.runners[r].ms) == Done(Do(exec, s, LoseCommit(r, true)).committed))
            && (Enabled(s, Step(r)) && Do(exec, s, Step(r)).runners[r].Failed? ==>
                  !RunAll(exec, s.committed, s.runners[r].ms).Done?)
  {
    RunKeeps(exec, init, Start(init), run);
    var s := Final(exec, Start(init), run);
    assert RunnerOk(exec, s, r);
    if r in s.runners && s.runners[r].Looping? && s.runners[r].next < |s.runners[r].ms| {
      assert s.runners[r].ms[s.runners[r].next..][0] == s.runners[r].ms[s.runners[r].next];
    }
  }

  /** Nothing but a commit that reached the server changes the committed database or its history. */
  lemma OnlyCommitsChange<S(!new)>(exec: Exec<S>, s: State<S>, a: Action)
    requires Enabled(s, a) && !a.Commit? && !(a.LoseCommit? && a.landed)
    ensures Do(exec, s, a).committed == s.committed && Do(exec, s, a).history == s.history
    ensures a.LoseCommit? || a.Abort? ==> Do(exec, s, a).runners[a.runner].Failed? && Do(exec, s, a).lock != Some(a.runner)
  {
  }

  // ---------------------------------------------------------------- a runner that is left alone finishes

  lemma {:induction false} LoopFinishes<S(!new)>(exec: Exec<S>, init: Db<S>, s: State<S>, r: nat) returns (more: seq<Action>)
    requires Inv(exec, init, s) && r in s.runners && s.runners[r].Looping?
    requires RunAll(exec, s.committed, s.runners[r].ms).Done?
    ensures Legal(exec, s, more) && r in Final(exec, s, more).runners
    ensures Final(exec, s, more).runners[r] == Finished(s.runners[r].ms)
    ensures Done(Final(exec, s, more).committed) == RunAll(exec, s.committed, s.runners[r].ms)
    decreases if s.runners[r].next <= |s.runners[r].ms| then |s.runners[r].ms| - s.runners[r].next else 0
  {
    assert RunnerOk(exec, s, r);
    var Looping(ms, next, applied, work, done) := s.runners[r];
    if next == |ms| {
      assert ms[next..] == [];
      more := [Commit(r)];
      assert more[1..] == [];
    } else {
      assert ms[next..][0] == ms[next] && ms[next..][1..] == ms[next + 1..];
      ActionKeeps(exec, init, s, Step(r));
      var rest := LoopFinishes(exec, init, Do(exec, s, Step(r)), r);
      more := [Step(r)] + rest;
      assert more[1..] == rest;
    }
  }

  /** In every run: a waiting runner whose list Apply would accept can go on to finish as soon as the lock is free, and
      commits exactly what Apply would. */
  lemma WaitingRunnerFinishes<S(!new)>(exec: Exec<S>, init: Db<S>, run: seq<Action>, r: nat) returns (more: seq<Action>)
    requires Legal(exec, Start(init), run)
    requires var s := Final(exec, Start(init), run);
             && r in s.runners && s.runners[r].Waiting? && s.lock.None?
             && RunAll(exec, s.committed, s.runners[r].ms).Done?
    ensures var s := Final(exec, Start(init), run);
            && Legal(exec, s, more) && r in Final(exec, s, more).runners
            && Final(exec, s, more).runners[r] == Finished(s.runners[r].ms)
            && Done(Final(exec, s, more).committed) == RunAll(exec, s.committed, s.runners[r].ms)
  {
    RunKeeps(exec, init, Start(init), run);
    var s := Final(exec, Start(init), run);
    ActionKeeps(exec, init, s, Lock(r));
    var locked := Do(exec, s, Lock(r));
    ActionKeeps(exec, init, locked, ReadTable(r));
    var rest := LoopFinishes(exec, init, Do(exec, locked, ReadTable(r)), r);
    more := [Lock(r)] + ([ReadTable(r)] + rest);
    assert more[1..] == [ReadTable(r)] + rest && ([ReadTable(r)] + rest)[1..] == rest;
  }
}
