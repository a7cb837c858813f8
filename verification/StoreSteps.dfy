/** The protocol's calls against the operations of one goroutine: without interruption Put and Take are those of the bounded
    map of PendingLogins and complete is Login.Complete; and interrupted or not, a Put refused for want of room had seen
    every remaining entry alive. */
module StoreSteps {
  import opened Octets
  import opened LoginClock
  import opened PendingLogins
  import opened LoginProtocol
  import opened StateReuse

  /** The stored tickets whose transactions are used or expired at this moment. */
  ghost function Dead(s: State): (dead: set<Ticket>)
    requires Inv(s)
  {
    set state | state in s.store && (assert SlotOk(s, state); IsDead(s, s.store[state].transaction.tx, s.clock))
      :: s.store[state].transaction
  }

  predicate IsDead(s: State, tx: nat, now: int)
    requires tx in s.txs
  {
    tx in s.used || s.txs[tx].createdAt < now - 300_000_000_000
  }

  ghost predicate By(run: seq<Action>, c: nat) {
    forall i :: 0 <= i < |run| ==> !run[i].Tick? && !run[i].Create? && run[i].call == c
  }

  predicate PutOver(s: State, c: nat) {
    c in s.calls && (s.calls[c].PutDone? || s.calls[c].Refused?)
  }

  /** What the bounded map's Put does to s when call c runs alone. */
  ghost function PutAtOnce(s: State, c: nat, tx: nat, secret: Bytes): (r: (Pending<Ticket>, bool))
    requires Inv(s) && tx in s.txs
  {
    Put(s.store, s.capacity, Dead(s), Fresh(s.clock, s.txs[tx].createdAt), s.txs[tx].state, Slot(Ticket(tx, c), secret))
  }

  lemma InsertRun(s: State, c: nat, run: seq<Action>)
    requires Inv(s) && Legal(s, run) && By(run, c) && c in s.calls && s.calls[c].PutReady? && PutOver(Final(s, run), c)
    ensures Final(s, run) == DoPutInsert(s, c)
  {
    assert run[0] == PutInsert(c);
    ActionKeeps(s, run[0]);
  }

  /** s is `locked` with part of its pruning done. */
  ghost predicate Pruning(locked: State, s: State, c: nat, tx: nat, secret: Bytes) {
    && Inv(locked) && tx in s.txs
    && c in s.calls && s.calls[c].PutPruning? && s.calls[c].tx == tx && s.calls[c].secret == secret
    && s.calls[c].cutoff == s.clock && s.calls[c].todo <= locked.store.Keys
    && s.clock == locked.clock && s.txs == locked.txs && s.used == locked.used && s.capacity == locked.capacity
    && s.store == Pruned(locked.store, Dead(locked), s.calls[c].todo)
  }

  lemma PruneOneStep(locked: State, s: State, c: nat, tx: nat, secret: Bytes, state: Bytes)
    requires Inv(s) && Pruning(locked, s, c, tx, secret) && Enabled(s, PruneOne(c, state))
    ensures Pruning(locked, DoPruneOne(s, c, state), c, tx, secret)
  {
    assert SlotOk(locked, state) && SlotOk(s, state);
    PrunedStep(locked.store, Dead(locked), s.calls[c].todo, state);
    var ticket := locked.store[state].transaction;
    assert DeadAt(s, ticket, s.clock) ==> ticket in Dead(locked);
    if ticket in Dead(locked) {
      var other :| other in locked.store && locked.store[other].transaction == ticket
                   && (assert SlotOk(locked, other); IsDead(locked, ticket.tx, locked.clock));
    }
  }

  lemma {:induction false} PruneRun(locked: State, s: State, c: nat, tx: nat, secret: Bytes, run: seq<Action>)
    requires Inv(s) && Pruning(locked, s, c, tx, secret) && |locked.store| >= locked.capacity
    requires Legal(s, run) && By(run, c) && PutOver(Final(s, run), c)
    ensures (Final(s, run).store, Final(s, run).calls[c].PutDone?) == PutAtOnce(locked, c, tx, secret)
    decreases |run|
  {
    var a, rest := run[0], run[1..];
    ActionKeeps(s, a);
    assert By(rest, c) by {
      assert forall i :: 0 <= i < |rest| ==> rest[i] == run[i + 1];
    }
    if a.PruneOne? {
      PruneOneStep(locked, s, c, tx, secret, a.state);
      PruneRun(locked, Do(s, a), c, tx, secret, rest);
    } else {
      InsertRun(Do(s, a), c, rest);
      PrunedEnds(locked.store, Dead(locked));
    }
  }

  /** A Put that nobody interrupts, from its lock to its end, in whatever order it prunes: the bounded map's Put. */
  lemma PutUninterrupted(s: State, c: nat, run: seq<Action>)
    requires Inv(s) && c in s.calls && s.calls[c].PutWaiting?
    requires Legal(s, run) && By(run, c) && PutOver(Final(s, run), c)
    ensures s.calls[c].tx in s.txs
    ensures (Final(s, run).store, Final(s, run).calls[c].PutDone?) == PutAtOnce(s, c, s.calls[c].tx, s.calls[c].secret)
  {
    var PutWaiting(tx, secret) := s.calls[c];
    assert CallOk(s, c);
    var a, rest := run[0], run[1..];
    assert a == PutLock(c);
    ActionKeeps(s, a);
    assert By(rest, c) by {
      assert forall i :: 0 <= i < |rest| ==> rest[i] == run[i + 1];
    }
    if |s.store| >= s.capacity {
      PrunedEnds(s.store, Dead(s));
      PruneRun(s, Do(s, a), c, tx, secret, rest);
    } else {
      InsertRun(Do(s, a), c, rest);
    }
  }

  /** Likewise Take, whose two flag loads then agree. */
  lemma TakeUninterrupted(s: State, c: nat, state: Bytes, secret: Bytes)
    requires Inv(s) && Enabled(s, TakeLookup(c, state, secret))
    ensures Inv(Do(s, TakeLookup(c, state, secret)))
    ensures var t := Do(s, TakeLookup(c, state, secret));
            var u := if t.calls[c].TakeHolding? then Do(t, TakeFinish(c)) else t;
            (u.store, if u.calls[c].Taken? then Some(u.calls[c].ticket) else None) == Take(s.store, Dead(s), state, secret)
  {
    ActionKeeps(s, TakeLookup(c, state, secret));
    assert SlotOk(s, state);
    if state in s.store {
      var ticket := s.store[state].transaction;
      assert DeadAt(s, ticket, s.clock) ==> ticket in Dead(s);
      if ticket in Dead(s) {
        var other :| other in s.store && s.store[other].transaction == ticket
                     && (assert SlotOk(s, other); IsDead(s, ticket.tx, s.clock));
      }
    }
  }

  /** And complete, with both clock readings at one instant: it exchanges under the very conditions of Login.Complete, and
      with the right owner and a context it leaves the flag set in every case. */
  lemma CompleteUninterrupted(s: State, c: nat, client: nat, hasContext: bool, tx: nat, callbackOk: bool)
    returns (run: seq<Action>)
    requires Inv(s) && c !in s.calls && tx in s.txs
    ensures Legal(s, run)
    ensures Final(s, run) ==
            var Tx(owner, _, createdAt) := s.txs[tx];
            if !hasContext || owner != Some(client) then Set(s, c, Refused)
            else
              var ok := tx !in s.used && s.clock - 300_000_000_000 <= createdAt <= s.clock + 60_000_000_000 && callbackOk;
              Set(s, c, if ok then Exchanged(tx, s.clock, s.clock) else Spent(tx)).(used := s.used + {tx})
  {
    run := [CompleteSwap(c, client, hasContext, tx)];
    One(s, run[0]);
    var t := s.(used := s.used + {tx});
    if hasContext && s.txs[tx].owner == Some(client) && tx !in s.used {
      assert Final(s, run) == Set(t, c, Swapped(tx));
      Then(s, run, CompleteAge(c));
      run := run + [CompleteAge(c)];
      SetTwice(t, c, Swapped(tx), if Expired(s.clock, s.txs[tx].createdAt) then Spent(tx) else Aged(tx, s.clock));
      if !Expired(s.clock, s.txs[tx].createdAt) {
        assert Final(s, run) == Set(t, c, Aged(tx, s.clock));
        Then(s, run, CompleteExchange(c, callbackOk));
        run := run + [CompleteExchange(c, callbackOk)];
        SetTwice(t, c, Aged(tx, s.clock), Final(s, run).calls[c]);
      }
    }
  }

  lemma SetTwice(s: State, c: nat, first: Call, second: Call)
    ensures Set(Set(s, c, first), c, second) == Set(s, c, second)
  {
    assert s.calls[c := first][c := second] == s.calls[c := second];
  }

  /** What Put tests before it waits for the mutex, and what Seal tests. */
  lemma EntryTests(s: State, c: nat, tx: nat, secret: Bytes, wellFormed: bool)
    requires Inv(s) && c !in s.calls && tx in s.txs
    ensures var Tx(owner, state, createdAt) := s.txs[tx];
            && (Do(s, PutStart(c, tx, secret)) ==
                  Set(s, c, if owner.Some? && |state| == 43 && tx !in s.used then PutWaiting(tx, secret) else Refused))
            && (Do(s, Seal(c, tx, wellFormed)) ==
                  Set(s, c, if && owner.Some? && tx !in s.used && wellFormed && createdAt != ZERO_TIME
                               && s.clock - 300_000_000_000 <= createdAt <= s.clock + 60_000_000_000
                            then Sealed(tx, s.clock) else Refused))
  {
  }

  // ---------------------------------------------------------------- refused for want of room

  /** Call c is pruning or has pruned, and has passed over this entry. */
  predicate Passed(s: State, c: nat, state: Bytes) {
    && c in s.calls && state in s.store
    && ((s.calls[c].PutPruning? && state !in s.calls[c].todo) || (s.calls[c].PutReady? && s.calls[c].pruned))
  }

  /** Call c is about to look at this entry, and it is alive. */
  ghost predicate SeesAlive(s: State, c: nat, state: Bytes, slot: Slot<Ticket>)
    requires Inv(s)
  {
    && c in s.calls && s.calls[c].PutPruning? && state in s.store && s.store[state] == slot
    && slot.transaction.tx in s.txs && !IsDead(s, slot.transaction.tx, s.calls[c].cutoff)
  }

  /** While a call holds the mutex, no other call touches the store. */
  lemma HeldStore(s: State, a: Action, c: nat)
    requires Inv(s) && Enabled(s, a) && s.mutex == Some(c) && (a.Tick? || a.Create? || a.call != c)
    ensures Do(s, a).store == s.store
  {
    if !a.Tick? && !a.Create? {
      assert CallOk(s, a.call);
    }
  }

  lemma PassedOwnStep(s: State, a: Action, c: nat, state: Bytes)
    requires Inv(s) && Enabled(s, a) && !a.Tick? && !a.Create? && a.call == c && Passed(Do(s, a), c, state)
    ensures (Passed(s, c, state) && s.store[state] == Do(s, a).store[state]) ||
            (a == PruneOne(c, state) && SeesAlive(s, c, state, Do(s, a).store[state]))
  {
    assert SlotOk(s, state);
  }

  lemma PassedStep(s: State, a: Action, c: nat, state: Bytes)
    requires Inv(s) && Enabled(s, a) && Passed(Do(s, a), c, state)
    ensures (Passed(s, c, state) && s.store[state] == Do(s, a).store[state]) ||
            (a == PruneOne(c, state) && SeesAlive(s, c, state, Do(s, a).store[state]))
  {
    if a.Tick? || a.Create? || a.call != c {
      OtherCallsStand(s, a, c);
      assert CallOk(s, c);
      HeldStore(s, a, c);
    } else {
      PassedOwnStep(s, a, c, state);
    }
  }

  lemma {:induction false} PassedAlive(s: State, run: seq<Action>, c: nat, state: Bytes) returns (k: int)
    requires Inv(s) && Legal(s, run) && Passed(Final(s, run), c, state)
    ensures k == -1 ==> Passed(s, c, state) && s.store[state] == Final(s, run).store[state]
    ensures -1 <= k < |run|
    ensures k >= 0 ==> run[k] == PruneOne(c, state) && Legal(s, run[..k])
                       && SeesAlive(Final(s, run[..k]), c, state, Final(s, run).store[state])
    decreases |run|
  {
    k := -1;
    if run != [] {
      var a, rest := run[0], run[1..];
      ActionKeeps(s, a);
      var j := PassedAlive(Do(s, a), rest, c, state);
      if j >= 0 {
        k := j + 1;
        assert run[..k][1..] == rest[..j];
      } else {
        PassedStep(s, a, c, state);
        if !(Passed(s, c, state) && s.store[state] == Final(s, run).store[state]) {
          k := 0;
        }
      }
    }
  }

  /** In every run: a Put about to be refused for want of room looked at each remaining entry at some step of the run,
      and that entry was then stored as it is now, unexpired and unused. */
  lemma RefusedForLivingOnly(capacity: nat, clock: int, run: seq<Action>, c: nat, state: Bytes) returns (k: nat)
    requires Legal(Start(capacity, clock), run)
    requires var s := Final(Start(capacity, clock), run);
             c in s.calls && s.calls[c].PutReady? && |s.store| >= capacity && state in s.store
    ensures k < |run| && run[k] == PruneOne(c, state) && Legal(Start(capacity, clock), run[..k])
    ensures var s := Final(Start(capacity, clock), run);
            SeesAlive(Final(Start(capacity, clock), run[..k]), c, state, s.store[state])
  {
    var s := Final(Start(capacity, clock), run);
    RunExtends(Start(capacity, clock), run);
    assert CallOk(s, c);
    k := PassedAlive(Start(capacity, clock), run, c, state);
  }
}
