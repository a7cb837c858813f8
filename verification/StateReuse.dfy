/** One use holds per transaction, not per state string: opening a sealed record twice gives two transactions with one
    state. This module says exactly when a state string can be exchanged a second time. */
module StateReuse {
  import opened Octets
  import opened LoginClock
  import opened LoginProtocol

  /** The call has exchanged tx or, unless it is refused, still will. */
  predicate Holds(s: State, call: Call, tx: nat)
    requires tx in s.txs
  {
    PastGuard(call, tx) && (call.Swapped? ==> !Expired(s.clock, s.txs[tx].createdAt))
  }

  /** Nobody has presented tx, and its owner still may. */
  predicate Open(s: State, tx: nat)
    requires tx in s.txs
  {
    s.txs[tx].owner.Some? && tx !in s.used && !Expired(s.clock, s.txs[tx].createdAt)
  }

  ghost predicate Live(s: State, tx: nat) {
    tx in s.txs && (Open(s, tx) || exists c :: c in s.calls && Holds(s, s.calls[c], tx))
  }

  ghost predicate NoCreate(run: seq<Action>) {
    forall i :: 0 <= i < |run| ==> !run[i].Create?
  }

  predicate Exchanges(s: State, c: nat, state: Bytes) {
    c in s.calls && s.calls[c].Exchanged? && s.calls[c].tx in s.txs && s.txs[s.calls[c].tx].state == state
  }

  ghost predicate ExchangedOnce(s: State, state: Bytes) {
    forall c, d :: Exchanges(s, c, state) && Exchanges(s, d, state) ==> c == d
  }

  /** However the existing transactions are used from here on, the state string is exchanged at most once. */
  ghost predicate NeverTwice(s: State, state: Bytes)
    requires Inv(s)
  {
    forall more :: Legal(s, more) && NoCreate(more) ==> ExchangedOnce(Final(s, more), state)
  }

  ghost predicate OneLive(s: State, state: Bytes) {
    forall t, u :: Live(s, t) && Live(s, u) && s.txs[t].state == state && s.txs[u].state == state ==> t == u
  }

  // ---------------------------------------------------------------- one live transaction: at most one exchange

  lemma HoldsBefore(s: State, a: Action, c: nat, tx: nat)
    requires Inv(s) && Enabled(s, a) && !a.Create? && tx in s.txs
    requires c in Do(s, a).calls && tx in Do(s, a).txs && Holds(Do(s, a), Do(s, a).calls[c], tx)
    ensures Open(s, tx) || (c in s.calls && Holds(s, s.calls[c], tx))
  {
    if a.Tick? || a.call != c {
      OtherCallsStand(s, a, c);
    } else if InStore(a) {
      StoreCallNoWinner(s, a, tx);
    }
  }

  lemma LiveBefore(s: State, a: Action, tx: nat)
    requires Inv(s) && Enabled(s, a) && !a.Create? && Live(Do(s, a), tx)
    ensures Live(s, tx)
  {
    var t := Do(s, a);
    FieldsStand(s, a);
    TxsStand(s, a);
    if !Open(t, tx) {
      var c :| c in t.calls && Holds(t, t.calls[c], tx);
      HoldsBefore(s, a, c, tx);
    }
  }

  lemma TxsStand(s: State, a: Action)
    requires Inv(s) && Enabled(s, a) && !a.Create?
    ensures Do(s, a).txs == s.txs
  {
  }

  lemma {:induction false} LiveAllAlong(s: State, more: seq<Action>, tx: nat)
    requires Inv(s) && Legal(s, more) && NoCreate(more) && Live(Final(s, more), tx)
    ensures Live(s, tx) && Final(s, more).txs == s.txs
    decreases |more|
  {
    if more != [] {
      ActionKeeps(s, more[0]);
      LiveAllAlong(Do(s, more[0]), more[1..], tx);
      LiveBefore(s, more[0], tx);
      TxsStand(s, more[0]);
    }
  }

  lemma ExchangesOfOneLive(s: State, more: seq<Action>, state: Bytes, c: nat, d: nat)
    requires Inv(s) && Legal(s, more) && NoCreate(more) && OneLive(s, state)
    requires Exchanges(Final(s, more), c, state) && Exchanges(Final(s, more), d, state)
    ensures c == d
  {
    var f := Final(s, more);
    var (t, u) := (f.calls[c].tx, f.calls[d].tx);
    assert Holds(f, f.calls[c], t) && Holds(f, f.calls[d], u);
    LiveAllAlong(s, more, t);
    LiveAllAlong(s, more, u);
    assert PastGuard(f.calls[c], t) && PastGuard(f.calls[d], t);
  }

  // ---------------------------------------------------------------- two live transactions: two exchanges

  lemma {:induction false} Joined(s: State, run: seq<Action>, more: seq<Action>)
    requires Inv(s) && Legal(s, run) && Legal(Final(s, run), more)
    ensures Legal(s, run + more) && Final(s, run + more) == Final(Final(s, run), more)
    decreases |run|
  {
    if run == [] {
      assert run + more == more;
    } else {
      ActionKeeps(s, run[0]);
      Joined(Do(s, run[0]), run[1..], more);
      assert (run + more)[0] == run[0] && (run + more)[1..] == run[1..] + more;
    }
  }

  lemma One(s: State, a: Action)
    requires Inv(s) && Enabled(s, a)
    ensures Legal(s, [a]) && Final(s, [a]) == Do(s, a)
  {
    ActionKeeps(s, a);
    assert [a][1..] == [];
  }

  lemma Then(s: State, run: seq<Action>, a: Action)
    requires Inv(s) && Legal(s, run) && Enabled(Final(s, run), a)
    ensures Legal(s, run + [a]) && Final(s, run + [a]) == Do(Final(s, run), a)
  {
    One(Final(s, run), a);
    Joined(s, run, [a]);
  }

  lemma {:induction false} Unused(calls: set<nat>) returns (c: nat)
    ensures forall d :: d in calls ==> d < c
  {
    c := 0;
    if calls != {} {
      var d :| d in calls;
      var rest := Unused(calls - {d});
      c := if rest <= d then d + 1 else rest;
      assert forall e :: e in calls && e != d ==> e in calls - {d};
    }
  }

  /** The earliest moment from now on at which tx is not from the future. */
  function Due(s: State, tx: nat): (now: int)
    requires tx in s.txs
    ensures s.clock <= now && !FromFuture(now, s.txs[tx].createdAt)
    ensures !Expired(s.clock, s.txs[tx].createdAt) ==> !Expired(now, s.txs[tx].createdAt)
  {
    if s.clock < s.txs[tx].createdAt - CLOCK_SKEW then s.txs[tx].createdAt - CLOCK_SKEW else s.clock
  }

  /** s some time later, with tx exchanged by call c. */
  ghost predicate After(s: State, t: State, c: nat, tx: nat) {
    && tx in s.txs && t.txs == s.txs && s.clock <= t.clock <= Due(s, tx) && t.used == s.used + {tx}
    && c in t.calls && t.calls[c].Exchanged? && t.calls[c].tx == tx && t.calls == s.calls[c := t.calls[c]]
    && (c in s.calls ==> PastGuard(s.calls[c], tx))
  }

  /** From the swap to the exchange. */
  lemma FinishCall(s: State, c: nat, tx: nat) returns (more: seq<Action>)
    requires Inv(s) && tx in s.txs && !FromFuture(s.clock, s.txs[tx].createdAt)
    requires c in s.calls && Holds(s, s.calls[c], tx)
    ensures Legal(s, more) && NoCreate(more)
    ensures After(s, Final(s, more), c, tx)
  {
    assert CallOk(s, c);
    more := [];
    if s.calls[c].Swapped? {
      Then(s, more, CompleteAge(c));
      more := more + [CompleteAge(c)];
    }
    if !s.calls[c].Exchanged? {
      Then(s, more, CompleteExchange(c, true));
      more := more + [CompleteExchange(c, true)];
    }
  }

  lemma StartCall(s: State, tx: nat) returns (c: nat, a: Action)
    requires Inv(s) && tx in s.txs && Open(s, tx)
    ensures Enabled(s, a) && !a.Create? && c !in s.calls
    ensures Do(s, a) == s.(used := s.used + {tx}, calls := s.calls[c := Swapped(tx)])
  {
    c := Unused(s.calls.Keys);
    a := CompleteSwap(c, s.txs[tx].owner.value, true, tx);
  }

  /** Whatever is live can be exchanged. */
  lemma Finish(s: State, tx: nat) returns (more: seq<Action>, c: nat)
    requires Inv(s) && Live(s, tx)
    ensures Legal(s, more) && NoCreate(more)
    ensures After(s, Final(s, more), c, tx)
  {
    One(s, Tick(Due(s, tx)));
    more := [Tick(Due(s, tx))];
    var t := Final(s, more);
    if Open(s, tx) {
      var a;
      c, a := StartCall(t, tx);
      Then(s, more, a);
      more := more + [a];
    } else {
      c :| c in s.calls && Holds(s, s.calls[c], tx);
      assert CallOk(s, c);
    }
    var u := Final(s, more);
    var rest := FinishCall(u, c, tx);
    Joined(s, more, rest);
    assert After(s, Final(u, rest), c, tx);
    more := more + rest;
  }

  /** Exchanging the older transaction does not cost the younger one its chance. */
  lemma StillLive(s: State, t: State, c: nat, tx: nat, other: nat)
    requires Inv(s) && After(s, t, c, tx) && Live(s, other) && other != tx
    requires s.txs[tx].createdAt <= s.txs[other].createdAt
    ensures Live(t, other)
  {
    if !Open(s, other) {
      var d :| d in s.calls && Holds(s, s.calls[d], other);
      assert d in t.calls && Holds(t, t.calls[d], other);
    }
  }

  lemma OlderThenYounger(s: State, t: nat, u: nat) returns (more: seq<Action>, c: nat, d: nat)
    requires Inv(s) && t != u && Live(s, t) && Live(s, u) && s.txs[t].createdAt <= s.txs[u].createdAt
    ensures Legal(s, more) && NoCreate(more) && c != d && Final(s, more).txs == s.txs
    ensures var f := Final(s, more);
            && c in f.calls && f.calls[c].Exchanged? && f.calls[c].tx == t
            && d in f.calls && f.calls[d].Exchanged? && f.calls[d].tx == u
  {
    more, c := Finish(s, t);
    var f := Final(s, more);
    StillLive(s, f, c, t, u);
    var rest;
    rest, d := Finish(f, u);
    Joined(s, more, rest);
    more := more + rest;
  }

  /** Every run in which two transactions with one state string are live can go on to exchange both. */
  lemma SharedStateExchangedTwice(capacity: nat, clock: int, run: seq<Action>, t: nat, u: nat)
    returns (longer: seq<Action>, c: nat, d: nat)
    requires Legal(Start(capacity, clock), run) && t != u
    requires var f := Final(Start(capacity, clock), run); Live(f, t) && Live(f, u) && f.txs[t].state == f.txs[u].state
    ensures Legal(Start(capacity, clock), longer) && run <= longer && c != d
    ensures var f := Final(Start(capacity, clock), run);
            var g := Final(Start(capacity, clock), longer);
            Exchanges(g, c, f.txs[t].state) && Exchanges(g, d, f.txs[t].state)
  {
    var s := Start(capacity, clock);
    var f := Final(s, run);
    var more;
    if f.txs[t].createdAt <= f.txs[u].createdAt {
      more, c, d := OlderThenYounger(f, t, u);
    } else {
      more, c, d := OlderThenYounger(f, u, t);
    }
    Joined(s, run, more);
    longer := run + more;
  }

  /** There are such runs: two transactions opened from one record, as Reopening.OpenedTwice shows they can be. */
  lemma ReopenedStateExchangedTwice(state: Bytes) returns (run: seq<Action>, c: nat, d: nat)
    ensures Legal(Start(1, 0), run) && c != d
    ensures Exchanges(Final(Start(1, 0), run), c, state) && Exchanges(Final(Start(1, 0), run), d, state)
  {
    var fields := Tx(Some(0), state, 0);
    One(Start(1, 0), Create(0, fields));
    Then(Start(1, 0), [Create(0, fields)], Create(1, fields));
    run, c, d := SharedStateExchangedTwice(1, 0, [Create(0, fields)] + [Create(1, fields)], 0, 1);
  }

  /** Exactly when one use per state string is safe from a state on: when at most one transaction with that string is
      live, which is to say unexpired and unpresented with an owner, or held by a call past the swap. */
  lemma OneUsePerStateExactly(s: State, state: Bytes)
    requires Inv(s)
    ensures NeverTwice(s, state) <==> OneLive(s, state)
  {
    if OneLive(s, state) {
      forall more, c, d | Legal(s, more) && NoCreate(more) && Exchanges(Final(s, more), c, state) && Exchanges(Final(s, more), d, state)
        ensures c == d
      {
        ExchangesOfOneLive(s, more, state, c, d);
      }
    } else {
      var t, u :| Live(s, t) && Live(s, u) && s.txs[t].state == state && s.txs[u].state == state && t != u;
      var more, c, d;
      if s.txs[t].createdAt <= s.txs[u].createdAt {
        more, c, d := OlderThenYounger(s, t, u);
      } else {
        more, c, d := OlderThenYounger(s, u, t);
      }
      assert Exchanges(Final(s, more), c, state) && Exchanges(Final(s, more), d, state);
    }
  }
}
