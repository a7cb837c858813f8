/** web/health/health.go: the readiness collector. A check's name stands for the check; a check that panics counts as one
    that returned an error. */
module Readiness {
  import opened Octets
  import opened Sorting

  /** What the select of the collection loop sees next. */
  datatype Event = Result(name: string, err: bool) | Deadline

  /** Every check sends at most one result (CheckGoroutines.ReceivedOnce). */
  ghost predicate OncePerCheck(script: seq<Event>, checks: set<string>) {
    && (forall i :: 0 <= i < |script| && script[i].Result? ==> script[i].name in checks)
    && (forall i, j :: 0 <= i < j < |script| && script[i].Result? && script[j].Result? ==> script[i].name != script[j].name)
  }

  /** The check's nil result is the event at i, before any deadline. */
  ghost predicate NilAt(script: seq<Event>, name: string, i: int) {
    0 <= i < |script| && script[i] == Result(name, false) && forall j :: 0 <= j < i ==> script[j] != Deadline
  }

  ghost predicate ReturnedNil(script: seq<Event>, name: string) {
    exists i :: NilAt(script, name, i)
  }

  lemma StringsOrdered()
    ensures Order(StringLess)
  {
    forall a, b, c
      ensures StringLess(a, b) && StringLess(b, c) ==> StringLess(a, c)
      ensures StringLess(a, b) ==> !StringLess(b, a)
    {
      StringOrder(a, b, c);
    }
  }

  ghost predicate Distinct<T>(s: seq<T>) {
    forall i, j :: 0 <= i < j < |s| ==> s[i] != s[j]
  }

  lemma DistinctComparable(s: seq<string>)
    requires Distinct(s)
    ensures AllComparable(s, StringLess)
  {
    forall i, j | 0 <= i < j < |s|
      ensures StringLess(s[i], s[j]) || StringLess(s[j], s[i])
    {
      StringOrder(s[i], s[j], "");
    }
  }

  /** Part way through: the first k events were results; what they settled is no longer pending. */
  ghost predicate Settled(checks: set<string>, script: seq<Event>, k: nat, pending: set<string>, failed: seq<string>)
    requires k <= |script|
  {
    && (forall i :: 0 <= i < k ==> script[i] != Deadline)
    && pending <= checks
    && (forall name :: name in pending <==> name in checks && forall i :: 0 <= i < k ==> script[i].name != name)
    && (forall name :: name in failed <==> name in checks && exists i :: 0 <= i < k && script[i] == Result(name, true))
    && Distinct(failed)
  }

  lemma SettledStart(checks: set<string>, script: seq<Event>)
    ensures Settled(checks, script, 0, checks, [])
  {
  }

  lemma SettledNext(checks: set<string>, script: seq<Event>, k: nat, pending: set<string>, failed: seq<string>)
    requires OncePerCheck(script, checks) && k < |script| && script[k].Result?
    requires Settled(checks, script, k, pending, failed)
    ensures script[k].name in pending && script[k].name !in failed
    ensures Settled(checks, script, k + 1, pending - {script[k].name},
                    if script[k].err then failed + [script[k].name] else failed)
  {
  }

  /** A check's one result decides whether it returned nil. */
  lemma ResultDecides(checks: set<string>, script: seq<Event>, k: nat, name: string, i: nat)
    requires OncePerCheck(script, checks) && i < k <= |script|
    requires forall j :: 0 <= j < k ==> script[j] != Deadline
    requires script[i].Result? && script[i].name == name
    ensures ReturnedNil(script, name) <==> !script[i].err
  {
    if script[i].err {
      assert forall j :: NilAt(script, name, j) ==> j != i;
    } else {
      assert NilAt(script, name, i);
    }
  }

  /** A check that is neither pending nor failed returned nil, and no other did. */
  lemma SettledNil(checks: set<string>, script: seq<Event>, k: nat, pending: set<string>, failed: seq<string>, name: string)
    requires OncePerCheck(script, checks) && k <= |script| && Settled(checks, script, k, pending, failed)
    requires name in checks && (k == |script| || script[k] == Deadline || pending == {})
    ensures ReturnedNil(script, name) <==> name !in pending && name !in failed
  {
    if name !in pending {
      var i :| 0 <= i < k && script[i].name == name;
      ResultDecides(checks, script, k, name, i);
      assert name in failed <==> script[i] == Result(name, true) by {
        assert forall j :: 0 <= j < k && script[j] == Result(name, true) ==> j == i;
      }
    }
  }

  /** The names still pending, in some order. */
  method Remaining(pending: set<string>, failed: seq<string>) returns (r: seq<string>)
    requires Distinct(failed) && forall name :: name in pending ==> name !in failed
    ensures Distinct(r) && forall name :: name in r <==> name in failed || name in pending
  {
    r := failed;
    var todo := pending;
    while todo != {}
      invariant todo <= pending && Distinct(r)
      invariant forall name :: name in r <==> name in failed || (name in pending && name !in todo)
      decreases todo
    {
      var name :| name in todo;
      r := r + [name];
      todo := todo - {name};
    }
  }

  /** The collection loop of Ready on a snapshot of the checks. Results arrive in the order of the script; when it is
      exhausted the deadline fires. The report names, sorted and once each, exactly the checks that did not return nil in
      time, and the service is up when there are none. */
  method Ready(checks: set<string>, script: seq<Event>) returns (failed: seq<string>, up: bool)
    requires OncePerCheck(script, checks)
    ensures Ascending(failed, StringLess)
    ensures forall name :: name in failed <==> name in checks && !ReturnedNil(script, name)
    ensures up <==> forall name :: name in checks ==> ReturnedNil(script, name)
  {
    var pending := checks;
    var collected: seq<string> := [];
    var k := 0;
    ghost var (open, before) := (pending, collected);
    SettledStart(checks, script);
    while pending != {}
      invariant k <= |script| && Settled(checks, script, k, open, before)
      invariant (pending == open && collected == before) ||
                (pending == {} && (k == |script| || script[k] == Deadline) && Distinct(collected) &&
                 forall name :: name in collected <==> name in before || name in open)
      decreases |pending|
    {
      if k < |script| && script[k].Result? {
        SettledNext(checks, script, k, pending, collected);
        var result := script[k];
        pending := pending - {result.name};
        if result.err {
          collected := collected + [result.name];
        }
        k := k + 1;
        open, before := pending, collected;
      } else {
        forall name | name in pending
          ensures name !in collected
        {
          assert forall i :: 0 <= i < k ==> script[i] != Result(name, true);
        }
        collected := Remaining(pending, collected);
        pending := {};
      }
    }
    StringsOrdered();
    DistinctComparable(collected);
    failed := Sort(collected, StringLess);
    forall name
      ensures name in failed <==> name in checks && !ReturnedNil(script, name)
    {
      assert name in failed <==> name in multiset(failed);
      assert name in collected <==> name in multiset(collected);
      if name in checks {
        SettledNil(checks, script, k, open, before, name);
      }
    }
    up := failed == [];
    if !up {
      assert failed[0] in failed;
    }
  }
}

/** The goroutines behind a readiness report: one per check, each sending one result into a channel with room for all of
    them, while the handler receives and may leave at any time. */
module CheckGoroutines {
  import opened Octets
  import opened Sorting
  import opened Readiness

  datatype State = State(
    checks: set<string>,
    running: set<string>,
    channel: seq<Event>,
    received: seq<Event>,
    handlerGone: bool)

  datatype Action = Send(name: string, err: bool) | Receive | Leave

  /** A send into the buffered channel blocks while it is full. */
  predicate CanSend(s: State) {
    |s.channel| < |s.checks|
  }

  predicate Enabled(s: State, a: Action) {
    match a
    case Send(name, _) => name in s.running && CanSend(s)
    case Receive => !s.handlerGone && s.channel != []
    case Leave => !s.handlerGone
  }

  function Do(s: State, a: Action): State
    requires Enabled(s, a)
  {
    match a
    case Send(name, err) => s.(running := s.running - {name}, channel := s.channel + [Result(name, err)])
    case Receive => s.(channel := s.channel[1..], received := s.received + [s.channel[0]])
    case Leave => s.(handlerGone := true)
  }

  function Start(checks: set<string>): State {
    State(checks, checks, [], [], false)
  }

  /** Every check is running, or its one result was received or is in the channel. */
  ghost predicate Inv(s: State) {
    var results := s.received + s.channel;
    && OncePerCheck(results, s.checks)
    && (forall i :: 0 <= i < |results| ==> results[i].Result? && results[i].name !in s.running)
    && s.running <= s.checks
    && |s.running| + |results| == |s.checks|
  }

  lemma ActionKeeps(s: State, a: Action)
    requires Inv(s) && Enabled(s, a)
    ensures Inv(Do(s, a)) && Do(s, a).checks == s.checks
  {
    var t := Do(s, a);
    match a
    case Send(name, err) =>
      assert t.received + t.channel == (s.received + s.channel) + [Result(name, err)];
    case Receive =>
      assert t.received + t.channel == s.received + s.channel;
    case Leave =>
  }

  ghost predicate Legal(s: State, run: seq<Action>)
    decreases |run|
  {
    run == [] || (Enabled(s, run[0]) && Legal(Do(s, run[0]), run[1..]))
  }

  ghost function Final(s: State, run: seq<Action>): State
    requires Legal(s, run)
    decreases |run|
  {
    if run == [] then s else Final(Do(s, run[0]), run[1..])
  }

  lemma {:induction false} RunKeeps(s: State, run: seq<Action>)
    requires Inv(s) && Legal(s, run)
    ensures Inv(Final(s, run)) && Final(s, run).checks == s.checks
    decreases |run|
  {
    if run != [] {
      ActionKeeps(s, run[0]);
      RunKeeps(Do(s, run[0]), run[1..]);
    }
  }

  /** In every run a check that is still running can send, whether or not anybody receives: no goroutine is left behind. */
  lemma SendNeverBlocks(checks: set<string>, run: seq<Action>, name: string, err: bool)
    requires Legal(Start(checks), run) && name in Final(Start(checks), run).running
    ensures |Final(Start(checks), run).channel| < |checks| && Enabled(Final(Start(checks), run), Send(name, err))
  {
    RunKeeps(Start(checks), run);
    var s := Final(Start(checks), run);
    assert |s.running| == |s.running - {name}| + 1;
  }

  /** In every run the handler receives at most one result per check, as the collection loop expects. */
  lemma ReceivedOnce(checks: set<string>, run: seq<Action>)
    requires Legal(Start(checks), run)
    ensures OncePerCheck(Final(Start(checks), run).received, checks)
  {
    RunKeeps(Start(checks), run);
    var s := Final(Start(checks), run);
    var results := s.received + s.channel;
    assert forall i :: 0 <= i < |s.received| ==> s.received[i] == results[i];
  }

  ghost function Results(s: State): seq<Event> {
    s.received + s.channel
  }

  lemma {:induction false} SentAreThere(s: State, run: seq<Action>, name: string, err: bool)
    requires Legal(s, run)
    ensures Result(name, err) in Results(Final(s, run)) <==> Result(name, err) in Results(s) || Send(name, err) in run
    decreases |run|
  {
    if run != [] {
      var t := Do(s, run[0]);
      SentAreThere(t, run[1..], name, err);
      assert run == [run[0]] + run[1..];
      match run[0]
      case Send(sender, failed) => assert Results(t) == Results(s) + [Result(sender, failed)];
      case _ => assert Results(t) == Results(s);
    }
  }

  /** The check sent nil, and the handler took it out of the channel before it left. */
  ghost predicate NilInTime(checks: set<string>, run: seq<Action>, name: string)
    requires Legal(Start(checks), run)
  {
    Send(name, false) in run && Result(name, false) !in Final(Start(checks), run).channel
  }

  lemma ReceivedNil(checks: set<string>, run: seq<Action>, name: string)
    requires Legal(Start(checks), run)
    ensures ReturnedNil(Final(Start(checks), run).received, name) <==> NilInTime(checks, run, name)
  {
    RunKeeps(Start(checks), run);
    SentAreThere(Start(checks), run, name, false);
    var s := Final(Start(checks), run);
    var (r, result) := (s.received, Result(name, false));
    assert forall i :: 0 <= i < |r| ==> r[i] == Results(s)[i];
    assert result in Results(s) <==> result in r || result in s.channel;
    if result in r {
      var i :| 0 <= i < |r| && r[i] == result;
      assert NilAt(r, name, i);
      forall j | 0 <= j < |s.channel|
        ensures s.channel[j] != result
      {
        assert Results(s)[i] == r[i] && Results(s)[|r| + j] == s.channel[j];
      }
    }
  }

  /** Readiness end to end. For every run of the check goroutines, what Ready makes of the results it received: up exactly
      when every check's nil reached it before it left, and otherwise the sorted names of the checks of which that is
      not so, whether they failed, were late or never finished. */
  method ReadyAfter(checks: set<string>, ghost run: seq<Action>, received: seq<Event>)
    returns (failed: seq<string>, up: bool)
    requires Legal(Start(checks), run) && received == Final(Start(checks), run).received
    ensures Ascending(failed, StringLess)
    ensures forall name :: name in failed <==> name in checks && !NilInTime(checks, run, name)
    ensures up <==> forall name :: name in checks ==> NilInTime(checks, run, name)
  {
    ReceivedOnce(checks, run);
    failed, up := Ready(checks, received);
    forall name
      ensures ReturnedNil(received, name) <==> NilInTime(checks, run, name)
    {
      ReceivedNil(checks, run, name);
    }
  }
}
