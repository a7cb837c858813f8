/** web/middleware/concurrency.go: one semaphore shared by every handler wrapped with one limiter, under any number of
    concurrent requests. */
module ConcurrencyLimit {
  import opened Octets

  /** Where a request is. A handler that panics still runs the deferred release. */
  datatype Request = Queued | Inside | Served(panicked: bool) | Refused | Cancelled

  /** `tokens` is the length of the semaphore channel, `queueing` whether the queue timeout is positive. */
  datatype State = State(maximum: nat, queueing: bool, tokens: nat, requests: map<nat, Request>)

  datatype Action =
    | Arrive(request: nat)
    | Acquire(request: nat)
    | Refuse(request: nat)
    | Cancel(request: nat)
    | Release(request: nat, panicked: bool)

  predicate Is(s: State, request: nat, place: Request) {
    request in s.requests && s.requests[request] == place
  }

  /** The select statements: a send into the channel needs room; without a queue timeout the default branch is taken
      exactly when there is none; with one, the timer or the cancelled context may win at any moment. A receive from the
      channel needs a token. */
  predicate Enabled(s: State, a: Action) {
    match a
    case Arrive(r) => r !in s.requests
    case Acquire(r) => Is(s, r, Queued) && s.tokens < s.maximum
    case Refuse(r) => Is(s, r, Queued) && (s.queueing || s.tokens >= s.maximum)
    case Cancel(r) => Is(s, r, Queued) && s.queueing
    case Release(r, _) => Is(s, r, Inside) && s.tokens > 0
  }

  function Do(s: State, a: Action): State
    requires Enabled(s, a)
  {
    match a
    case Arrive(r) => s.(requests := s.requests[r := Queued])
    case Acquire(r) => s.(requests := s.requests[r := Inside], tokens := s.tokens + 1)
    case Refuse(r) => s.(requests := s.requests[r := Refused])
    case Cancel(r) => s.(requests := s.requests[r := Cancelled])
    case Release(r, panicked) => s.(requests := s.requests[r := Served(panicked)], tokens := s.tokens - 1)
  }

  /** The requests inside a handler. */
  function InsideSet(s: State): set<nat> {
    set r | r in s.requests && s.requests[r] == Inside
  }

  /** Conservation: one token per request inside, never more than the maximum. */
  ghost predicate Inv(s: State) {
    s.tokens == |InsideSet(s)| && s.tokens <= s.maximum
  }

  lemma InsideAfter(s: State, r: nat, q: Request)
    ensures InsideSet(s.(requests := s.requests[r := q])) ==
            if q == Inside then InsideSet(s) + {r} else InsideSet(s) - {r}
  {
  }

  lemma ActionKeeps(s: State, a: Action)
    requires Inv(s) && Enabled(s, a)
    ensures Inv(Do(s, a))
  {
    var t := Do(s, a);
    InsideAfter(s, a.request, t.requests[a.request]);
    assert InsideSet(t) == InsideSet(s.(requests := t.requests));
  }

  ghost predicate Legal(s: State, run: seq<Action>)
    decreases |run|
  {
    run == [] || (Enabled(s, run[0]) && Legal(Do(s, run[0]), run[1..]))
  }

  ghost function Final(s: State, run: seq<Action>): State
    requires Legal(s, run)
    decreases |run|
  {
    if run == [] then s else Final(Do(s, run[0]), run[1..])
  }

  /** LimitConcurrency rejects a maximum below one. */
  function Start(maximum: nat, queueing: bool): State
    requires maximum > 0
  {
    State(maximum, queueing, 0, map[])
  }

  lemma {:induction false} RunKeeps(s: State, run: seq<Action>)
    requires Inv(s) && Legal(s, run)
    ensures Inv(Final(s, run)) && Final(s, run).maximum == s.maximum && Final(s, run).queueing == s.queueing
    decreases |run|
  {
    if run != [] {
      ActionKeeps(s, run[0]);
      RunKeeps(Do(s, run[0]), run[1..]);
    }
  }

  /** In every run: tokens held are requests inside, at most `maximum` of them. */
  lemma Conservation(maximum: nat, queueing: bool, run: seq<Action>)
    requires maximum > 0 && Legal(Start(maximum, queueing), run)
    ensures var s := Final(Start(maximum, queueing), run); s.tokens == |InsideSet(s)| <= maximum
  {
    assert InsideSet(Start(maximum, queueing)) == {};
    RunKeeps(Start(maximum, queueing), run);
  }

  /** In every run no deferred release ever blocks, and a waiting request is never stuck: it can go in, or somebody
      inside can leave; without a queue timeout it is answered at once, one way or the other, and with one it can always
      time out or be cancelled. */
  lemma NeverStuck(maximum: nat, queueing: bool, run: seq<Action>, r: nat, panicked: bool)
    requires maximum > 0 && Legal(Start(maximum, queueing), run)
    ensures var s := Final(Start(maximum, queueing), run);
            && (Is(s, r, Inside) ==> Enabled(s, Release(r, panicked)))
            && (Is(s, r, Queued) ==>
                  Enabled(s, Acquire(r)) || exists q :: Enabled(s, Release(q, panicked)))
            && (Is(s, r, Queued) && !queueing ==> (Enabled(s, Acquire(r)) <==> !Enabled(s, Refuse(r))) && !Enabled(s, Cancel(r)))
            && (Is(s, r, Queued) && queueing ==> Enabled(s, Refuse(r)) && Enabled(s, Cancel(r)))
  {
    assert InsideSet(Start(maximum, queueing)) == {};
    RunKeeps(Start(maximum, queueing), run);
    var s := Final(Start(maximum, queueing), run);
    if Is(s, r, Inside) {
      assert r in InsideSet(s);
    }
    if Is(s, r, Queued) && s.tokens == s.maximum {
      var q :| q in InsideSet(s);
      assert Enabled(s, Release(q, panicked));
    }
  }

  predicate Over(q: Request) {
    q.Served? || q.Refused? || q.Cancelled?
  }

  /** A request's fate is sealed once: served, refused or cancelled, it stays so for the rest of every run. */
  lemma {:induction false} FateIsFinal(s: State, run: seq<Action>, r: nat)
    requires Legal(s, run) && r in s.requests && Over(s.requests[r])
    ensures r in Final(s, run).requests && Final(s, run).requests[r] == s.requests[r]
    decreases |run|
  {
    if run != [] {
      FateIsFinal(Do(s, run[0]), run[1..], r);
    }
  }

  lemma {:induction false} ArrivesOnce(s: State, run: seq<Action>, r: nat)
    requires Legal(s, run) && r in s.requests
    ensures r in Final(s, run).requests && Arrive(r) !in run
    ensures s.requests[r] != Queued ==> Final(s, run).requests[r] != Queued && Acquire(r) !in run
    decreases |run|
  {
    if run != [] {
      ArrivesOnce(Do(s, run[0]), run[1..], r);
      assert run == [run[0]] + run[1..];
    }
  }

  ghost predicate Released(run: seq<Action>, r: nat) {
    exists panicked :: Release(r, panicked) in run
  }

  /** How a request has ended after `run`, from where it was before. */
  lemma {:induction false} Endings(s: State, run: seq<Action>, r: nat)
    requires Legal(s, run)
    ensures var t := Final(s, run);
            && (r in t.requests <==> r in s.requests || Arrive(r) in run)
            && (Is(t, r, Refused) <==> Is(s, r, Refused) || Refuse(r) in run)
            && (Is(t, r, Cancelled) <==> Is(s, r, Cancelled) || Cancel(r) in run)
            && (forall panicked :: Is(t, r, Served(panicked)) <==> Is(s, r, Served(panicked)) || Release(r, panicked) in run)
    decreases |run|
  {
    if run != [] {
      assert run == [run[0]] + run[1..];
      Endings(Do(s, run[0]), run[1..], r);
    }
  }

  /** And whether it still waits or is inside. */
  lemma {:induction false} Places(s: State, run: seq<Action>, r: nat)
    requires Legal(s, run)
    ensures var t := Final(s, run);
            && (Is(t, r, Inside) <==> (Is(s, r, Inside) || Acquire(r) in run) && !Released(run, r))
            && (Is(t, r, Queued) <==>
                  (Is(s, r, Queued) || Arrive(r) in run) && Acquire(r) !in run && Refuse(r) !in run && Cancel(r) !in run)
    decreases |run|
  {
    if run != [] {
      var (a, rest) := (run[0], run[1..]);
      assert run == [a] + rest;
      assert Released(run, r) <==> (a.Release? && a.request == r) || Released(rest, r);
      var t := Do(s, a);
      Places(t, rest, r);
      if r in t.requests {
        ArrivesOnce(t, rest, r);
      }
    }
  }

  /** In every run a request is where its own steps have put it: it is known once it has arrived, waits until it is let in,
      refused or cancelled, is inside from then until its release, and ends as served, refused or cancelled. */
  lemma PlaceOfRequest(maximum: nat, queueing: bool, run: seq<Action>, r: nat)
    requires maximum > 0 && Legal(Start(maximum, queueing), run)
    ensures var s := Final(Start(maximum, queueing), run);
            && (r in s.requests <==> Arrive(r) in run)
            && (Is(s, r, Queued) <==>
                  Arrive(r) in run && Acquire(r) !in run && Refuse(r) !in run && Cancel(r) !in run)
            && (Is(s, r, Inside) <==> Acquire(r) in run && !Released(run, r))
            && (forall panicked :: Is(s, r, Served(panicked)) <==> Release(r, panicked) in run)
            && (Is(s, r, Refused) <==> Refuse(r) in run)
            && (Is(s, r, Cancelled) <==> Cancel(r) in run)
  {
    Endings(Start(maximum, queueing), run, r);
    Places(Start(maximum, queueing), run, r);
  }
}
