/** auth/oidc/cache.go: the freshness rules and the cache as one goroutine sees it. */
module ConfigurationCache {
  import opened Octets
  import opened LoginClock
  import opened Login

  /** What Current returns: a copy of the configuration with its own deadline. */
  datatype Snapshot<C> = Snapshot(configuration: C, validUntil: int)

  datatype Status = Status(lastSuccessfulRefresh: int, expiresAt: int, isFresh: bool)

  /** The test of Current: fetched no later than now, up to the skew, and less than maxAge ago. */
  predicate Usable(fetchedAt: int, maxAge: int, now: int) {
    !(fetchedAt > now + CLOCK_SKEW) && !(now - fetchedAt >= maxAge)
  }

  /** The window, in nanoseconds: from a minute before the fetch up to but excluding its age limit. */
  lemma UsableWindow(fetchedAt: int, maxAge: int, now: int)
    ensures Usable(fetchedAt, maxAge, now) <==> fetchedAt - 60_000_000_000 <= now < fetchedAt + maxAge
  {
  }

  class Cache<C> {
    const maxAge: int
    var current: Option<C>
    var fetchedAt: int

    constructor (maxAge: int)
      ensures current.None? && this.maxAge == maxAge
    {
      this.maxAge := maxAge;
      current, fetchedAt := None, ZERO_TIME;
    }

    /** The window in which the cache serves its configuration. */
    predicate Serves(now: int)
      reads this
    {
      current.Some? && fetchedAt - CLOCK_SKEW <= now < fetchedAt + maxAge
    }

    /** Refresh, given what Discover returned and the reading of the clock behind it. */
    method Refresh(discovered: Option<C>, now: int) returns (ok: bool)
      modifies this
      ensures ok == discovered.Some?
      ensures ok ==> current == discovered && fetchedAt == now
      ensures !ok ==> current == old(current) && fetchedAt == old(fetchedAt)
    {
      if discovered.None? {
        return false;
      }
      current := discovered;
      fetchedAt := now;
      ok := true;
    }

    /** Current succeeds exactly inside the window, and a client built at once from what it returns may begin a login. */
    method Current(now: int) returns (r: Option<Snapshot<C>>)
      ensures r.Some? <==> current.Some? && fetchedAt - 60_000_000_000 <= now < fetchedAt + maxAge
      ensures r.Some? ==>
                && Some(r.value.configuration) == current
                && now < r.value.validUntil <= now + CLOCK_SKEW + maxAge && MayBegin(r.value.validUntil, now)
      ensures r.Some? ==> r.value.validUntil == fetchedAt + maxAge
      ensures r.Some? ==> forall later :: Serves(later) <==> fetchedAt - CLOCK_SKEW <= later < r.value.validUntil
    {
      if current.None? || fetchedAt > now + CLOCK_SKEW || now - fetchedAt >= maxAge {
        return None;
      }
      r := Some(Snapshot(current.value, fetchedAt + maxAge));
    }

    /** Status reports a fresh cache at exactly the instants at which Current succeeds, and the end of the window. */
    method GetStatus(now: int) returns (s: Status)
      ensures s.isFresh <==> Serves(now)
      ensures current.Some? ==>
                && s.lastSuccessfulRefresh == fetchedAt
                && forall later :: Serves(later) <==> fetchedAt - CLOCK_SKEW <= later < s.expiresAt
      ensures current.Some? ==> s.expiresAt == fetchedAt + maxAge
      ensures current.None? ==> s.lastSuccessfulRefresh == ZERO_TIME && s.expiresAt == ZERO_TIME
    {
      if current.None? {
        return Status(ZERO_TIME, ZERO_TIME, false);
      }
      var expiresAt := fetchedAt + maxAge;
      s := Status(fetchedAt, expiresAt, !(fetchedAt > now + CLOCK_SKEW) && now < expiresAt);
    }
  }
}

/** runRefreshLoop: refresh, report, wait, until the context is cancelled. */
module RefreshDriver {
  import opened Octets
  import opened LoginClock
  import opened ConfigurationCache

  /** One iteration as the environment decides it: whether the context is cancelled before and after, what Discover
      returns, and the clock readings of Refresh and Status. */
  datatype Iteration<C> =
    Iteration(cancelledBefore: bool, discovered: Option<C>, storedAt: int, statusAt: int, cancelledAfter: bool)

  datatype Report = Report(ok: bool, status: Status)

  /** The last successful refresh among `done`, or what was there before. */
  function Latest<C>(current: Option<C>, fetchedAt: int, done: seq<Iteration<C>>): (Option<C>, int) {
    if done == [] then (current, fetchedAt)
    else
      var last := done[|done| - 1];
      if last.discovered.Some? then (last.discovered, last.storedAt)
      else Latest(current, fetchedAt, done[..|done| - 1])
  }

  ghost predicate NoSuccess<C>(done: seq<Iteration<C>>) {
    forall i :: 0 <= i < |done| ==> done[i].discovered.None?
  }

  /** Failures change nothing, whatever came before them; a success replaces everything. */
  lemma {:induction false} LatestIs<C>(current: Option<C>, fetchedAt: int, before: seq<Iteration<C>>, it: Iteration<C>,
                                       failures: seq<Iteration<C>>)
    requires NoSuccess(failures)
    ensures Latest(current, fetchedAt, before + failures) == Latest(current, fetchedAt, before)
    ensures it.discovered.Some? ==> Latest(current, fetchedAt, before + [it] + failures) == (it.discovered, it.storedAt)
    ensures Latest(current, fetchedAt, failures) == (current, fetchedAt)
  {
    if failures == [] {
      assert before + failures == before && before + [it] + failures == before + [it];
    } else {
      var front := failures[..|failures| - 1];
      LatestIs(current, fetchedAt, before, it, front);
      assert (before + failures)[..|before + failures| - 1] == before + front;
      var all := before + [it] + failures;
      assert all[..|all| - 1] == before + [it] + front;
    }
  }

  /** How many iterations refresh before the context is found cancelled. */
  function Completed<C>(script: seq<Iteration<C>>): (n: nat)
    ensures n <= |script|
  {
    if script == [] || script[0].cancelledBefore then 0
    else if script[0].cancelledAfter then 1
    else 1 + Completed(script[1..])
  }

  /** It is the number of iterations before the first cancellation that the loop looks at. */
  lemma {:induction false} CompletedIs<C>(script: seq<Iteration<C>>)
    ensures var n := Completed(script);
            && (forall i :: 0 <= i < n ==> !script[i].cancelledBefore && (i + 1 < n ==> !script[i].cancelledAfter))
            && (n < |script| ==> script[n].cancelledBefore || (n > 0 && script[n - 1].cancelledAfter))
    decreases |script|
  {
    if Completed(script) > 1 || (script != [] && !script[0].cancelledBefore && !script[0].cancelledAfter) {
      CompletedIs(script[1..]);
      assert forall i :: 0 <= i < |script| - 1 ==> script[1..][i] == script[i + 1];
      forall i | 0 <= i < Completed(script)
        ensures !script[i].cancelledBefore && (i + 1 < Completed(script) ==> !script[i].cancelledAfter)
      {
        assert i > 0 ==> script[i] == script[1..][i - 1];
      }
    }
  }

  /** The loop reports once per refresh, in order; a failed refresh leaves the last successful one in force and every
      report says whether that one was still usable. */
  method Run<C>(cache: Cache<C>, script: seq<Iteration<C>>) returns (reports: seq<Report>)
    modifies cache
    ensures |reports| == Completed(script)
    ensures (cache.current, cache.fetchedAt) == Latest(old(cache.current), old(cache.fetchedAt), script[..|reports|])
    ensures forall i :: 0 <= i < |reports| ==>
              var (current, fetchedAt) := Latest(old(cache.current), old(cache.fetchedAt), script[..i + 1]);
              && reports[i].ok == script[i].discovered.Some?
              && (reports[i].status.isFresh <==> current.Some? && Usable(fetchedAt, cache.maxAge, script[i].statusAt))
  {
    reports := [];
    var i := 0;
    while i < |script|
      invariant 0 <= i <= |script| && |reports| == i
      invariant Completed(script) == i + Completed(script[i..])
      invariant (cache.current, cache.fetchedAt) == Latest(old(cache.current), old(cache.fetchedAt), script[..i])
      invariant forall j :: 0 <= j < i ==>
                  var (current, fetchedAt) := Latest(old(cache.current), old(cache.fetchedAt), script[..j + 1]);
                  && reports[j].ok == script[j].discovered.Some?
                  && (reports[j].status.isFresh <==> current.Some? && Usable(fetchedAt, cache.maxAge, script[j].statusAt))
    {
      var it := script[i];
      assert script[i..][0] == it && script[i..][1..] == script[i + 1..];
      if it.cancelledBefore {
        return;
      }
      var ok := cache.Refresh(it.discovered, it.storedAt);
      assert script[..i + 1][..i] == script[..i];
      var status := cache.GetStatus(it.statusAt);
      reports := reports + [Report(ok, status)];
      i := i + 1;
      if it.cancelledAfter {
        return;
      }
    }
  }
}

/** The cache under concurrency: any number of Refresh and Current calls over its two locks, at the grain of single field
    accesses. A publication is a configuration together with the instants its discovery began and was stored. */
module CacheProtocol {
  import opened Octets
  import opened LoginClock
  import opened Login
  import opened ConfigurationCache

  datatype Publication<C> = Publication(configuration: C, begun: int, stored: int)

  datatype Call<C> =
    | Discovering(begun: int) // holds refreshMu
    | Discovered(begun: int, found: C) // waits for mu
    | Writing(begun: int, found: C) // holds mu for writing
    | WroteCurrent(begun: int, found: C) // current is new, fetchedAt still old
    | WroteBoth
    | RefreshDone(ok: bool)
    | Testing(now: int) // holds mu for reading
    | Copying(now: int) // found fresh
    | Stamping(now: int, copy: C) // *cache.current copied, deadline not yet
    | Got(now: int, snapshot: Snapshot<C>)
    | Stale

  datatype State<C> = State(
    maxAge: int,
    clock: int,
    current: Option<C>,
    fetchedAt: int,
    refreshMu: Option<nat>,
    writer: Option<nat>,
    readers: set<nat>,
    calls: map<nat, Call<C>>,
    published: seq<Publication<C>>)

  datatype Action<C> =
    | Tick(now: int)
    | RefreshStart(call: nat)
    | DiscoverFails(call: nat)
    | DiscoverFinds(call: nat, found: C)
    | LockWrite(call: nat)
    | WriteCurrent(call: nat)
    | WriteFetchedAt(call: nat)
    | UnlockWrite(call: nat)
    | LockRead(call: nat)
    | Test(call: nat)
    | CopyCurrent(call: nat)
    | Stamp(call: nat)

  predicate Enabled<C(!new)>(s: State<C>, a: Action<C>) {
    match a
    case Tick(now) => s.clock <= now
    case RefreshStart(c) => c !in s.calls && s.refreshMu.None?
    case DiscoverFails(c) => c in s.calls && s.calls[c].Discovering?
    case DiscoverFinds(c, _) => c in s.calls && s.calls[c].Discovering?
    case LockWrite(c) => c in s.calls && s.calls[c].Discovered? && s.writer.None? && s.readers == {}
    case WriteCurrent(c) => c in s.calls && s.calls[c].Writing?
    case WriteFetchedAt(c) => c in s.calls && s.calls[c].WroteCurrent?
    case UnlockWrite(c) => c in s.calls && s.calls[c].WroteBoth?
    case LockRead(c) => c !in s.calls && s.writer.None?
    case Test(c) => c in s.calls && s.calls[c].Testing?
    case CopyCurrent(c) => c in s.calls && s.calls[c].Copying? && s.current.Some?
    case Stamp(c) => c in s.calls && s.calls[c].Stamping?
  }

  function Set<C>(s: State<C>, c: nat, call: Call<C>): State<C> {
    s.(calls := s.calls[c := call])
  }

  function Do<C(!new)>(s: State<C>, a: Action<C>): State<C>
    requires Enabled(s, a)
  {
    match a
    case Tick(now) => s.(clock := now)
    case RefreshStart(c) => Set(s, c, Discovering(s.clock)).(refreshMu := Some(c))
    case DiscoverFails(c) => Set(s, c, RefreshDone(false)).(refreshMu := None)
    case DiscoverFinds(c, found) => Set(s, c, Discovered(s.calls[c].begun, found))
    case LockWrite(c) => Set(s, c, Writing(s.calls[c].begun, s.calls[c].found)).(writer := Some(c))
    case WriteCurrent(c) =>
      Set(s, c, WroteCurrent(s.calls[c].begun, s.calls[c].found)).(current := Some(s.calls[c].found))
    case WriteFetchedAt(c) =>
      Set(s, c, WroteBoth)
        .(fetchedAt := s.clock, published := s.published + [Publication(s.calls[c].found, s.calls[c].begun, s.clock)])
    case UnlockWrite(c) => Set(s, c, RefreshDone(true)).(writer := None, refreshMu := None)
    case LockRead(c) => Set(s, c, Testing(s.clock)).(readers := s.readers + {c})
    case Test(c) =>
      if s.current.Some? && Usable(s.fetchedAt, s.maxAge, s.calls[c].now) then Set(s, c, Copying(s.calls[c].now))
      else Set(s, c, Stale).(readers := s.readers - {c})
    case CopyCurrent(c) => Set(s, c, Stamping(s.calls[c].now, s.current.value))
    case Stamp(c) =>
      Set(s, c, Got(s.calls[c].now, Snapshot(s.calls[c].copy, s.fetchedAt + s.maxAge))).(readers := s.readers - {c})
  }

  // ---------------------------------------------------------------- the invariant

  function Last<C>(s: State<C>): Publication<C>
    requires s.published != []
  {
    s.published[|s.published| - 1]
  }

  /** The two fields belong together: they are the last publication, or nothing was published. */
  predicate Together<C(==)>(s: State<C>) {
    if s.published == [] then s.current.None?
    else s.current == Some(Last(s).configuration) && s.fetchedAt == Last(s).stored
  }

  predicate Torn<C>(s: State<C>) {
    s.writer.Some? && s.writer.value in s.calls && s.calls[s.writer.value].WroteCurrent?
  }

  /** Each discovery began only after the previous publication was stored, so a slow one never replaces a newer one. */
  ghost predicate InOrder<C>(published: seq<Publication<C>>, floor: int, clock: int) {
    && (forall i :: 0 <= i < |published| ==> floor <= published[i].begun <= published[i].stored <= clock)
    && (forall i, j :: 0 <= i < j < |published| ==> published[i].stored <= published[j].begun)
  }

  /** A discovery under way began after everything published so far. */
  ghost predicate Newest<C>(s: State<C>, begun: int) {
    begun <= s.clock && forall i :: 0 <= i < |s.published| ==> s.published[i].stored <= begun
  }

  /** The snapshot pairs one publication's configuration with that publication's own deadline. */
  ghost predicate Faithful<C>(s: State<C>, snapshot: Snapshot<C>, now: int) {
    exists i :: 0 <= i < |s.published| &&
      s.published[i].configuration == snapshot.configuration &&
      s.published[i].stored + s.maxAge == snapshot.validUntil &&
      Usable(s.published[i].stored, s.maxAge, now)
  }

  ghost predicate CallOk<C>(s: State<C>, floor: int, c: nat) {
    c in s.calls ==>
      match s.calls[c]
      case Discovering(begun) => s.refreshMu == Some(c) && floor <= begun && Newest(s, begun)
      case Discovered(begun, _) => s.refreshMu == Some(c) && floor <= begun && Newest(s, begun)
      case Writing(begun, _) => s.refreshMu == Some(c) && s.writer == Some(c) && floor <= begun && Newest(s, begun)
      case WroteCurrent(begun, found) =>
        && s.refreshMu == Some(c) && s.writer == Some(c) && floor <= begun && Newest(s, begun)
        && s.current == Some(found)
      case WroteBoth => s.refreshMu == Some(c) && s.writer == Some(c)
      case Testing(_) => c in s.readers
      case Copying(now) => c in s.readers && s.published != [] && Usable(Last(s).stored, s.maxAge, now)
      case Stamping(now, copy) =>
        && c in s.readers && s.published != [] && Usable(Last(s).stored, s.maxAge, now)
        && copy == Last(s).configuration
      case Got(now, snapshot) => Faithful(s, snapshot, now)
      case _ => true
  }

  ghost predicate Inv<C(!new)>(s: State<C>, floor: int) {
    && floor <= s.clock
    && (s.writer.Some? ==> s.readers == {})
    && (!Torn(s) ==> Together(s))
    && InOrder(s.published, floor, s.clock)
    && (forall c :: CallOk(s, floor, c))
  }

  // ---------------------------------------------------------------- every action keeps it

  /** t is s with call c moved on. Locks change hands only from and to c; the fields and the publications change only
      under c's own locks. */
  ghost predicate OnlyCall<C>(s: State<C>, t: State<C>, c: nat) {
    && t.maxAge == s.maxAge && t.clock == s.clock
    && (forall d :: d != c ==> (d in t.calls <==> d in s.calls) && (d in t.readers <==> d in s.readers))
    && (forall d :: d in s.calls && d != c ==> t.calls[d] == s.calls[d])
    && (t.refreshMu == s.refreshMu || s.refreshMu == None || s.refreshMu == Some(c))
    && (t.writer == s.writer || s.writer == None || s.writer == Some(c))
    && ((t.current == s.current && t.published == s.published) || (s.writer == Some(c) && s.refreshMu == Some(c)))
    && s.published <= t.published
  }

  /** Snapshots handed out stay faithful: publications are never taken back. */
  lemma FaithfulKept<C>(s: State<C>, t: State<C>, snapshot: Snapshot<C>, now: int)
    requires s.published <= t.published && s.maxAge == t.maxAge && Faithful(s, snapshot, now)
    ensures Faithful(t, snapshot, now)
  {
    assert forall i :: 0 <= i < |s.published| ==> t.published[i] == s.published[i];
  }

  lemma CallKept<C(!new)>(s: State<C>, t: State<C>, floor: int, c: nat, d: nat)
    requires Inv(s, floor) && OnlyCall(s, t, c) && d != c
    ensures CallOk(t, floor, d)
  {
    assert CallOk(s, floor, d);
    if d in s.calls && s.calls[d].Got? {
      FaithfulKept(s, t, s.calls[d].snapshot, s.calls[d].now);
    }
  }

  lemma MovedCall<C(!new)>(s: State<C>, t: State<C>, floor: int, c: nat)
    requires Inv(s, floor) && OnlyCall(s, t, c) && CallOk(t, floor, c)
    requires (t.writer.Some? ==> t.readers == {}) && (!Torn(t) ==> Together(t)) && InOrder(t.published, floor, t.clock)
    ensures Inv(t, floor)
  {
    forall d
      ensures CallOk(t, floor, d)
    {
      if d != c {
        CallKept(s, t, floor, c, d);
      }
    }
  }

  lemma TickKeeps<C(!new)>(s: State<C>, floor: int, now: int)
    requires Inv(s, floor) && s.clock <= now
    ensures Inv(s.(clock := now), floor)
  {
    var t := s.(clock := now);
    forall d
      ensures CallOk(t, floor, d)
    {
      assert CallOk(s, floor, d);
      if d in s.calls && s.calls[d].Got? {
        FaithfulKept(s, t, s.calls[d].snapshot, s.calls[d].now);
      }
    }
  }

  lemma RefreshKeeps<C(!new)>(s: State<C>, floor: int, a: Action<C>)
    requires Inv(s, floor) && Enabled(s, a)
    requires a.RefreshStart? || a.DiscoverFails? || a.DiscoverFinds? || a.LockWrite?
    ensures Inv(Do(s, a), floor)
  {
    assert CallOk(s, floor, a.call);
    MovedCall(s, Do(s, a), floor, a.call);
  }

  lemma WriteKeeps<C(!new)>(s: State<C>, floor: int, a: Action<C>)
    requires Inv(s, floor) && Enabled(s, a)
    requires a.WriteCurrent? || a.WriteFetchedAt? || a.UnlockWrite?
    ensures Inv(Do(s, a), floor)
  {
    assert CallOk(s, floor, a.call);
    MovedCall(s, Do(s, a), floor, a.call);
  }

  lemma ReadKeeps<C(!new)>(s: State<C>, floor: int, a: Action<C>)
    requires Inv(s, floor) && Enabled(s, a)
    requires a.LockRead? || a.Test? || a.CopyCurrent?
    ensures Inv(Do(s, a), floor)
  {
    assert CallOk(s, floor, a.call);
    MovedCall(s, Do(s, a), floor, a.call);
  }

  lemma StampKeeps<C(!new)>(s: State<C>, floor: int, c: nat)
    requires Inv(s, floor) && Enabled(s, Stamp(c))
    ensures Inv(Do(s, Stamp(c)), floor)
  {
    assert CallOk(s, floor, c);
    var t := Do(s, Stamp(c));
    assert t.published[|t.published| - 1] == Last(s);
    MovedCall(s, t, floor, c);
  }

  lemma ActionKeeps<C(!new)>(s: State<C>, floor: int, a: Action<C>)
    requires Inv(s, floor) && Enabled(s, a)
    ensures Inv(Do(s, a), floor)
  {
    if a.Tick? {
      TickKeeps(s, floor, a.now);
    } else if a.Stamp? {
      StampKeeps(s, floor, a.call);
    } else if a.LockRead? || a.Test? || a.CopyCurrent? {
      ReadKeeps(s, floor, a);
    } else if a.WriteCurrent? || a.WriteFetchedAt? || a.UnlockWrite? {
      WriteKeeps(s, floor, a);
    } else {
      RefreshKeeps(s, floor, a);
    }
  }

  // ---------------------------------------------------------------- whole runs

  ghost predicate Legal<C(!new)>(s: State<C>, run: seq<Action<C>>)
    decreases |run|
  {
    run == [] || (Enabled(s, run[0]) && Legal(Do(s, run[0]), run[1..]))
  }

  ghost function Final<C(!new)>(s: State<C>, run: seq<Action<C>>): State<C>
    requires Legal(s, run)
    decreases |run|
  {
    if run == [] then s else Final(Do(s, run[0]), run[1..])
  }

  /** A new cache: nothing fetched, no calls. */
  function Start<C>(maxAge: int, clock: int): State<C> {
    State(maxAge, clock, None, ZERO_TIME, None, None, {}, map[], [])
  }

  lemma {:induction false} RunKeeps<C(!new)>(s: State<C>, floor: int, run: seq<Action<C>>)
    requires Inv(s, floor) && Legal(s, run)
    ensures Inv(Final(s, run), floor) && Final(s, run).maxAge == s.maxAge
    decreases |run|
  {
    if run != [] {
      ActionKeeps(s, floor, run[0]);
      RunKeeps(Do(s, run[0]), floor, run[1..]);
    }
  }

  /** In every run, Current never pairs a configuration with another refresh's deadline: what it returns is one
      publication, usable at the instant of the call. */
  lemma NeverTorn<C(!new)>(maxAge: int, clock: int, run: seq<Action<C>>, c: nat)
    requires Legal(Start(maxAge, clock), run)
    ensures var s := Final(Start(maxAge, clock), run);
            c in s.calls && s.calls[c].Got? ==> Faithful(s, s.calls[c].snapshot, s.calls[c].now)
  {
    RunKeeps(Start<C>(maxAge, clock), clock, run);
    assert CallOk(Final(Start(maxAge, clock), run), clock, c);
  }

  /** In every run, refreshes are serialised: each discovery begins after the previous result was stored. */
  lemma PublishedInOrder<C(!new)>(maxAge: int, clock: int, run: seq<Action<C>>)
    requires Legal(Start(maxAge, clock), run)
    ensures var s := Final(Start(maxAge, clock), run); InOrder(s.published, clock, s.clock)
  {
    RunKeeps(Start<C>(maxAge, clock), clock, run);
  }

  /** A reader that found the cache fresh never dereferences a missing configuration. */
  lemma CopyFindsConfiguration<C(!new)>(maxAge: int, clock: int, run: seq<Action<C>>, c: nat)
    requires Legal(Start(maxAge, clock), run)
    ensures var s := Final(Start(maxAge, clock), run);
            c in s.calls && s.calls[c].Copying? ==> Enabled(s, CopyCurrent(c))
  {
    RunKeeps(Start<C>(maxAge, clock), clock, run);
    assert CallOk(Final(Start(maxAge, clock), run), clock, c);
  }

  /** Every Begin that succeeds on a client built from Current happens strictly before fetchedAt + maxAge of the refresh
      that fetched its configuration, provided the clock never showed a time before the zero one. */
  lemma BeginBeforeDeadline<C(!new)>(maxAge: int, clock: int, run: seq<Action<C>>, c: nat, begin: int)
    requires Legal(Start(maxAge, clock), run) && maxAge > 0 && clock >= ZERO_TIME
    requires var s := Final(Start(maxAge, clock), run);
             c in s.calls && s.calls[c].Got? && MayBegin(s.calls[c].snapshot.validUntil, begin)
    ensures var s := Final(Start(maxAge, clock), run);
            exists i :: 0 <= i < |s.published| &&
              s.published[i].configuration == s.calls[c].snapshot.configuration &&
              begin < s.published[i].stored + maxAge
  {
    NeverTorn(maxAge, clock, run, c);
    RunKeeps(Start<C>(maxAge, clock), clock, run);
    var s := Final(Start(maxAge, clock), run);
    var snapshot := s.calls[c].snapshot;
    var i :| 0 <= i < |s.published| &&
      s.published[i].configuration == snapshot.configuration &&
      s.published[i].stored + s.maxAge == snapshot.validUntil;
    assert begin < s.published[i].stored + maxAge;
  }

  /** Exactly when Begin respects the deadline it was given: a deadline at the zero time reads as none at all. */
  lemma DeadlineRespected(validUntil: int)
    ensures forall begin :: begin < validUntil ==> MayBegin(validUntil, begin)
    ensures (forall begin :: MayBegin(validUntil, begin) ==> begin < validUntil) <==> validUntil != ZERO_TIME
  {
    assert MayBegin(ZERO_TIME, ZERO_TIME);
  }
}

/** The protocol against the cache of one goroutine: without interruption, Current and Refresh are the methods of
    ConfigurationCache.Cache. */
module CacheSteps {
  import opened Octets
  import opened LoginClock
  import opened ConfigurationCache
  import opened CacheProtocol

  lemma Then<C(!new)>(s: State<C>, a: Action<C>, rest: seq<Action<C>>)
    requires Enabled(s, a) && Legal(Do(s, a), rest)
    ensures Legal(s, [a] + rest) && Final(s, [a] + rest) == Final(Do(s, a), rest)
  {
    assert ([a] + rest)[1..] == rest;
  }

  /** Current on its own: inside the window the configuration with the end of the window, otherwise nothing. */
  lemma CurrentUninterrupted<C(!new)>(s: State<C>, c: nat) returns (run: seq<Action<C>>)
    requires c !in s.calls && s.writer.None? && c !in s.readers
    ensures Legal(s, run)
    ensures Final(s, run) ==
            Set(s, c, if s.current.Some? && s.fetchedAt - 60_000_000_000 <= s.clock < s.fetchedAt + s.maxAge
                      then Got(s.clock, Snapshot(s.current.value, s.fetchedAt + s.maxAge)) else Stale)
  {
    UsableWindow(s.fetchedAt, s.maxAge, s.clock);
    var s1 := Do(s, LockRead(c));
    var s2 := Do(s1, Test(c));
    assert s1.readers - {c} == s.readers;
    if s2.calls[c].Copying? {
      var s3 := Do(s2, CopyCurrent(c));
      assert s3.calls[c := Stale].Keys == s.calls[c := Stale].Keys;
      run := [Stamp(c)] + [];
      Then(s3, Stamp(c), []);
      Then(s2, CopyCurrent(c), run);
      run := [CopyCurrent(c)] + run;
    } else {
      run := [];
    }
    Then(s1, Test(c), run);
    run := [Test(c)] + run;
    Then(s, LockRead(c), run);
    run := [LockRead(c)] + run;
  }

  /** Refresh on its own: what discovery found is stored with the time of storing, and a failure changes nothing. */
  lemma RefreshUninterrupted<C(!new)>(s: State<C>, c: nat, found: Option<C>) returns (run: seq<Action<C>>)
    requires c !in s.calls && s.refreshMu.None? && s.writer.None? && s.readers == {}
    ensures Legal(s, run)
    ensures Final(s, run) ==
            match found
            case None => Set(s, c, RefreshDone(false))
            case Some(f) =>
              Set(s, c, RefreshDone(true))
                .(current := Some(f), fetchedAt := s.clock, published := s.published + [Publication(f, s.clock, s.clock)])
  {
    var s1 := Do(s, RefreshStart(c));
    if found.None? {
      Then(s1, DiscoverFails(c), []);
      run := [DiscoverFails(c)] + [];
    } else {
      var s2 := Do(s1, DiscoverFinds(c, found.value));
      run := StoreUninterrupted(s2, c);
      Then(s1, DiscoverFinds(c, found.value), run);
      run := [DiscoverFinds(c, found.value)] + run;
    }
    Then(s, RefreshStart(c), run);
    run := [RefreshStart(c)] + run;
  }

  /** From what discovery found to the release of both locks. */
  lemma StoreUninterrupted<C(!new)>(s: State<C>, c: nat) returns (run: seq<Action<C>>)
    requires c in s.calls && s.calls[c].Discovered? && s.writer.None? && s.readers == {}
    ensures Legal(s, run)
    ensures Final(s, run) ==
            Set(s, c, RefreshDone(true))
              .(current := Some(s.calls[c].found), fetchedAt := s.clock, refreshMu := None,
                published := s.published + [Publication(s.calls[c].found, s.calls[c].begun, s.clock)])
  {
    var s1 := Do(s, LockWrite(c));
    var s2 := Do(s1, WriteCurrent(c));
    var s3 := Do(s2, WriteFetchedAt(c));
    Then(s3, UnlockWrite(c), []);
    run := [UnlockWrite(c)] + [];
    Then(s2, WriteFetchedAt(c), run);
    run := [WriteFetchedAt(c)] + run;
    Then(s1, WriteCurrent(c), run);
    run := [WriteCurrent(c)] + run;
    Then(s, LockWrite(c), run);
    run := [LockWrite(c)] + run;
  }
}

/** The refresh loop of Run. A round is one iteration: it starts, perhaps stores a configuration, and ends when the
    observer has returned. */
module RefreshLoop {
  import opened Octets
  import opened LoginClock
  import opened ConfigurationCache

  datatype Round = Round(start: int, stored: Option<int>, end: int)

  /** The first tick after `instant` of a ticker started at `base`. */
  function NextTick(base: int, interval: int, instant: int): int
    requires interval > 0
  {
    base + ((instant - base) / interval + 1) * interval
  }

  lemma NextTickSoon(base: int, interval: int, instant: int)
    requires interval > 0
    ensures instant < NextTick(base, interval, instant) <= instant + interval
  {
  }

  /** A round takes at most `longest`, and stores within it if at all. */
  predicate RoundOk(r: Round, longest: int) {
    r.start <= r.end <= r.start + longest && (r.stored.Some? ==> r.start <= r.stored.value <= r.end)
  }

  /** The loop waits for a tick behind the one that started the round; if that came while it was busy, it was kept. */
  predicate Follows(r: Round, next: Round, base: int, interval: int)
    requires interval > 0
  {
    next.start == Max(r.end, NextTick(base, interval, r.start))
  }

  ghost predicate Schedule(rounds: seq<Round>, base: int, interval: int, longest: int) {
    && interval > 0
    && (forall k :: 0 <= k < |rounds| ==> RoundOk(rounds[k], longest))
    && (forall k :: 0 <= k < |rounds| - 1 ==> Follows(rounds[k], rounds[k + 1], base, interval))
  }

  /** No two refreshes in a row fail. */
  ghost predicate NoDoubleFailure(rounds: seq<Round>) {
    forall k :: 0 <= k < |rounds| - 1 ==> rounds[k].stored.Some? || rounds[k + 1].stored.Some?
  }

  /** Round k's result is the one in the cache at `now`, and a later round will replace it. */
  ghost predicate InForce(rounds: seq<Round>, k: nat, now: int) {
    && k < |rounds| && rounds[k].stored.Some? && rounds[k].stored.value <= now
    && (forall j :: k < j < |rounds| && rounds[j].stored.Some? ==> now < rounds[j].stored.value)
    && (exists j :: k < j < |rounds| && rounds[j].stored.Some?)
  }

  /** From the first success to the last replacement the cache is fresh at every instant. */
  ghost predicate AlwaysFresh(rounds: seq<Round>, maxAge: int) {
    forall k: nat, now: int :: InForce(rounds, k, now) ==> Usable(rounds[k].stored.value, maxAge, now)
  }

  lemma NextStart(rounds: seq<Round>, base: int, interval: int, longest: int, k: nat)
    requires Schedule(rounds, base, interval, longest) && k + 1 < |rounds|
    ensures rounds[k + 1].start <= rounds[k].start + Max(interval, longest)
  {
  }

  /** With one failure tolerated, a result is replaced at the latest two starts and one refresh after its own start. */
  lemma MarginSuffices(rounds: seq<Round>, base: int, interval: int, longest: int, maxAge: int)
    requires Schedule(rounds, base, interval, longest) && NoDoubleFailure(rounds)
    requires 2 * Max(interval, longest) + longest <= maxAge
    ensures AlwaysFresh(rounds, maxAge)
  {
    forall k: nat, now: int | InForce(rounds, k, now)
      ensures Usable(rounds[k].stored.value, maxAge, now)
    {
      assert RoundOk(rounds[k], longest) && RoundOk(rounds[k + 1], longest);
      NextStart(rounds, base, interval, longest, k);
      if rounds[k + 1].stored.None? {
        assert k + 2 < |rounds|;
        NextStart(rounds, base, interval, longest, k + 1);
        assert RoundOk(rounds[k + 2], longest);
      }
    }
  }

  /** Success at once, then a failure, then a success that takes its full time. */
  function WorstCase(interval: int, longest: int): seq<Round> {
    var gap := Max(interval, longest);
    var (first, second) := if longest > interval then (gap, 2 * gap) else (0, gap);
    [Round(0, Some(0), first), Round(gap, None, second), Round(2 * gap, Some(2 * gap + longest), 2 * gap + longest)]
  }

  lemma WorstCaseIsSchedule(interval: int, longest: int)
    requires interval > 0 && longest >= 0
    ensures Schedule(WorstCase(interval, longest), 0, interval, longest) && NoDoubleFailure(WorstCase(interval, longest))
  {
    var (r, gap) := (WorstCase(interval, longest), Max(interval, longest));
    NextTickSoon(0, interval, gap);
    assert NextTick(0, interval, 0) == interval by {
      assert 0 / interval == 0;
    }
    assert longest <= interval ==> NextTick(0, interval, gap) == 2 * gap by {
      assert interval / interval == 1;
    }
    assert Follows(r[0], r[1], 0, interval) && Follows(r[1], r[2], 0, interval);
  }

  lemma WorstCaseGoesStale(interval: int, longest: int, maxAge: int)
    requires interval > 0 && longest >= 0 && 2 * Max(interval, longest) + longest > maxAge
    ensures !AlwaysFresh(WorstCase(interval, longest), maxAge)
  {
    var r := WorstCase(interval, longest);
    var now := 2 * Max(interval, longest) + longest - 1;
    assert r[2].stored.Some?;
    assert InForce(r, 0, now) && !Usable(r[0].stored.value, maxAge, now);
  }

  /** The margin the loop needs, exactly: every schedule that never fails twice in a row keeps the cache fresh if and
      only if two gaps between starts and one refresh fit into maxAge. Run's own check, interval <= maxAge / 2, covers
      the two ticks and leaves nothing for the refresh. */
  lemma RetryMargin(interval: int, longest: int, maxAge: int)
    requires interval > 0 && longest >= 0
    ensures (forall rounds, base | Schedule(rounds, base, interval, longest) && NoDoubleFailure(rounds) ::
               AlwaysFresh(rounds, maxAge))
            <==> 2 * Max(interval, longest) + longest <= maxAge
  {
    WorstCaseIsSchedule(interval, longest);
    if 2 * Max(interval, longest) + longest <= maxAge {
      forall rounds, base | Schedule(rounds, base, interval, longest) && NoDoubleFailure(rounds)
        ensures AlwaysFresh(rounds, maxAge)
      {
        MarginSuffices(rounds, base, interval, longest, maxAge);
      }
    } else {
      WorstCaseGoesStale(interval, longest, maxAge);
    }
  }
}
