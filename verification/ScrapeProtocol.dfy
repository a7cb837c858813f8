/** Scrapes under concurrency: any number of observations and scrapes over the registry's one mutex. An observation reads
    its entry and writes it back under the mutex; a scrape copies the entries one by one under it, and sorts and prints
    after releasing it, while observations go on. */
module ScrapeProtocol {
  import opened Octets
  import opened Sorting
  import opened MetricLabels
  import opened Histograms
  import opened Exposition
  import opened Registry

  type Entries = map<Key, Observation>

  /** How far a call has come. `cut` is the length of the log when the scrape took the mutex. */
  datatype Call =
    | Observing(e: Event<Key>, item: Observation) // holds the mutex
    | Observed
    | Copying(cut: nat, copy: Entries, todo: set<Key>) // holds the mutex
    | Printing(cut: nat, copy: Entries, labels: seq<Key>, printed: seq<Line>)

  /** The log is what has been observed so far; the program has only `data`. */
  datatype State = State(data: Entries, log: seq<Event<Key>>, mutex: Option<nat>, calls: map<nat, Call>)

  datatype Action =
    | ObserveRead(call: nat, e: Event<Key>)
    | ObserveWrite(call: nat)
    | ScrapeLock(call: nat)
    | CopyOne(call: nat, key: Key)
    | ScrapeUnlock(call: nat, labels: seq<Key>)
    | PrintOne(call: nat)

  ghost predicate Sorted(labels: seq<Key>, copy: Entries) {
    Ascending(labels, KeyLess) && forall key :: key in labels <==> key in copy
  }

  ghost predicate Enabled(s: State, a: Action) {
    match a
    case ObserveRead(c, _) => s.mutex.None? && c !in s.calls
    case ObserveWrite(c) => c in s.calls && s.calls[c].Observing?
    case ScrapeLock(c) => s.mutex.None? && c !in s.calls
    case CopyOne(c, key) => c in s.calls && s.calls[c].Copying? && key in s.calls[c].todo
    case ScrapeUnlock(c, labels) =>
      c in s.calls && s.calls[c].Copying? && s.calls[c].todo == {} && Sorted(labels, s.calls[c].copy)
    case PrintOne(c) =>
      c in s.calls && s.calls[c].Printing? && |s.calls[c].printed| < (1 + PER_LABEL) * |s.calls[c].labels|
  }

  function Set(s: State, c: nat, call: Call): State {
    s.(calls := s.calls[c := call])
  }

  /** What the scrape looks up in its copy. */
  ghost function Items(labels: seq<Key>, copy: Entries): (items: seq<Observation>)
    requires forall i :: 0 <= i < |labels| ==> labels[i] in copy
  {
    seq(|labels|, i requires 0 <= i < |labels| => copy[labels[i]])
  }

  ghost function Do(s: State, a: Action): State
    requires Inv(s) && Enabled(s, a)
  {
    match a
    case ObserveRead(c, e) => Set(s, c, Observing(e, Found(s.data, e.key))).(mutex := Some(c))
    case ObserveWrite(c) =>
      assert CallOk(s, c);
      var Observing(e, item) := s.calls[c];
      Set(s, c, Observed).(data := s.data[e.key := Added(item, e.seconds)], log := s.log + [e], mutex := None)
    case ScrapeLock(c) => Set(s, c, Copying(|s.log|, map[], s.data.Keys)).(mutex := Some(c))
    case CopyOne(c, key) =>
      assert CallOk(s, c);
      var Copying(cut, copy, todo) := s.calls[c];
      Set(s, c, Copying(cut, copy[key := s.data[key]], todo - {key}))
    case ScrapeUnlock(c, labels) =>
      Set(s, c, Printing(s.calls[c].cut, s.calls[c].copy, labels, [])).(mutex := None)
    case PrintOne(c) =>
      assert CallOk(s, c);
      var Printing(cut, copy, labels, printed) := s.calls[c];
      PrintableItems(s, c);
      Set(s, c, Printing(cut, copy, labels, printed + [ReportLine(labels, Items(labels, copy), |printed|)]))
  }

  // ---------------------------------------------------------------- the invariant

  /** The copy holds what is not still to do. */
  ghost predicate Copied(data: Entries, copy: Entries, todo: set<Key>) {
    todo <= data.Keys && copy.Keys == data.Keys - todo && forall key :: key in copy ==> copy[key] == data[key]
  }

  /** The lines so far are the first lines of the report of this log. */
  ghost predicate Reports(labels: seq<Key>, log: seq<Event<Key>>, printed: seq<Line>) {
    LabelsOf(labels, log) && printed <= Report(labels, Tallies(labels, log))
  }

  ghost predicate CallOk(s: State, c: nat) {
    c in s.calls ==>
      match s.calls[c]
      case Observing(e, item) => s.mutex == Some(c) && item == Tally(s.log, e.key)
      case Observed => true
      case Copying(cut, copy, todo) => s.mutex == Some(c) && cut == |s.log| && Copied(s.data, copy, todo)
      case Printing(cut, copy, labels, printed) =>
        cut <= |s.log| && Indexes(copy, s.log[..cut]) && Reports(labels, s.log[..cut], printed)
  }

  ghost predicate Inv(s: State) {
    Indexes(s.data, s.log) && forall c :: CallOk(s, c)
  }

  lemma PrintableItems(s: State, c: nat)
    requires CallOk(s, c) && c in s.calls && s.calls[c].Printing?
    ensures forall i :: 0 <= i < |s.calls[c].labels| ==> s.calls[c].labels[i] in s.calls[c].copy
    ensures Items(s.calls[c].labels, s.calls[c].copy) == Tallies(s.calls[c].labels, s.log[..s.calls[c].cut])
  {
    var Printing(cut, copy, labels, printed) := s.calls[c];
    forall i | 0 <= i < |labels|
      ensures labels[i] in copy && copy[labels[i]] == Tally(s.log[..cut], labels[i])
    {
      assert labels[i] in labels;
    }
  }

  /** t is s with call c moved on, and the log possibly longer if c held the mutex. */
  ghost predicate OnlyCall(s: State, t: State, c: nat) {
    && (forall d :: d != c ==> (d in t.calls <==> d in s.calls))
    && (forall d :: d in s.calls && d != c ==> t.calls[d] == s.calls[d])
    && s.log <= t.log
    && ((t.mutex == s.mutex && t.data == s.data && t.log == s.log) || s.mutex == None || s.mutex == Some(c))
  }

  lemma MovedCall(s: State, t: State, c: nat)
    requires Inv(s) && OnlyCall(s, t, c) && Indexes(t.data, t.log) && CallOk(t, c)
    ensures Inv(t)
  {
    forall d
      ensures CallOk(t, d)
    {
      assert CallOk(s, d);
      if d != c && d in s.calls && s.calls[d].Printing? {
        assert t.log[..s.calls[d].cut] == s.log[..s.calls[d].cut];
      }
    }
  }

  lemma UnlockKeeps(s: State, c: nat, labels: seq<Key>)
    requires Inv(s) && Enabled(s, ScrapeUnlock(c, labels))
    ensures Inv(Do(s, ScrapeUnlock(c, labels)))
  {
    assert CallOk(s, c);
    assert s.log[..|s.log|] == s.log;
    assert s.calls[c].copy == s.data;
    MovedCall(s, Do(s, ScrapeUnlock(c, labels)), c);
  }

  lemma NextPrinted(labels: seq<Key>, log: seq<Event<Key>>, printed: seq<Line>)
    requires Reports(labels, log, printed) && |printed| < (1 + PER_LABEL) * |labels|
    ensures Reports(labels, log, printed + [ReportLine(labels, Tallies(labels, log), |printed|)])
  {
    var report := Report(labels, Tallies(labels, log));
    Grow(report, |printed|);
    assert printed == report[..|printed|];
    assert report[..|printed| + 1] <= report;
  }

  lemma PrintKeeps(s: State, c: nat)
    requires Inv(s) && Enabled(s, PrintOne(c))
    ensures Inv(Do(s, PrintOne(c)))
  {
    assert CallOk(s, c);
    PrintableItems(s, c);
    var Printing(cut, copy, labels, printed) := s.calls[c];
    NextPrinted(labels, s.log[..cut], printed);
    MovedCall(s, Do(s, PrintOne(c)), c);
  }

  lemma ActionKeeps(s: State, a: Action)
    requires Inv(s) && Enabled(s, a)
    ensures Inv(Do(s, a))
  {
    assert CallOk(s, a.call);
    match a
    case ObserveRead(c, e) =>
      IndexesNext(s.data, s.log, e);
      MovedCall(s, Do(s, a), c);
    case ObserveWrite(c) =>
      IndexesNext(s.data, s.log, s.calls[c].e);
      MovedCall(s, Do(s, a), c);
    case ScrapeUnlock(c, labels) => UnlockKeeps(s, c, labels);
    case PrintOne(c) => PrintKeeps(s, c);
    case _ => MovedCall(s, Do(s, a), a.call);
  }

  // ---------------------------------------------------------------- whole runs

  ghost predicate Legal(s: State, run: seq<Action>)
    requires Inv(s)
    decreases |run|
  {
    run == [] || (Enabled(s, run[0]) && (ActionKeeps(s, run[0]); Legal(Do(s, run[0]), run[1..])))
  }

  ghost function Final(s: State, run: seq<Action>): (t: State)
    requires Inv(s) && Legal(s, run)
    ensures Inv(t)
    decreases |run|
  {
    if run == [] then s else (ActionKeeps(s, run[0]); Final(Do(s, run[0]), run[1..]))
  }

  function Start(): (s: State)
    ensures Inv(s)
  {
    State(map[], [], None, map[])
  }

  predicate Scraping(s: State, c: nat) {
    c in s.calls && (s.calls[c].Copying? || s.calls[c].Printing?)
  }

  /** A scrape's cut is the log at its lock, and the log only grows. */
  lemma {:induction false} LockedAt(s: State, run: seq<Action>, c: nat) returns (k: int)
    requires Inv(s) && Legal(s, run) && Scraping(Final(s, run), c)
    ensures -1 <= k < |run|
    ensures k == -1 ==> Scraping(s, c) && Final(s, run).calls[c].cut == s.calls[c].cut
    ensures k >= 0 ==> run[k] == ScrapeLock(c) && Legal(s, run[..k])
                       && |Final(s, run[..k]).log| == Final(s, run).calls[c].cut
    ensures s.log <= Final(s, run).log
    ensures k >= 0 ==> Final(s, run[..k]).log <= Final(s, run).log
    decreases |run|
  {
    k := -1;
    if run != [] {
      ActionKeeps(s, run[0]);
      var j := LockedAt(Do(s, run[0]), run[1..], c);
      if j >= 0 {
        k := j + 1;
        assert run[..k][1..] == run[1..][..j];
      } else if run[0] == ScrapeLock(c) {
        k := 0;
      }
    }
  }

  /** In every run, at every moment of every scrape past its copying: what it has printed are the first lines of the
      report of one prefix of the log, the one at the moment it took the mutex, however many observations came since;
      and no series appears twice. */
  lemma ScrapesOneMoment(run: seq<Action>, c: nat) returns (k: nat)
    requires Legal(Start(), run)
    requires c in Final(Start(), run).calls && Final(Start(), run).calls[c].Printing?
    ensures k < |run| && run[k] == ScrapeLock(c) && Legal(Start(), run[..k])
    ensures var (before, now) := (Final(Start(), run[..k]), Final(Start(), run));
            var Printing(_, _, labels, printed) := now.calls[c];
            && before.log <= now.log
            && Reports(labels, before.log, printed)
            && (forall i, j :: 0 <= i < j < |printed| ==> printed[i].series != printed[j].series)
  {
    k := LockedAt(Start(), run, c);
    var (before, now) := (Final(Start(), run[..k]), Final(Start(), run));
    assert CallOk(now, c);
    assert now.log[..|before.log|] == before.log;
    var Printing(_, _, labels, printed) := now.calls[c];
    LabelsDistinct(labels);
    forall i, j | 0 <= i < j < |printed|
      ensures printed[i].series != printed[j].series
    {
      EverySeriesOnce(labels, Tallies(labels, before.log), i, j);
    }
  }
}
