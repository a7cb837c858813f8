/** web/metrics/metrics.go: a registry as an index over the log of everything observed. Durations are reals. */
module Histograms {
  const BOUNDS: seq<real> := [0.005, 0.01, 0.025, 0.05, 0.1, 0.25, 0.5, 1.0, 2.5, 5.0, 10.0]

  datatype Observation = Observation(count: nat, sum: real, buckets: seq<nat>)

  /** Go's zero value. */
  function Zero(): Observation {
    Observation(0, 0.0, seq(|BOUNDS|, _ => 0))
  }

  /** One event: under which key, and how long it took. */
  datatype Event<K> = Event(key: K, seconds: real)

  // ---------------------------------------------------------------- what the log says

  function Count<K(==)>(log: seq<Event<K>>, key: K): nat {
    if log == [] then 0
    else Count(log[..|log| - 1], key) + if log[|log| - 1].key == key then 1 else 0
  }

  function Sum<K(==)>(log: seq<Event<K>>, key: K): real {
    if log == [] then 0.0
    else Sum(log[..|log| - 1], key) + if log[|log| - 1].key == key then log[|log| - 1].seconds else 0.0
  }

  /** How many events of the key took at most `bound`. */
  function AtMost<K(==)>(log: seq<Event<K>>, key: K, bound: real): nat {
    if log == [] then 0
    else
      AtMost(log[..|log| - 1], key, bound) +
      if log[|log| - 1].key == key && log[|log| - 1].seconds <= bound then 1 else 0
  }

  function Tally<K(==)>(log: seq<Event<K>>, key: K): Observation {
    Observation(Count(log, key), Sum(log, key), seq(|BOUNDS|, i requires 0 <= i < |BOUNDS| => AtMost(log, key, BOUNDS[i])))
  }

  /** data holds exactly the labels that occur in the log, each with its tally. */
  ghost predicate Indexes<K(!new)>(data: map<K, Observation>, log: seq<Event<K>>) {
    && (forall key :: key in data <==> Count(log, key) > 0)
    && (forall key :: key in data ==> data[key] == Tally(log, key))
  }

  /** Buckets are cumulative, for every log: they never decrease with the bound and never exceed the count. */
  lemma {:induction false} Cumulative<K>(log: seq<Event<K>>, key: K, low: real, high: real)
    requires low <= high
    ensures AtMost(log, key, low) <= AtMost(log, key, high) <= Count(log, key)
  {
    if log != [] {
      Cumulative(log[..|log| - 1], key, low, high);
    }
  }

  /** The positions of the log at which an event of the key took at most `bound`. */
  ghost function Places<K>(log: seq<Event<K>>, key: K, bound: real): set<int> {
    set i | 0 <= i < |log| && log[i].key == key && log[i].seconds <= bound
  }

  ghost function AllPlaces<K>(log: seq<Event<K>>, key: K): set<int> {
    set i | 0 <= i < |log| && log[i].key == key
  }

  /** The counts are numbers of events. */
  lemma {:induction false} CountsEvents<K>(log: seq<Event<K>>, key: K, bound: real)
    ensures Count(log, key) == |AllPlaces(log, key)| && AtMost(log, key, bound) == |Places(log, key, bound)|
  {
    if log != [] {
      CountsEvents(log[..|log| - 1], key, bound);
      PlacesNext(log, key, bound);
      AllPlacesNext(log, key);
    }
  }

  lemma PlacesNext<K>(log: seq<Event<K>>, key: K, bound: real)
    requires log != []
    ensures var (n, before) := (|log| - 1, Places(log[..|log| - 1], key, bound));
            && n !in before
            && Places(log, key, bound) == if log[n].key == key && log[n].seconds <= bound then before + {n} else before
  {
  }

  lemma AllPlacesNext<K>(log: seq<Event<K>>, key: K)
    requires log != []
    ensures var (n, before) := (|log| - 1, AllPlaces(log[..|log| - 1], key));
            n !in before && AllPlaces(log, key) == if log[n].key == key then before + {n} else before
  {
  }

  /** The sum adds up the durations of the key, log by log. */
  lemma {:induction false} SumsDurations<K>(a: seq<Event<K>>, b: seq<Event<K>>, e: Event<K>, key: K)
    ensures Sum(a + b, key) == Sum(a, key) + Sum(b, key)
    ensures Sum([e], key) == if e.key == key then e.seconds else 0.0
    decreases |b|
  {
    assert [e][..0] == [];
    if b == [] {
      assert a + b == a;
    } else {
      SumsDurations(a, b[..|b| - 1], e, key);
      assert (a + b)[..|a + b| - 1] == a + b[..|b| - 1];
    }
  }

  lemma BucketsCumulative<K>(log: seq<Event<K>>, key: K, i: nat, j: nat)
    requires i <= j < |BOUNDS|
    ensures Tally(log, key).buckets[i] <= Tally(log, key).buckets[j] <= Tally(log, key).count
  {
    Cumulative(log, key, BOUNDS[i], BOUNDS[j]);
  }

  // ---------------------------------------------------------------- observing

  /** One more event in an entry. */
  function Added(item: Observation, seconds: real): Observation
    requires |item.buckets| == |BOUNDS|
  {
    Observation(item.count + 1, item.sum + seconds,
                seq(|BOUNDS|, i requires 0 <= i < |BOUNDS| => item.buckets[i] + if seconds <= BOUNDS[i] then 1 else 0))
  }

  /** The update of one entry, bucket by bucket. */
  method Add(item: Observation, seconds: real) returns (r: Observation)
    requires |item.buckets| == |BOUNDS|
    ensures r == Added(item, seconds)
  {
    var buckets := item.buckets;
    for index := 0 to |BOUNDS|
      invariant |buckets| == |BOUNDS|
      invariant forall i :: 0 <= i < index ==> buckets[i] == item.buckets[i] + if seconds <= BOUNDS[i] then 1 else 0
      invariant forall i :: index <= i < |BOUNDS| ==> buckets[i] == item.buckets[i]
    {
      if seconds <= BOUNDS[index] {
        buckets := buckets[index := buckets[index] + 1];
      }
    }
    r := Observation(item.count + 1, item.sum + seconds, buckets);
  }

  lemma {:induction false} NoEvents<K>(log: seq<Event<K>>, key: K)
    requires Count(log, key) == 0
    ensures Tally(log, key) == Zero()
  {
    NothingSummed(log, key);
    forall i | 0 <= i < |BOUNDS|
      ensures AtMost(log, key, BOUNDS[i]) == 0
    {
      Cumulative(log, key, BOUNDS[i], BOUNDS[i]);
    }
  }

  lemma {:induction false} NothingSummed<K>(log: seq<Event<K>>, key: K)
    requires Count(log, key) == 0
    ensures Sum(log, key) == 0.0
  {
    if log != [] {
      NothingSummed(log[..|log| - 1], key);
    }
  }

  /** An event changes the tally of its own key by exactly that event, and no other tally. */
  lemma TallyNext<K>(log: seq<Event<K>>, e: Event<K>, key: K)
    ensures Tally(log + [e], key) == if key == e.key then Added(Tally(log, key), e.seconds) else Tally(log, key)
  {
    assert (log + [e])[..|log|] == log;
    assert Tally(log + [e], key).buckets ==
           if key == e.key then Added(Tally(log, key), e.seconds).buckets else Tally(log, key).buckets;
  }

  /** The entry an event is added to. */
  function Found<K>(data: map<K, Observation>, key: K): Observation {
    if key in data then data[key] else Zero()
  }

  /** Adding the event to its entry is all it takes to follow the log. */
  lemma IndexesNext<K(!new)>(data: map<K, Observation>, log: seq<Event<K>>, e: Event<K>)
    requires Indexes(data, log)
    ensures Found(data, e.key) == Tally(log, e.key)
    ensures Indexes(data[e.key := Added(Tally(log, e.key), e.seconds)], log + [e])
  {
    if e.key !in data {
      NoEvents(log, e.key);
    }
    var r := data[e.key := Added(Tally(log, e.key), e.seconds)];
    forall key
      ensures key in r <==> Count(log + [e], key) > 0
      ensures key in r ==> r[key] == Tally(log + [e], key)
    {
      TallyNext(log, e, key);
      assert Tally(log + [e], key).count == Count(log + [e], key) && Tally(log, key).count == Count(log, key);
    }
  }

  /** registry.observe on one of the maps. */
  method Observe<K(==,!new)>(data: map<K, Observation>, e: Event<K>, ghost log: seq<Event<K>>)
    returns (r: map<K, Observation>)
    requires Indexes(data, log)
    ensures Indexes(r, log + [e])
  {
    IndexesNext(data, log, e);
    var item := if e.key in data then data[e.key] else Zero();
    item := Add(item, e.seconds);
    r := data[e.key := item];
  }
}

/** The lines of a scrape about requests: a counter per label, then per label its histogram. */
module Exposition {
  import opened Octets
  import opened Numerals
  import opened MetricLabels
  import opened Histograms

  /** FormatFloat of each bound. */
  const BOUND_TEXTS: seq<string> := ["0.005", "0.01", "0.025", "0.05", "0.1", "0.25", "0.5", "1", "2.5", "5", "10"]
  const INF := "+Inf"
  const TOTAL := "swf_http_requests_total"
  const BUCKET := "swf_http_request_duration_seconds_bucket"
  const SUM := "swf_http_request_duration_seconds_sum"
  const COUNT := "swf_http_request_duration_seconds_count"

  /** Numbers are kept as numbers; %d and FormatFloat print them. */
  datatype Value = Whole(n: nat) | Seconds(x: real)

  datatype Line = Line(series: string, value: Value)

  /** The lines about one label are numbered: a bucket per bound, +Inf, sum, count, and the counter. */
  const INF_LINE := 11
  const SUM_LINE := 12
  const COUNT_LINE := 13
  const TOTAL_LINE := 14

  function Series(k: Key, line: nat): string {
    if line < |BOUND_TEXTS| then BUCKET + TextWithBucket(k, BOUND_TEXTS[line])
    else if line == INF_LINE then BUCKET + TextWithBucket(k, INF)
    else if line == SUM_LINE then SUM + Text(k)
    else if line == COUNT_LINE then COUNT + Text(k)
    else TOTAL + Text(k)
  }

  function LineOf(k: Key, o: Observation, line: nat): Line
    requires |o.buckets| == |BOUND_TEXTS|
  {
    Line(Series(k, line),
         if line < |BOUND_TEXTS| then Whole(o.buckets[line])
         else if line == SUM_LINE then Seconds(o.sum)
         else Whole(o.count))
  }

  // ---------------------------------------------------------------- no series twice

  lemma TextStarts(k: Key, bucket: string)
    ensures Text(k) != "" && Text(k)[0] == '{'
    ensures TextWithBucket(k, bucket) != "" && TextWithBucket(k, bucket)[0] == '{'
  {
    TextIsOpen(k);
    assert Open(k) != "" && Open(k)[0] == '{';
  }

  lemma NamesApart(a: string, b: string, t: string, u: string)
    requires '{' !in a && '{' !in b && t != "" && u != "" && t[0] == '{' && u[0] == '{'
    requires a + t == b + u
    ensures a == b && t == u
  {
    assert (a + t)[|a|] == '{' && (b + u)[|b|] == '{';
    assert |a| == |b|;
    assert (a + t)[..|a|] == a && (b + u)[..|b|] == b;
    assert (a + t)[|a|..] == t && (b + u)[|b|..] == u;
  }

  lemma SeriesInjective(k: Key, i: nat, l: Key, j: nat)
    requires i <= TOTAL_LINE && j <= TOTAL_LINE
    ensures Series(k, i) == Series(l, j) ==> k == l && i == j
  {
    TextStarts(k, Bucket(i));
    TextStarts(l, Bucket(j));
    if Series(k, i) == Series(l, j) {
      SeriesParts(k, i);
      SeriesParts(l, j);
      NamesApart(Name(i), Name(j), LabelText(k, i), LabelText(l, j));
      DistinctSeries(k, l, Bucket(i), Bucket(j));
      NamesDiffer(i, j);
    }
  }

  lemma SeriesParts(k: Key, line: nat)
    requires line <= TOTAL_LINE
    ensures Series(k, line) == Name(line) + LabelText(k, line)
  {
  }

  function Bucket(line: nat): string {
    if line < |BOUND_TEXTS| then BOUND_TEXTS[line] else INF
  }

  function Name(line: nat): (r: string)
    ensures '{' !in r
  {
    if line <= INF_LINE then BUCKET else if line == SUM_LINE then SUM else if line == COUNT_LINE then COUNT else TOTAL
  }

  function LabelText(k: Key, line: nat): string {
    if line <= INF_LINE then TextWithBucket(k, Bucket(line)) else Text(k)
  }

  lemma NamesDiffer(i: nat, j: nat)
    requires i <= TOTAL_LINE && j <= TOTAL_LINE && Name(i) == Name(j)
    ensures i == j || (i <= INF_LINE && j <= INF_LINE && Bucket(i) != Bucket(j))
  {
  }

  // ---------------------------------------------------------------- the whole report

  const PER_LABEL := TOTAL_LINE

  ghost predicate Sized(items: seq<Observation>) {
    forall i :: 0 <= i < |items| ==> |items[i].buckets| == |BOUND_TEXTS|
  }

  /** Where line i of a report over n labels comes from: first every counter, then label by label the histogram. */
  function Place(n: nat, i: nat): (place: (nat, nat))
    requires i < (1 + PER_LABEL) * n
    ensures place.0 < n && place.1 <= TOTAL_LINE
  {
    if i < n then (i, TOTAL_LINE) else ((i - n) / PER_LABEL, (i - n) % PER_LABEL)
  }

  lemma PlaceInjective(n: nat, i: nat, j: nat)
    requires i < j < (1 + PER_LABEL) * n
    ensures Place(n, i) != Place(n, j)
  {
  }

  lemma PlaceInBlock(n: nat, k: nat, line: nat)
    requires k < n && line < PER_LABEL
    ensures n + PER_LABEL * k + line < (1 + PER_LABEL) * n
    ensures Place(n, n + PER_LABEL * k + line) == (k, line)
  {
  }

  ghost function ReportLine(labels: seq<Key>, items: seq<Observation>, i: nat): Line
    requires |labels| == |items| && Sized(items) && i < (1 + PER_LABEL) * |labels|
  {
    var (k, line) := Place(|labels|, i);
    LineOf(labels[k], items[k], line)
  }

  ghost function Report(labels: seq<Key>, items: seq<Observation>): (r: seq<Line>)
    requires |labels| == |items| && Sized(items)
  {
    seq((1 + PER_LABEL) * |labels|, i requires 0 <= i < (1 + PER_LABEL) * |labels| => ReportLine(labels, items, i))
  }

  /** What the log says about the labels. */
  ghost function Tallies(labels: seq<Key>, log: seq<Event<Key>>): (items: seq<Observation>)
    ensures Sized(items)
  {
    seq(|labels|, i requires 0 <= i < |labels| => Tally(log, labels[i]))
  }

  /** No two lines of a report name the same series. */
  lemma EverySeriesOnce(labels: seq<Key>, items: seq<Observation>, i: nat, j: nat)
    requires |labels| == |items| && Sized(items) && i < j < (1 + PER_LABEL) * |labels|
    requires forall p, q :: 0 <= p < q < |labels| ==> labels[p] != labels[q]
    ensures Report(labels, items)[i].series != Report(labels, items)[j].series
  {
    var (p, a) := Place(|labels|, i);
    var (q, b) := Place(|labels|, j);
    PlaceInjective(|labels|, i, j);
    ReportAt(labels, items, i);
    ReportAt(labels, items, j);
    SeriesInjective(labels[p], a, labels[q], b);
  }

  // ---------------------------------------------------------------- what a report says

  lemma LineInReport(labels: seq<Key>, items: seq<Observation>, k: nat, line: nat)
    requires |labels| == |items| && Sized(items) && k < |labels| && line <= TOTAL_LINE
    ensures LineOf(labels[k], items[k], line) in Report(labels, items)
  {
    var i := if line == TOTAL_LINE then k else |labels| + PER_LABEL * k + line;
    if line < TOTAL_LINE {
      PlacedLine(labels, items, k, line);
    }
    ReportAt(labels, items, i);
  }

  /** For every label: a counter with its events, under each bound the number of events no longer than the bound, under
      +Inf and as the count all of them, and the sum of their durations. With fifteen lines per label and no series
      twice (EverySeriesOnce) that is the whole report. */
  lemma ReportSays(labels: seq<Key>, log: seq<Event<Key>>, key: Key)
    requires key in labels
    ensures var report := Report(labels, Tallies(labels, log));
            && |report| == 15 * |labels|
            && Line("swf_http_requests_total" + Text(key), Whole(Count(log, key))) in report
            && (forall i :: 0 <= i < 11 ==>
                  Line("swf_http_request_duration_seconds_bucket" + TextWithBucket(key, BOUND_TEXTS[i]),
                       Whole(AtMost(log, key, BOUNDS[i]))) in report)
            && Line("swf_http_request_duration_seconds_bucket" + TextWithBucket(key, "+Inf"), Whole(Count(log, key))) in report
            && Line("swf_http_request_duration_seconds_sum" + Text(key), Seconds(Sum(log, key))) in report
            && Line("swf_http_request_duration_seconds_count" + Text(key), Whole(Count(log, key))) in report
  {
    var k :| 0 <= k < |labels| && labels[k] == key;
    var items := Tallies(labels, log);
    assert items[k] == Tally(log, key);
    forall line: nat | line <= TOTAL_LINE
      ensures LineOf(key, items[k], line) in Report(labels, items)
    {
      LineInReport(labels, items, k, line);
    }
    forall i | 0 <= i < 11
      ensures LineOf(key, items[k], i) == Line(BUCKET + TextWithBucket(key, BOUND_TEXTS[i]), Whole(AtMost(log, key, BOUNDS[i])))
    {
    }
    assert LineOf(key, items[k], TOTAL_LINE) == Line(TOTAL + Text(key), Whole(Count(log, key)));
    assert LineOf(key, items[k], INF_LINE) == Line(BUCKET + TextWithBucket(key, INF), Whole(Count(log, key)));
    assert LineOf(key, items[k], SUM_LINE) == Line(SUM + Text(key), Seconds(Sum(log, key)));
    assert LineOf(key, items[k], COUNT_LINE) == Line(COUNT + Text(key), Whole(Count(log, key)));
  }

  function Pow10(n: nat): nat {
    if n == 0 then 1 else 10 * Pow10(n - 1)
  }

  /** t is the numeral of `whole`, or has behind a point k zeros and the numeral of m. */
  ghost predicate Fraction(t: string, x: real, whole: nat, k: nat, m: nat) {
    || (t == Decimal(whole) && x == whole as real)
    || (t == Decimal(whole) + "." + Zeros(k) + Decimal(m) && (x - whole as real) * Pow10(k + |Decimal(m)|) as real == m as real)
  }

  ghost predicate Denotes(t: string, x: real) {
    exists whole, k, m :: Fraction(t, x, whole, k, m)
  }

  /** The printed bounds are the bounds. */
  lemma BoundTextsDenoteBounds(i: nat)
    requires i < 11
    ensures |BOUND_TEXTS| == 11 == |BOUNDS| && Denotes(BOUND_TEXTS[i], BOUNDS[i])
    ensures i > 0 ==> BOUNDS[i - 1] < BOUNDS[i]
  {
    assert Zeros(0) == "" && Zeros(1) == "0" && Zeros(2) == "00";
    assert Decimal(25) == "25" && Decimal(10) == "10";
    assert Pow10(1) == 10 && Pow10(2) == 100 && Pow10(3) == 1000;
    assert Fraction("0.005", 0.005, 0, 2, 5) && Fraction("0.01", 0.01, 0, 1, 1) && Fraction("0.025", 0.025, 0, 1, 25);
    assert Fraction("0.05", 0.05, 0, 1, 5) && Fraction("0.1", 0.1, 0, 0, 1) && Fraction("0.25", 0.25, 0, 0, 25);
    assert Fraction("0.5", 0.5, 0, 0, 5) && Fraction("1", 1.0, 1, 0, 0) && Fraction("2.5", 2.5, 2, 0, 5);
    assert Fraction("5", 5.0, 5, 0, 0) && Fraction("10", 10.0, 10, 0, 0);
  }

  // ---------------------------------------------------------------- the printing loops

  ghost function Histogram(k: Key, o: Observation): seq<Line>
    requires |o.buckets| == |BOUND_TEXTS|
  {
    seq(PER_LABEL, line requires 0 <= line < PER_LABEL => LineOf(k, o, line))
  }

  method PrintHistogram(k: Key, item: Observation) returns (lines: seq<Line>)
    requires |item.buckets| == |BOUND_TEXTS|
    ensures lines == Histogram(k, item)
  {
    ghost var all := Histogram(k, item);
    lines := [];
    for index := 0 to |BOUND_TEXTS|
      invariant lines == all[..index]
    {
      Grow(all, index);
      lines := lines + [Line(BUCKET + TextWithBucket(k, BOUND_TEXTS[index]), Whole(item.buckets[index]))];
    }
    lines := lines + [Line(BUCKET + TextWithBucket(k, INF), Whole(item.count))];
    lines := lines + [Line(SUM + Text(k), Seconds(item.sum))];
    lines := lines + [Line(COUNT + Text(k), Whole(item.count))];
    Grow(all, INF_LINE);
    Grow(all, SUM_LINE);
    Grow(all, COUNT_LINE);
    assert all[..PER_LABEL] == all;
  }

  lemma PlacedLine(labels: seq<Key>, items: seq<Observation>, k: nat, line: nat)
    requires |labels| == |items| && Sized(items) && k < |labels| && line < PER_LABEL
    ensures |labels| + PER_LABEL * k + line < (1 + PER_LABEL) * |labels|
    ensures ReportLine(labels, items, |labels| + PER_LABEL * k + line) == LineOf(labels[k], items[k], line)
  {
    PlaceInBlock(|labels|, k, line);
  }

  lemma ReportAt(labels: seq<Key>, items: seq<Observation>, i: nat)
    requires |labels| == |items| && Sized(items) && i < (1 + PER_LABEL) * |labels|
    ensures Report(labels, items)[i] == ReportLine(labels, items, i)
  {
  }

  lemma HistogramAt(k: Key, o: Observation, line: nat)
    requires |o.buckets| == |BOUND_TEXTS| && line < PER_LABEL
    ensures Histogram(k, o)[line] == LineOf(k, o, line)
  {
  }

  lemma BlockLine(labels: seq<Key>, items: seq<Observation>, k: nat, line: nat)
    requires |labels| == |items| && Sized(items) && k < |labels| && line < PER_LABEL
    ensures |labels| + PER_LABEL * k + line < |Report(labels, items)|
    ensures Report(labels, items)[|labels| + PER_LABEL * k + line] == Histogram(labels[k], items[k])[line]
  {
    PlacedLine(labels, items, k, line);
    ReportAt(labels, items, |labels| + PER_LABEL * k + line);
    HistogramAt(labels[k], items[k], line);
  }

  lemma NextBlock(labels: seq<Key>, items: seq<Observation>, k: nat)
    requires |labels| == |items| && Sized(items) && k < |labels|
    ensures |labels| + PER_LABEL * (k + 1) <= |Report(labels, items)|
    ensures var start := |labels| + PER_LABEL * k;
            Report(labels, items)[..start + PER_LABEL] == Report(labels, items)[..start] + Histogram(labels[k], items[k])
  {
    var (start, report, block) := (|labels| + PER_LABEL * k, Report(labels, items), Histogram(labels[k], items[k]));
    forall line: nat | line < PER_LABEL
      ensures start + line < |report| && report[start + line] == block[line]
    {
      BlockLine(labels, items, k, line);
    }
    GrowBy(report, start, block);
  }

  lemma TotalAt(labels: seq<Key>, items: seq<Observation>, i: nat)
    requires |labels| == |items| && Sized(items) && i < |labels|
    ensures Report(labels, items)[i] == Line(TOTAL + Text(labels[i]), Whole(items[i].count))
  {
    ReportAt(labels, items, i);
  }

  method Print(labels: seq<Key>, snapshot: map<Key, Observation>, ghost items: seq<Observation>) returns (lines: seq<Line>)
    requires |items| == |labels| && Sized(items)
    requires forall i :: 0 <= i < |labels| ==> labels[i] in snapshot && snapshot[labels[i]] == items[i]
    ensures lines == Report(labels, items)
  {
    lines := [];
    for i := 0 to |labels|
      invariant lines == Report(labels, items)[..i]
    {
      Grow(Report(labels, items), i);
      TotalAt(labels, items, i);
      lines := lines + [Line(TOTAL + Text(labels[i]), Whole(snapshot[labels[i]].count))];
    }
    for k := 0 to |labels|
      invariant |labels| + PER_LABEL * k <= |Report(labels, items)|
      invariant lines == Report(labels, items)[..|labels| + PER_LABEL * k]
    {
      var block := PrintHistogram(labels[k], snapshot[labels[k]]);
      NextBlock(labels, items, k);
      lines := lines + block;
    }
    assert Report(labels, items)[..|labels| + PER_LABEL * |labels|] == Report(labels, items);
  }
}

/** The order of the scrape and the registry itself. */
module Registry {
  import opened Octets
  import opened Sorting
  import opened MetricLabels
  import opened Histograms
  import opened Exposition

  // ---------------------------------------------------------------- lexicographic order

  /** The comparison function of the scrape. */
  predicate KeyLess(a: Key, b: Key) {
    if a.verb != b.verb then StringLess(a.verb, b.verb)
    else if a.route != b.route then StringLess(a.route, b.route)
    else a.status < b.status
  }

  lemma KeyOrder(a: Key, b: Key, c: Key)
    ensures KeyLess(a, b) && KeyLess(b, c) ==> KeyLess(a, c)
    ensures !(KeyLess(a, b) && KeyLess(b, a))
    ensures a == b || KeyLess(a, b) || KeyLess(b, a)
    ensures StringLess(a.verb, b.verb) ==> KeyLess(a, b)
    ensures a.verb == b.verb && StringLess(a.route, b.route) ==> KeyLess(a, b)
    ensures a.verb == b.verb && a.route == b.route && a.status < b.status ==> KeyLess(a, b)
  {
    StringOrder(a.verb, b.verb, c.verb);
    StringOrder(a.route, b.route, c.route);
    StringOrder(b.verb, a.verb, c.verb);
    StringOrder(b.route, a.route, c.route);
  }

  lemma KeysOrdered()
    ensures Order(KeyLess)
  {
    forall a, b, c
      ensures KeyLess(a, b) && KeyLess(b, c) ==> KeyLess(a, c)
      ensures KeyLess(a, b) ==> !KeyLess(b, a)
    {
      KeyOrder(a, b, c);
    }
  }

  // ---------------------------------------------------------------- bounded directory labels

  datatype DirectoryKey = DirectoryKey(outcome: string, stage: string)

  const OUTCOMES: set<string> :=
    {"success", "not_found", "ambiguous", "canceled", "timeout", "unavailable", "invalid_input"}
  const STAGES: set<string> := {"validation", "connect", "bind", "search", "result"}

  function BoundedOutcome(outcome: string): (r: string)
    ensures r in OUTCOMES && (outcome in OUTCOMES ==> r == outcome) && (outcome !in OUTCOMES ==> r == "unavailable")
  {
    if outcome in OUTCOMES then outcome else "unavailable"
  }

  function BoundedStage(stage: string): (r: string)
    ensures r in STAGES && (stage in STAGES ==> r == stage) && (stage !in STAGES ==> r == "result")
  {
    if stage in STAGES then stage else "result"
  }

  /** What a directory observation is recorded as: bounded labels, no negative duration. */
  function DirectoryEvent(outcome: string, stage: string, seconds: real): (e: Event<DirectoryKey>)
    ensures e.key.outcome in OUTCOMES && e.key.stage in STAGES && e.seconds >= 0.0
    ensures outcome in OUTCOMES ==> e.key.outcome == outcome
    ensures stage in STAGES ==> e.key.stage == stage
    ensures seconds >= 0.0 ==> e.seconds == seconds
    ensures seconds < 0.0 ==> e.seconds == 0.0
  {
    Event(DirectoryKey(BoundedOutcome(outcome), BoundedStage(stage)), if seconds < 0.0 then 0.0 else seconds)
  }

  ghost predicate Bounded(log: seq<Event<DirectoryKey>>) {
    forall i :: 0 <= i < |log| ==> log[i].key.outcome in OUTCOMES && log[i].key.stage in STAGES && log[i].seconds >= 0.0
  }

  // ---------------------------------------------------------------- the registry

  /** The labels of a scrape, for a log: every label it mentions, once, in strictly ascending order. */
  ghost predicate LabelsOf(labels: seq<Key>, log: seq<Event<Key>>) {
    Ascending(labels, KeyLess) && forall key :: key in labels <==> Count(log, key) > 0
  }

  lemma LabelsDistinct(labels: seq<Key>)
    requires Ascending(labels, KeyLess)
    ensures forall p, q :: 0 <= p < q < |labels| ==> labels[p] != labels[q]
  {
    KeysOrdered();
  }

  class Metrics {
    var data: map<Key, Observation>
    var directory: map<DirectoryKey, Observation>
    ghost var requests: seq<Event<Key>>
    ghost var lookups: seq<Event<DirectoryKey>>

    ghost predicate Valid()
      reads this
    {
      Indexes(data, requests) && Indexes(directory, lookups) && Bounded(lookups)
    }

    constructor ()
      ensures Valid() && requests == [] && lookups == []
    {
      data, directory, requests, lookups := map[], map[], [], [];
    }

    method ObserveRequest(key: Key, seconds: real)
      requires Valid()
      modifies this`data, this`requests
      ensures Valid() && requests == old(requests) + [Event(key, seconds)]
    {
      data := Observe(data, Event(key, seconds), requests);
      requests := requests + [Event(key, seconds)];
    }

    method ObserveLdapLookup(outcome: string, stage: string, seconds: real)
      requires Valid()
      modifies this`directory, this`lookups
      ensures Valid() && lookups == old(lookups) + [DirectoryEvent(outcome, stage, seconds)]
    {
      var e := DirectoryEvent(outcome, stage, seconds);
      directory := Observe(directory, e, lookups);
      lookups := lookups + [e];
    }

    /** The copy made under the mutex, entry by entry. */
    method Snapshot() returns (snapshot: map<Key, Observation>)
      ensures snapshot == data
    {
      snapshot := map[];
      var todo := data.Keys;
      while todo != {}
        invariant todo <= data.Keys && snapshot.Keys == data.Keys - todo
        invariant forall key :: key in snapshot ==> snapshot[key] == data[key]
        decreases todo
      {
        var key :| key in todo;
        snapshot := snapshot[key := data[key]];
        todo := todo - {key};
      }
    }

    /** The request part of a scrape nobody interrupts: the report of the whole log, every series once. */
    method ScrapeRequests() returns (lines: seq<Line>, ghost labels: seq<Key>)
      requires Valid()
      ensures LabelsOf(labels, requests) && lines == Report(labels, Tallies(labels, requests))
      ensures forall i, j :: 0 <= i < j < |lines| ==> lines[i].series != lines[j].series
    {
      var snapshot := Snapshot();
      var sorted := SortedLabels(snapshot);
      labels := sorted;
      ghost var items := Tallies(labels, requests);
      forall i | 0 <= i < |labels|
        ensures labels[i] in snapshot && snapshot[labels[i]] == items[i]
      {
        assert labels[i] in labels;
      }
      lines := Print(sorted, snapshot, items);
      LabelsDistinct(labels);
      forall i, j | 0 <= i < j < |lines|
        ensures lines[i].series != lines[j].series
      {
        EverySeriesOnce(labels, items, i, j);
      }
    }
  }

  /** The labels of a snapshot, sorted. */
  method SortedLabels(snapshot: map<Key, Observation>) returns (labels: seq<Key>)
    ensures Ascending(labels, KeyLess)
    ensures forall key :: key in labels <==> key in snapshot
  {
    var collected: seq<Key> := [];
    var todo := snapshot.Keys;
    KeysOrdered();
    while todo != {}
      invariant todo <= snapshot.Keys
      invariant forall key :: key in collected <==> key in snapshot && key !in todo
      invariant AllComparable(collected, KeyLess)
      decreases todo
    {
      var key :| key in todo;
      forall i | 0 <= i < |collected|
        ensures KeyLess(collected[i], key) || KeyLess(key, collected[i])
      {
        assert collected[i] in collected;
        KeyOrder(collected[i], key, key);
      }
      collected := collected + [key];
      todo := todo - {key};
    }
    labels := Sort(collected, KeyLess);
    forall key
      ensures key in labels <==> key in snapshot
    {
      assert key in labels <==> key in multiset(labels);
      assert key in collected <==> key in multiset(collected);
    }
  }
}
