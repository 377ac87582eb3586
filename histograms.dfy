/**
 * Run discovery, the per-run histogram and the per-mesh aggregation:
 * `get_completed_runs`, `get_latency_histogram` and `get_latency_histograms`
 * of metrics-merger/merger.py.
 *
 * The methods follow the source's loops. Each is proved equal to a
 * specification function (`HistogramOf`, `Merged`, `Aggregated`), and what
 * the source promises is proved of those functions: every (run, percentile,
 * latency) report ends up under its percentile with the last reported value,
 * nothing else appears, percentiles keep the order in which they were first
 * seen, and each percentile's runs are sorted by latency, stably.
 */
module Histograms {
  import opened Wrappers
  import opened OrderedMaps
  import opened LatencySort
  import opened Queries

  /** One run's histogram: percentile -> latency (an `OrderedDict`). */
  type Histogram = OMap<Percentile, Latency>

  /** One percentile's entry of the aggregate: run -> latency. */
  type RunLatencies = OMap<Run, Latency>

  /** The aggregate of a mesh: percentile -> (run -> latency). */
  type Histograms = OMap<Percentile, RunLatencies>

  /** `get_completed_runs`: the run label of every "done" sample, in result order, repeats kept. */
  method GetCompletedRuns(src: Source, mesh: Mesh) returns (ret: seq<Run>)
    ensures ret == src.runLabels(CompletedRunsQuery(mesh))
  {
    var samples := src.runLabels(CompletedRunsQuery(mesh));
    ret := [];
    for i := 0 to |samples|
      invariant ret == samples[..i]
    {
      ret := ret + [samples[i]];
    }
  }

  // ----- one run's histogram -----

  function Percs(samples: seq<LatencySample>): seq<Percentile> {
    seq(|samples|, i requires 0 <= i < |samples| => samples[i].p)
  }

  /** The latency of the last sample whose percentile is `p`. */
  ghost function LastLatency(samples: seq<LatencySample>, p: Percentile): Option<Latency> {
    if samples == [] then None
    else if samples[|samples| - 1].p == p then Some(samples[|samples| - 1].latency)
    else LastLatency(samples[..|samples| - 1], p)
  }

  /** The dictionary built by `ret[p] = latency` for each sample in order. */
  ghost function HistogramOf(samples: seq<LatencySample>): Histogram {
    if samples == [] then []
    else
      var last := samples[|samples| - 1];
      Put(HistogramOf(samples[..|samples| - 1]), last.p, last.latency)
  }

  /** The histogram the latency query of `run` yields. */
  ghost function RunHistogram(src: Source, run: Run, detailed: bool): Histogram {
    HistogramOf(src.latencySamples(LatencyQuery(run, detailed)))
  }

  /** Each reported percentile once, in first-seen order, holding its last reported latency. */
  lemma {:induction false} HistogramOfSpec(samples: seq<LatencySample>)
    ensures Keys(HistogramOf(samples)) == Dedup(Percs(samples))
    ensures NoDup(Keys(HistogramOf(samples)))
    ensures forall p :: Get(HistogramOf(samples), p) == LastLatency(samples, p)
  {
    if samples != [] {
      var init, last := samples[..|samples| - 1], samples[|samples| - 1];
      HistogramOfSpec(init);
      assert Percs(samples) == Percs(init) + [last.p];
      PutKeys(HistogramOf(init), last.p, last.latency);
      DedupLast(Percs(init), last.p);
      forall p ensures Get(HistogramOf(samples), p) == LastLatency(samples, p) {
        PutGet(HistogramOf(init), last.p, last.latency, p);
      }
    }
    DedupSpec(Percs(samples));
  }

  /** `get_latency_histogram`: the histogram of one run, coarse or detailed. */
  method GetLatencyHistogram(src: Source, run: Run, detailed: bool) returns (ret: Histogram)
    ensures ret == RunHistogram(src, run, detailed)
    ensures var samples := src.latencySamples(LatencyQuery(run, detailed));
      && Keys(ret) == Dedup(Percs(samples))
      && forall p :: Get(ret, p) == LastLatency(samples, p)
  {
    var samples := src.latencySamples(LatencyQuery(run, detailed));
    ret := [];
    for i := 0 to |samples|
      invariant ret == HistogramOf(samples[..i])
    {
      assert samples[..i + 1][..i] == samples[..i];
      ret := Put(ret, samples[i].p, samples[i].latency);
    }
    assert samples[..|samples|] == samples;
    HistogramOfSpec(samples);
  }

  // ----- the reports of all completed runs -----

  /** One (run, percentile, latency) triple reported by a run's histogram. */
  datatype Report = Report(run: Run, perc: Percentile, lat: Latency)

  function ReportsOfRun(run: Run, h: Histogram): seq<Report> {
    seq(|h|, i requires 0 <= i < |h| => Report(run, h[i].key, h[i].value))
  }

  /** Every report of every run in `runs`, in the order the aggregation visits them. */
  ghost function Reports(src: Source, runs: seq<Run>, detailed: bool): seq<Report> {
    if runs == [] then []
    else
      var run := runs[|runs| - 1];
      Reports(src, runs[..|runs| - 1], detailed) + ReportsOfRun(run, RunHistogram(src, run, detailed))
  }

  function PercsOf(rs: seq<Report>): seq<Percentile> {
    seq(|rs|, i requires 0 <= i < |rs| => rs[i].perc)
  }

  /** The runs of the reports for percentile `perc`, in order, repeats kept. */
  ghost function RunsFor(rs: seq<Report>, perc: Percentile): seq<Run> {
    if rs == [] then []
    else RunsFor(rs[..|rs| - 1], perc) + (if rs[|rs| - 1].perc == perc then [rs[|rs| - 1].run] else [])
  }

  /** The latency of the last report for (`perc`, `run`): later reports overwrite earlier ones. */
  ghost function LastReported(rs: seq<Report>, perc: Percentile, run: Run): Option<Latency> {
    if rs == [] then None
    else
      var r := rs[|rs| - 1];
      if r.perc == perc && r.run == run then Some(r.lat) else LastReported(rs[..|rs| - 1], perc, run)
  }

  /** `histograms[perc]`, or nothing. */
  function InnerOf(h: Histograms, perc: Percentile): RunLatencies {
    match Get(h, perc)
    case Some(inner) => inner
    case None => []
  }

  /** `histograms[perc][run]`, if both keys are present. */
  function Lookup(h: Histograms, perc: Percentile, run: Run): Option<Latency> {
    Get(InnerOf(h, perc), run)
  }

  // ----- merging -----

  /**
   * One step of the double loop: `histograms[perc][run] = lat` when
   * `histograms.get(perc, False)` is truthy, else a new one-entry mapping.
   */
  function Add(h: Histograms, r: Report): Histograms {
    var existing := Get(h, r.perc);
    if existing.Some? && existing.value != [] then Put(h, r.perc, Put(existing.value, r.run, r.lat))
    else Put(h, r.perc, [Entry(r.run, r.lat)])
  }

  ghost function Merged(rs: seq<Report>): Histograms {
    if rs == [] then [] else Add(Merged(rs[..|rs| - 1]), rs[|rs| - 1])
  }

  lemma RunsForLast(rs: seq<Report>, r: Report, perc: Percentile)
    ensures RunsFor(rs + [r], perc) == RunsFor(rs, perc) + (if r.perc == perc then [r.run] else [])
  {
    assert (rs + [r])[..|rs|] == rs;
  }

  lemma LastReportedLast(rs: seq<Report>, r: Report, perc: Percentile, run: Run)
    ensures LastReported(rs + [r], perc, run)
      == if r.perc == perc && r.run == run then Some(r.lat) else LastReported(rs, perc, run)
  {
    assert (rs + [r])[..|rs|] == rs;
  }

  /** The inner mapping `Add` stores under `r.perc`, given that no inner mapping is empty. */
  ghost function NewInner(h: Histograms, r: Report): RunLatencies {
    match Get(h, r.perc)
    case Some(inner) => Put(inner, r.run, r.lat)
    case None => [Entry(r.run, r.lat)]
  }

  ghost predicate NoEmptyInner(h: Histograms) {
    forall e :: e in h ==> e.value != []
  }

  /** Without empty inner mappings the truthiness test is a key-presence test. */
  lemma AddIsPut(h: Histograms, r: Report)
    requires NoEmptyInner(h)
    ensures Add(h, r) == Put(h, r.perc, NewInner(h, r))
    ensures NoEmptyInner(Add(h, r))
  {
    GetKeys(h, r.perc);
    assert NewInner(h, r) != [];
    PutEntries(h, r.perc, NewInner(h, r));
  }

  lemma {:induction false} MergedNoEmptyInner(rs: seq<Report>)
    ensures NoEmptyInner(Merged(rs))
  {
    if rs != [] {
      MergedNoEmptyInner(rs[..|rs| - 1]);
      AddIsPut(Merged(rs[..|rs| - 1]), rs[|rs| - 1]);
    }
  }

  /** Merging lists the percentiles in the order they were first reported, each once. */
  lemma {:induction false} MergedKeys(rs: seq<Report>)
    ensures Keys(Merged(rs)) == Dedup(PercsOf(rs))
    ensures NoDup(Keys(Merged(rs)))
  {
    if rs != [] {
      var init, r := rs[..|rs| - 1], rs[|rs| - 1];
      MergedKeys(init);
      MergedNoEmptyInner(init);
      AddIsPut(Merged(init), r);
      assert PercsOf(rs) == PercsOf(init) + [r.perc];
      PutKeys(Merged(init), r.perc, NewInner(Merged(init), r));
      DedupLast(PercsOf(init), r.perc);
    }
    DedupSpec(PercsOf(rs));
  }

  /** Under each percentile, the runs that reported it, in the order they first did, each once. */
  lemma {:induction false} MergedInnerKeys(rs: seq<Report>, perc: Percentile)
    ensures Keys(InnerOf(Merged(rs), perc)) == Dedup(RunsFor(rs, perc))
  {
    if rs != [] {
      var init, r := rs[..|rs| - 1], rs[|rs| - 1];
      var h := Merged(init);
      MergedInnerKeys(init, perc);
      MergedNoEmptyInner(init);
      AddIsPut(h, r);
      PutGet(h, r.perc, NewInner(h, r), perc);
      assert rs == init + [r];
      RunsForLast(init, r, perc);
      if perc == r.perc {
        DedupLast(RunsFor(init, perc), r.run);
        match Get(h, perc)
        case Some(inner) =>
          PutKeys(inner, r.run, r.lat);
        case None =>
          DedupEmpty(RunsFor(init, perc));
          assert Keys([Entry(r.run, r.lat)]) == [r.run];
          assert [] + [r.run] == [r.run];
      } else {
        assert RunsFor(rs, perc) == RunsFor(init, perc);
        assert InnerOf(Merged(rs), perc) == InnerOf(h, perc);
      }
    }
  }

  /** `histograms[perc][run]` is the last latency reported for that pair, and absent if none was. */
  lemma {:induction false} MergedLookup(rs: seq<Report>, perc: Percentile, run: Run)
    ensures Lookup(Merged(rs), perc, run) == LastReported(rs, perc, run)
  {
    if rs != [] {
      var init, r := rs[..|rs| - 1], rs[|rs| - 1];
      var h := Merged(init);
      MergedLookup(init, perc, run);
      MergedNoEmptyInner(init);
      AddIsPut(h, r);
      PutGet(h, r.perc, NewInner(h, r), perc);
      assert rs == init + [r];
      LastReportedLast(init, r, perc, run);
      if perc == r.perc {
        match Get(h, perc)
        case Some(inner) =>
          PutGet(inner, r.run, r.lat, run);
        case None =>
          assert [Entry(r.run, r.lat)][1..] == [];
          assert Get([Entry(r.run, r.lat)], run) == if run == r.run then Some(r.lat) else None;
      }
    }
  }

  /** A reported latency is the latency of some report: merging invents nothing. */
  lemma {:induction false} LastReportedIsReported(rs: seq<Report>, perc: Percentile, run: Run)
    ensures LastReported(rs, perc, run).Some? ==> Report(run, perc, LastReported(rs, perc, run).value) in rs
  {
    if rs != [] {
      LastReportedIsReported(rs[..|rs| - 1], perc, run);
      assert rs == rs[..|rs| - 1] + [rs[|rs| - 1]];
    }
  }

  // ----- sorting each percentile's runs -----

  /** `{k: v for k, v in sorted(inner.items(), key=lambda item: item[1])}` */
  function SortedInner(inner: RunLatencies): RunLatencies {
    FromPairs(SortByLatency(inner))
  }

  /** Each percentile's inner mapping replaced by its latency-sorted copy, in place. */
  function SortEach(h: Histograms): Histograms {
    seq(|h|, i requires 0 <= i < |h| => Entry(h[i].key, SortedInner(h[i].value)))
  }

  ghost function Aggregated(rs: seq<Report>): Histograms {
    SortEach(Merged(rs))
  }

  /** The reports of the completed runs of `mesh`. */
  ghost function MeshReports(src: Source, mesh: Mesh, detailed: bool): seq<Report> {
    Reports(src, src.runLabels(CompletedRunsQuery(mesh)), detailed)
  }

  /** The value `get_latency_histograms` returns for a mesh. */
  ghost function LatencyHistogramsOf(src: Source, mesh: Mesh, detailed: bool): Histograms {
    Aggregated(MeshReports(src, mesh, detailed))
  }

  /** The runs of `runs`, in order, whose last reported latency at `perc` is `v`. */
  ghost function RunsLastAt(rs: seq<Report>, perc: Percentile, runs: seq<Run>, v: Latency): seq<Run> {
    if runs == [] then []
    else (if LastReported(rs, perc, runs[0]) == Some(v) then [runs[0]] else []) + RunsLastAt(rs, perc, runs[1..], v)
  }

  /**
   * What aggregating the reports `rs` promises of its result `h`:
   * the percentiles in first-seen order; `h[perc][run]` defined exactly for
   * the reported pairs, holding the last reported latency; each percentile's
   * runs distinct and sorted by latency; and runs of equal latency in the
   * order in which they first reported that percentile.
   */
  ghost predicate IsAggregationOf(h: Histograms, rs: seq<Report>) {
    && Keys(h) == Dedup(PercsOf(rs))
    && (forall perc, run :: Lookup(h, perc, run) == LastReported(rs, perc, run))
    && (forall perc :: NoDup(Keys(InnerOf(h, perc))))
    && (forall perc :: SortedByLatency(InnerOf(h, perc)))
    && (forall perc, v :: Keys(WithLatency(InnerOf(h, perc), v)) == RunsLastAt(rs, perc, Dedup(RunsFor(rs, perc)), v))
  }

  /** The sorted copy is the stable sort of the items, and answers every lookup alike. */
  lemma SortedInnerSpec(inner: RunLatencies)
    requires NoDup(Keys(inner))
    ensures SortedInner(inner) == SortByLatency(inner)
    ensures IsStableSortOf(SortedInner(inner), inner)
    ensures NoDup(Keys(SortedInner(inner)))
    ensures forall run :: Get(SortedInner(inner), run) == Get(inner, run)
  {
    SortByLatencyKeys(inner);
    FromPairsIdentity(SortByLatency(inner));
    SortByLatencyIsStable(inner);
    forall run ensures Get(SortedInner(inner), run) == Get(inner, run) {
      SortByLatencyGet(inner, run);
    }
  }

  lemma InnerOfSortEach(h: Histograms, perc: Percentile)
    requires NoDup(Keys(h))
    ensures Keys(SortEach(h)) == Keys(h)
    ensures InnerOf(SortEach(h), perc) == SortedInner(InnerOf(h, perc))
  {
    var a := SortEach(h);
    assert Keys(a) == Keys(h);
    GetKeys(h, perc);
    GetKeys(a, perc);
    match Get(h, perc)
    case Some(inner) =>
      var j :| 0 <= j < |h| && h[j] == Entry(perc, inner);
      assert a[j] == Entry(perc, SortedInner(inner));
      GetUnique(a, perc, SortedInner(inner));
    case None =>
      assert SortByLatency<Run>([]) == [];
  }

  /** In an inner mapping holding the last reported latencies, the runs at latency `v` in their order. */
  lemma {:induction false} KeysWithLatency(inner: RunLatencies, rs: seq<Report>, perc: Percentile, v: Latency)
    requires forall i :: 0 <= i < |inner| ==> LastReported(rs, perc, inner[i].key) == Some(inner[i].value)
    ensures Keys(WithLatency(inner, v)) == RunsLastAt(rs, perc, Keys(inner), v)
  {
    if inner != [] {
      var x, t := inner[0], inner[1..];
      assert inner == [x] + t;
      KeysWithLatency(t, rs, perc, v);
      WithLatencyCons(x, t, v);
      KeysCons(x, t);
      var g := if x.value == v then [x] else [];
      assert Keys(g + WithLatency(t, v)) == Keys(g) + Keys(WithLatency(t, v)) by {
        if x.value == v {
          KeysCons(x, WithLatency(t, v));
        } else {
          assert g + WithLatency(t, v) == WithLatency(t, v);
        }
      }
      assert Keys(inner)[0] == x.key && Keys(inner)[1..] == Keys(t);
    }
  }

  /** All of `IsAggregationOf` at one percentile. */
  lemma AggregatedAt(rs: seq<Report>, perc: Percentile)
    ensures NoDup(Keys(InnerOf(Aggregated(rs), perc)))
    ensures SortedByLatency(InnerOf(Aggregated(rs), perc))
    ensures forall run :: Lookup(Aggregated(rs), perc, run) == LastReported(rs, perc, run)
    ensures forall v :: Keys(WithLatency(InnerOf(Aggregated(rs), perc), v)) == RunsLastAt(rs, perc, Dedup(RunsFor(rs, perc)), v)
  {
    var m := Merged(rs);
    var inner := InnerOf(m, perc);
    MergedKeys(rs);
    InnerOfSortEach(m, perc);
    MergedInnerKeys(rs, perc);
    DedupSpec(RunsFor(rs, perc));
    SortedInnerSpec(inner);
    forall run ensures Lookup(Aggregated(rs), perc, run) == LastReported(rs, perc, run) {
      MergedLookup(rs, perc, run);
    }
    forall i | 0 <= i < |inner| ensures LastReported(rs, perc, inner[i].key) == Some(inner[i].value) {
      MergedLookup(rs, perc, inner[i].key);
      GetUnique(inner, inner[i].key, inner[i].value);
    }
    forall v ensures Keys(WithLatency(InnerOf(Aggregated(rs), perc), v)) == RunsLastAt(rs, perc, Dedup(RunsFor(rs, perc)), v) {
      KeysWithLatency(inner, rs, perc, v);
    }
  }

  /** The aggregation does what the source promises: see `IsAggregationOf`. */
  lemma AggregatedSpec(rs: seq<Report>)
    ensures IsAggregationOf(Aggregated(rs), rs)
  {
    MergedKeys(rs);
    InnerOfSortEach(Merged(rs), 0.0);
    forall perc ensures
      && NoDup(Keys(InnerOf(Aggregated(rs), perc)))
      && SortedByLatency(InnerOf(Aggregated(rs), perc))
      && (forall run :: Lookup(Aggregated(rs), perc, run) == LastReported(rs, perc, run))
      && (forall v :: Keys(WithLatency(InnerOf(Aggregated(rs), perc), v)) == RunsLastAt(rs, perc, Dedup(RunsFor(rs, perc)), v))
    {
      AggregatedAt(rs, perc);
    }
  }

  /** Every percentile of the aggregate holds at least one run. */
  lemma AggregatedNoEmptyInner(rs: seq<Report>)
    ensures forall i :: 0 <= i < |Aggregated(rs)| ==> Aggregated(rs)[i].value != []
  {
    var m := Merged(rs);
    MergedKeys(rs);
    MergedNoEmptyInner(rs);
    forall i | 0 <= i < |m| ensures Aggregated(rs)[i].value != [] {
      var perc, inner := m[i].key, m[i].value;
      assert m[i] in m;
      GetUnique(m, perc, inner);
      assert m[i] == Entry(perc, inner);
      assert InnerOf(m, perc) == inner;
      MergedInnerKeys(rs, perc);
      DedupSpec(RunsFor(rs, perc));
      SortedInnerSpec(inner);
      assert inner[0] in multiset(inner);
      assert Aggregated(rs)[i].value == SortedInner(inner);
    }
  }

  /** The inner loop of `get_latency_histograms`: fold one run's histogram into `histograms`. */
  method MergeRunHistogram(histograms: Histograms, run: Run, h: Histogram, ghost before: seq<Report>)
    returns (merged: Histograms)
    requires histograms == Merged(before)
    ensures merged == Merged(before + ReportsOfRun(run, h))
  {
    merged := histograms;
    assert before + ReportsOfRun(run, h[..0]) == before;
    for j := 0 to |h|
      invariant merged == Merged(before + ReportsOfRun(run, h[..j]))
    {
      var perc, lat := h[j].key, h[j].value;
      var existing := Get(merged, perc);
      if existing.Some? && existing.value != [] {
        merged := Put(merged, perc, Put(existing.value, run, lat));
      } else {
        merged := Put(merged, perc, [Entry(run, lat)]);
      }
      ghost var done := before + ReportsOfRun(run, h[..j]);
      assert ReportsOfRun(run, h[..j + 1]) == ReportsOfRun(run, h[..j]) + [Report(run, perc, lat)];
      assert before + ReportsOfRun(run, h[..j + 1]) == done + [Report(run, perc, lat)];
      assert (done + [Report(run, perc, lat)])[..|done|] == done;
    }
    assert h[..|h|] == h;
  }

  /** The second loop of `get_latency_histograms`: `histograms[perc] = <sorted copy>` for each key. */
  method SortRunsByLatency(merged: Histograms) returns (histograms: Histograms)
    requires NoDup(Keys(merged))
    ensures histograms == SortEach(merged)
  {
    histograms := merged;
    for i := 0 to |merged|
      invariant |histograms| == |merged| && Keys(histograms) == Keys(merged)
      invariant forall j :: 0 <= j < i ==> histograms[j] == Entry(merged[j].key, SortedInner(merged[j].value))
      invariant forall j :: i <= j < |merged| ==> histograms[j] == merged[j]
    {
      var perc := Keys(histograms)[i];
      PutAt(histograms, i, SortedInner(histograms[i].value));
      histograms := Put(histograms, perc, SortedInner(histograms[i].value));
      assert Keys(histograms) == Keys(merged);
    }
  }

  /** `get_latency_histograms`: merge every completed run's histogram, then sort each percentile's runs. */
  method GetLatencyHistograms(src: Source, mesh: Mesh, detailed: bool) returns (histograms: Histograms)
    ensures histograms == LatencyHistogramsOf(src, mesh, detailed)
    ensures IsAggregationOf(histograms, MeshReports(src, mesh, detailed))
  {
    var runs := GetCompletedRuns(src, mesh);
    histograms := [];
    for k := 0 to |runs|
      invariant histograms == Merged(Reports(src, runs[..k], detailed))
    {
      var run := runs[k];
      var h := GetLatencyHistogram(src, run, detailed);
      histograms := MergeRunHistogram(histograms, run, h, Reports(src, runs[..k], detailed));
      assert runs[..k + 1][..k] == runs[..k];
    }
    assert runs[..|runs|] == runs;
    MergedKeys(Reports(src, runs, detailed));
    histograms := SortRunsByLatency(histograms);
    AggregatedSpec(Reports(src, runs, detailed));
  }

  // ----- edge cases -----

  lemma ReportsLast(src: Source, runs: seq<Run>, run: Run, detailed: bool)
    ensures Reports(src, runs + [run], detailed) == Reports(src, runs, detailed) + ReportsOfRun(run, RunHistogram(src, run, detailed))
  {
    assert (runs + [run])[..|runs|] == runs;
  }

  lemma {:induction false} ReportsAppend(src: Source, a: seq<Run>, b: seq<Run>, detailed: bool)
    ensures Reports(src, a + b, detailed) == Reports(src, a, detailed) + Reports(src, b, detailed)
  {
    if b != [] {
      var init, run := b[..|b| - 1], b[|b| - 1];
      assert a + b == (a + init) + [run];
      ReportsAppend(src, a, init, detailed);
      ReportsLast(src, a + init, run, detailed);
    } else {
      assert a + b == a;
    }
  }

  /** A completed run whose histogram is empty contributes no report, so no key and no entry. */
  lemma EmptyRunAddsNothing(src: Source, before: seq<Run>, run: Run, after: seq<Run>, detailed: bool)
    requires RunHistogram(src, run, detailed) == []
    ensures Reports(src, before + [run] + after, detailed) == Reports(src, before + after, detailed)
    ensures Aggregated(Reports(src, before + [run] + after, detailed)) == Aggregated(Reports(src, before + after, detailed))
  {
    ReportsAppend(src, before + [run], after, detailed);
    ReportsAppend(src, before, [run], detailed);
    ReportsAppend(src, before, after, detailed);
    assert [run][..0] == [];
    assert Reports(src, [run], detailed) == [];
  }

  /** A percentile that only one run reported gets a one-entry inner mapping. */
  lemma SingleRunPercentile(rs: seq<Report>, perc: Percentile, run: Run)
    requires run in RunsFor(rs, perc)
    requires forall other :: other in RunsFor(rs, perc) ==> other == run
    ensures LastReported(rs, perc, run).Some?
    ensures InnerOf(Aggregated(rs), perc) == [Entry(run, LastReported(rs, perc, run).value)]
  {
    var m := Merged(rs);
    var inner := InnerOf(m, perc);
    MergedKeys(rs);
    MergedInnerKeys(rs, perc);
    DedupSame(RunsFor(rs, perc), run);
    assert Keys(inner) == [run];
    MergedLookup(rs, perc, run);
    assert inner == [inner[0]];
    assert inner[0].key == Keys(inner)[0] == run;
    assert Get(inner, run) == Some(inner[0].value);
    InnerOfSortEach(m, perc);
    assert inner[..0] == [];
    assert SortByLatency(inner) == InsertByLatency([], inner[0]) == inner;
    assert NoDup(Keys(inner));
    FromPairsIdentity(inner);
    assert InnerOf(Aggregated(rs), perc) == SortedInner(inner) == inner;
  }

  /**
   * Every entry of the aggregate is a report of a completed run: the
   * aggregation invents neither runs nor latencies.
   */
  lemma AggregatedInventsNothing(src: Source, runs: seq<Run>, detailed: bool, perc: Percentile, run: Run)
    ensures var rs := Reports(src, runs, detailed);
      Lookup(Aggregated(rs), perc, run).Some? ==>
        Report(run, perc, Lookup(Aggregated(rs), perc, run).value) in rs && run in runs
  {
    var rs := Reports(src, runs, detailed);
    AggregatedSpec(rs);
    LastReportedIsReported(rs, perc, run);
    ReportsFromRuns(src, runs, detailed);
  }

  lemma {:induction false} ReportsFromRuns(src: Source, runs: seq<Run>, detailed: bool)
    ensures forall r :: r in Reports(src, runs, detailed) ==> r.run in runs
  {
    if runs != [] {
      var init := runs[..|runs| - 1];
      ReportsFromRuns(src, init, detailed);
      assert forall x :: x in init ==> x in runs;
      assert runs[|runs| - 1] in runs;
    }
  }
}
