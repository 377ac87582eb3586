/**
 * `get_requested_rps` and `create_summary_gauge` of metrics-merger/merger.py:
 * the aggregate of a mesh becomes one gauge observation per (percentile, run)
 * entry, labelled with the run's requested rate. The rate of each run is
 * queried once and then served from the local dictionary `run_requested_rps`.
 *
 * `ObservationsOf` is the reference: the observations of a pass that queries
 * the rate afresh for every entry and stops at the first missing rate. The
 * method is proved to record exactly those, and memoization therefore changes
 * nothing but the number of queries, which the ghost out-parameter `queried`
 * records.
 */
module Summary {
  import opened Wrappers
  import opened OrderedMaps
  import opened Queries
  import opened Histograms

  /** `get_requested_rps` indexes `[0]` of an empty result: the pass aborts. */
  datatype Error = MissingRate(run: Run)

  /** One `g.labels(p=..., source_run=..., requested_rps=...).set(lat)`. */
  datatype Observation = Observation(p: Percentile, sourceRun: Run, requestedRps: string, value: Latency)

  /** The gauge: its name, help text, label names and the observations recorded on it, in order. */
  datatype Gauge = Gauge(name: string, documentation: string, labelNames: seq<string>, observations: seq<Observation>)

  /** What `create_summary_gauge` returns: `g, percs_count, runs_count`. */
  datatype GaugeSummary = GaugeSummary(gauge: Gauge, percsCount: nat, runsCount: nat)

  /** `get_requested_rps`: the value of the first sample of the rate query. */
  function GetRequestedRps(src: Source, mesh: Mesh, run: Run): Result<string, Error> {
    var values := src.rpsValues(RequestedRpsQuery(mesh, run));
    if values == [] then Err(MissingRate(run)) else Ok(values[0])
  }

  /** The entries of one percentile's inner mapping, in its (latency-sorted) order. */
  function InnerEntries(perc: Percentile, inner: RunLatencies): seq<Report> {
    seq(|inner|, j requires 0 <= j < |inner| => Report(inner[j].key, perc, inner[j].value))
  }

  /** Every (percentile, run, latency) entry of an aggregate in the order the double loop visits it. */
  function Entries(h: Histograms): seq<Report> {
    if h == [] then [] else Entries(h[..|h| - 1]) + InnerEntries(h[|h| - 1].key, h[|h| - 1].value)
  }

  function RunsOf(es: seq<Report>): seq<Run> {
    seq(|es|, k requires 0 <= k < |es| => es[k].run)
  }

  /** Runs under the last percentile, or 0 without percentiles: `runs_count` is reset per percentile. */
  function LastRunsCount(h: Histograms): nat {
    if h == [] then 0 else |h[|h| - 1].value|
  }

  /** The observations of an unmemoized pass over `es`; the first missing rate aborts it. */
  ghost function ObservationsOf(src: Source, mesh: Mesh, es: seq<Report>): Result<seq<Observation>, Error> {
    if es == [] then Ok([])
    else
      match ObservationsOf(src, mesh, es[..|es| - 1])
      case Err(e) => Err(e)
      case Ok(obs) =>
        var r := es[|es| - 1];
        match GetRequestedRps(src, mesh, r.run)
        case Err(e) => Err(e)
        case Ok(rps) => Ok(obs + [Observation(r.perc, r.run, rps, r.lat)])
  }

  // ----- the state of the double loop -----

  /** The entries visited so far: all of the first `i` percentiles and `j` runs of the next. */
  ghost function Done(h: Histograms, i: nat, j: nat): seq<Report>
    requires i < |h| && j <= |h[i].value|
  {
    Entries(h[..i]) + InnerEntries(h[i].key, h[i].value[..j])
  }

  /**
   * The rate cache after visiting `done`: it holds exactly the runs queried so
   * far, each with the rate the backend reports, and the runs were queried
   * once each in the order they were first met.
   */
  ghost predicate CacheOk(src: Source, mesh: Mesh, cache: map<Run, string>, queried: seq<Run>, done: seq<Report>) {
    && queried == Dedup(RunsOf(done))
    && (forall run :: run in cache <==> run in queried)
    && (forall run :: run in cache ==> GetRequestedRps(src, mesh, run) == Ok(cache[run]))
  }

  lemma ObservationsOfLast(src: Source, mesh: Mesh, es: seq<Report>, r: Report)
    ensures ObservationsOf(src, mesh, es + [r]) ==
      match ObservationsOf(src, mesh, es)
      case Err(e) => Err(e)
      case Ok(obs) =>
        match GetRequestedRps(src, mesh, r.run)
        case Err(e) => Err(e)
        case Ok(rps) => Ok(obs + [Observation(r.perc, r.run, rps, r.lat)])
  {
    assert (es + [r])[..|es|] == es;
  }

  lemma RunsOfLast(es: seq<Report>, r: Report)
    ensures RunsOf(es + [r]) == RunsOf(es) + [r.run]
  {
  }

  /** One entry whose run is already cached: the cached rate is the backend's rate. */
  lemma StepCached(src: Source, mesh: Mesh, cache: map<Run, string>, queried: seq<Run>, done: seq<Report>,
                   obs: seq<Observation>, r: Report)
    requires CacheOk(src, mesh, cache, queried, done)
    requires ObservationsOf(src, mesh, done) == Ok(obs)
    requires r.run in cache
    ensures CacheOk(src, mesh, cache, queried, done + [r])
    ensures ObservationsOf(src, mesh, done + [r]) == Ok(obs + [Observation(r.perc, r.run, cache[r.run], r.lat)])
  {
    ObservationsOfLast(src, mesh, done, r);
    RunsOfLast(done, r);
    DedupLast(RunsOf(done), r.run);
  }

  /** One entry whose run is not cached: the rate is queried, and either cached or the pass aborts. */
  lemma StepQueried(src: Source, mesh: Mesh, cache: map<Run, string>, queried: seq<Run>, done: seq<Report>,
                    obs: seq<Observation>, r: Report)
    requires CacheOk(src, mesh, cache, queried, done)
    requires ObservationsOf(src, mesh, done) == Ok(obs)
    requires r.run !in cache
    ensures queried + [r.run] == Dedup(RunsOf(done + [r]))
    ensures var got := GetRequestedRps(src, mesh, r.run);
      && (got.Ok? ==> CacheOk(src, mesh, cache[r.run := got.value], queried + [r.run], done + [r]))
      && (got.Ok? ==> ObservationsOf(src, mesh, done + [r]) == Ok(obs + [Observation(r.perc, r.run, got.value, r.lat)]))
      && (got.Err? ==> ObservationsOf(src, mesh, done + [r]) == Err(got.error))
  {
    ObservationsOfLast(src, mesh, done, r);
    RunsOfLast(done, r);
    DedupLast(RunsOf(done), r.run);
  }

  lemma DoneEnd(h: Histograms, i: nat)
    requires i < |h|
    ensures Done(h, i, |h[i].value|) == Entries(h[..i + 1])
  {
    assert h[i].value[..|h[i].value|] == h[i].value;
    assert h[..i + 1][..i] == h[..i];
  }

  /** The entries visited so far are a prefix of all entries. */
  lemma {:induction false} EntriesPrefix(h: Histograms, i: nat)
    requires i <= |h|
    ensures |Entries(h[..i])| <= |Entries(h)| && Entries(h)[..|Entries(h[..i])|] == Entries(h[..i])
    decreases |h| - i
  {
    if i == |h| {
      assert h[..i] == h;
    } else {
      EntriesPrefix(h, i + 1);
      assert h[..i + 1][..i] == h[..i];
    }
  }

  lemma DonePrefix(h: Histograms, i: nat, j: nat)
    requires i < |h| && j <= |h[i].value|
    ensures |Done(h, i, j)| <= |Entries(h)| && Entries(h)[..|Done(h, i, j)|] == Done(h, i, j)
  {
    EntriesPrefix(h, i + 1);
    DoneEnd(h, i);
    var inner := h[i].value;
    assert InnerEntries(h[i].key, inner)[..j] == InnerEntries(h[i].key, inner[..j]);
  }

  /** Once the pass has aborted, visiting more entries changes nothing. */
  lemma {:induction false} ObservationsOfAborted(src: Source, mesh: Mesh, es: seq<Report>, n: nat)
    requires n <= |es| && ObservationsOf(src, mesh, es[..n]).Err?
    ensures ObservationsOf(src, mesh, es) == ObservationsOf(src, mesh, es[..n])
    decreases |es| - n
  {
    if n < |es| {
      ObservationsOfLast(src, mesh, es[..n], es[n]);
      assert es[..n + 1] == es[..n] + [es[n]];
      ObservationsOfAborted(src, mesh, es, n + 1);
    } else {
      assert es[..n] == es;
    }
  }

  /** The runs of a prefix are runs of the whole. */
  lemma RunsOfPrefix(es: seq<Report>, n: nat)
    requires n <= |es|
    ensures forall run :: run in RunsOf(es[..n]) ==> run in RunsOf(es)
  {
    forall run | run in RunsOf(es[..n]) ensures run in RunsOf(es) {
      var k :| 0 <= k < n && RunsOf(es[..n])[k] == run;
      assert RunsOf(es)[k] == run;
    }
  }

  /** The pass aborts at entry `j` of percentile `i`: what the abort reports about the whole aggregate. */
  lemma Aborted(src: Source, mesh: Mesh, h: Histograms, i: nat, j: nat, queried: seq<Run>, e: Error)
    requires i < |h| && j < |h[i].value|
    requires ObservationsOf(src, mesh, Done(h, i, j + 1)) == Err(e)
    requires queried == Dedup(RunsOf(Done(h, i, j + 1)))
    requires queried != [] && e == MissingRate(queried[|queried| - 1])
    ensures ObservationsOf(src, mesh, Entries(h)) == Err(e)
    ensures NoDup(queried)
    ensures forall run :: run in queried ==> run in RunsOf(Entries(h))
  {
    var done := Done(h, i, j + 1);
    DonePrefix(h, i, j + 1);
    ObservationsOfAborted(src, mesh, Entries(h), |done|);
    RunsOfPrefix(Entries(h), |done|);
    DedupSpec(RunsOf(done));
  }

  /** The pass completes: what the final state reports about the whole aggregate. */
  lemma Completed(src: Source, mesh: Mesh, h: Histograms, cache: map<Run, string>, queried: seq<Run>)
    requires CacheOk(src, mesh, cache, queried, Entries(h[..|h|]))
    ensures queried == Dedup(RunsOf(Entries(h)))
    ensures NoDup(queried)
    ensures forall run :: run in queried ==> run in RunsOf(Entries(h))
  {
    assert h[..|h|] == h;
    DedupSpec(RunsOf(Entries(h)));
  }

  lemma EntriesNext(h: Histograms, i: nat)
    requires i < |h|
    ensures Entries(h[..i + 1]) == Entries(h[..i]) + InnerEntries(h[i].key, h[i].value)
  {
    assert h[..i + 1][..i] == h[..i];
  }

  lemma RunsCountStep(h: Histograms, i: nat)
    requires i < |h|
    ensures LastRunsCount(h[..i + 1]) == |h[i].value|
  {
  }

  lemma InnerEntriesStep(perc: Percentile, inner: RunLatencies, j: nat)
    requires j < |inner|
    ensures InnerEntries(perc, inner[..j + 1]) == InnerEntries(perc, inner[..j]) + [Report(inner[j].key, perc, inner[j].value)]
  {
  }

  /**
   * The inner loop of `create_summary_gauge` over one percentile's runs: one
   * observation per run, querying the rate of a run not yet cached. On a
   * missing rate it stops at entry `stop` with the error.
   */
  method RecordRuns(src: Source, mesh: Mesh, perc: Percentile, latencies: RunLatencies, g0: Gauge,
                    cache0: map<Run, string>, ghost queried0: seq<Run>, ghost done: seq<Report>)
    returns (failed: Option<Error>, g: Gauge, cache: map<Run, string>, runsCount: nat,
             ghost queried: seq<Run>, ghost stop: nat)
    requires CacheOk(src, mesh, cache0, queried0, done)
    requires ObservationsOf(src, mesh, done) == Ok(g0.observations)
    ensures g == g0.(observations := g.observations)
    ensures failed.None? ==>
      && runsCount == |latencies|
      && CacheOk(src, mesh, cache, queried, done + InnerEntries(perc, latencies))
      && ObservationsOf(src, mesh, done + InnerEntries(perc, latencies)) == Ok(g.observations)
    ensures failed.Some? ==>
      && stop < |latencies|
      && ObservationsOf(src, mesh, done + InnerEntries(perc, latencies[..stop + 1])) == Err(failed.value)
      && queried == Dedup(RunsOf(done + InnerEntries(perc, latencies[..stop + 1])))
      && queried != [] && failed.value == MissingRate(queried[|queried| - 1])
  {
    g, cache, runsCount, queried, stop := g0, cache0, 0, queried0, 0;
    assert latencies[..0] == [];
    assert done + InnerEntries(perc, latencies[..0]) == done;
    for j := 0 to |latencies|
      invariant runsCount == j
      invariant g == g0.(observations := g.observations)
      invariant CacheOk(src, mesh, cache, queried, done + InnerEntries(perc, latencies[..j]))
      invariant ObservationsOf(src, mesh, done + InnerEntries(perc, latencies[..j])) == Ok(g.observations)
    {
      var run, lat := latencies[j].key, latencies[j].value;
      ghost var visited := done + InnerEntries(perc, latencies[..j]);
      InnerEntriesStep(perc, latencies, j);
      assert done + InnerEntries(perc, latencies[..j + 1]) == visited + [Report(run, perc, lat)];
      var rps: string;
      if run in cache {
        StepCached(src, mesh, cache, queried, visited, g.observations, Report(run, perc, lat));
        rps := cache[run];
      } else {
        StepQueried(src, mesh, cache, queried, visited, g.observations, Report(run, perc, lat));
        var got := GetRequestedRps(src, mesh, run);
        queried := queried + [run];
        if got.Err? {
          assert queried[|queried| - 1] == run && got.error == MissingRate(run);
          failed, stop := Some(got.error), j;
          return;
        }
        rps := got.value;
        cache := cache[run := rps];
      }
      runsCount := runsCount + 1;
      g := g.(observations := g.observations + [Observation(perc, run, rps, lat)]);
    }
    assert latencies[..|latencies|] == latencies;
    failed := None;
  }

  /** The observations of the unmemoized pass over the aggregate of `mesh`. */
  ghost function PassOf(src: Source, mesh: Mesh, detailed: bool): Result<seq<Observation>, Error> {
    ObservationsOf(src, mesh, Entries(LatencyHistogramsOf(src, mesh, detailed)))
  }

  /** `create_summary_gauge`: build the aggregate, then record one observation per entry. */
  method CreateSummaryGauge(src: Source, mesh: Mesh, detailed: bool)
    returns (result: Result<GaugeSummary, Error>, ghost queried: seq<Run>)
    ensures result.Ok? <==> PassOf(src, mesh, detailed).Ok?
    ensures result.Ok? ==> result.value == GaugeSummary(
      Gauge(SummaryMetricName(detailed), SummaryDocumentation(mesh), SummaryLabelNames, PassOf(src, mesh, detailed).value),
      |LatencyHistogramsOf(src, mesh, detailed)|, LastRunsCount(LatencyHistogramsOf(src, mesh, detailed)))
    ensures result.Err? ==> result.error == PassOf(src, mesh, detailed).error
    ensures result.Err? ==> queried != [] && result.error == MissingRate(queried[|queried| - 1])
    ensures NoDup(queried)
    ensures forall run :: run in queried ==> run in RunsOf(Entries(LatencyHistogramsOf(src, mesh, detailed)))
    ensures result.Ok? ==> queried == Dedup(RunsOf(Entries(LatencyHistogramsOf(src, mesh, detailed))))
  {
    var histograms := GetLatencyHistograms(src, mesh, detailed);
    var g := Gauge(SummaryMetricName(detailed), SummaryDocumentation(mesh), SummaryLabelNames, []);
    var percsCount, runsCount := 0, 0;
    var runRequestedRps: map<Run, string> := map[];
    queried := [];
    assert histograms[..0] == [];

    for i := 0 to |histograms|
      invariant percsCount == i && runsCount == LastRunsCount(histograms[..i])
      invariant g == Gauge(SummaryMetricName(detailed), SummaryDocumentation(mesh), SummaryLabelNames, g.observations)
      invariant CacheOk(src, mesh, runRequestedRps, queried, Entries(histograms[..i]))
      invariant ObservationsOf(src, mesh, Entries(histograms[..i])) == Ok(g.observations)
    {
      var perc, latencies := histograms[i].key, histograms[i].value;
      percsCount := percsCount + 1;
      var failed: Option<Error>;
      ghost var stop: nat;
      failed, g, runRequestedRps, runsCount, queried, stop :=
        RecordRuns(src, mesh, perc, latencies, g, runRequestedRps, queried, Entries(histograms[..i]));
      if failed.Some? {
        Aborted(src, mesh, histograms, i, stop, queried, failed.value);
        result := Err(failed.value);
        return;
      }
      EntriesNext(histograms, i);
      RunsCountStep(histograms, i);
    }
    Completed(src, mesh, histograms, runRequestedRps, queried);
    assert histograms[..|histograms|] == histograms;
    result := Ok(GaugeSummary(g, percsCount, runsCount));
  }

  // ----- what the recorded observations are -----

  /** Entry `k` is the first whose run has no requested rate. */
  ghost predicate FirstMissingAt(src: Source, mesh: Mesh, es: seq<Report>, k: nat)
    requires k < |es|
  {
    && GetRequestedRps(src, mesh, es[k].run).Err?
    && forall j :: 0 <= j < k ==> GetRequestedRps(src, mesh, es[j].run).Ok?
  }

  /**
   * The reference pass, described entry by entry: it succeeds exactly when
   * every run has a requested rate, observation `k` then carries entry `k` and
   * its run's rate, and otherwise the error names the first run without one.
   */
  lemma {:induction false} ObservationsOfSpec(src: Source, mesh: Mesh, es: seq<Report>)
    ensures var res := ObservationsOf(src, mesh, es);
      && (res.Ok? <==> forall k :: 0 <= k < |es| ==> GetRequestedRps(src, mesh, es[k].run).Ok?)
      && (res.Ok? ==> |res.value| == |es|)
      && (res.Ok? ==> forall k :: 0 <= k < |es| ==>
            res.value[k] == Observation(es[k].perc, es[k].run, GetRequestedRps(src, mesh, es[k].run).value, es[k].lat))
      && (res.Err? ==> exists k :: 0 <= k < |es| && FirstMissingAt(src, mesh, es, k) && res.error == MissingRate(es[k].run))
  {
    if es != [] {
      var n := |es| - 1;
      var init := es[..n];
      ObservationsOfSpec(src, mesh, init);
      assert forall k :: 0 <= k < n ==> init[k] == es[k];
      var res := ObservationsOf(src, mesh, init);
      if res.Err? {
        var k :| 0 <= k < n && FirstMissingAt(src, mesh, init, k) && res.error == MissingRate(init[k].run);
        assert FirstMissingAt(src, mesh, es, k);
      } else if GetRequestedRps(src, mesh, es[n].run).Err? {
        assert FirstMissingAt(src, mesh, es, n);
      }
    }
  }

  /**
   * `get_requested_rps` indexes `[0]` of the rate query's answer, so the pass
   * over the aggregate fails exactly when some visited run's answer is empty,
   * and then it names the first such run.
   */
  lemma {:induction false} MissingRateAborts(src: Source, mesh: Mesh, detailed: bool)
    ensures var es := Entries(LatencyHistogramsOf(src, mesh, detailed));
      PassOf(src, mesh, detailed).Err? <==> exists k :: 0 <= k < |es| && src.rpsValues(RequestedRpsQuery(mesh, es[k].run)) == []
    ensures var es := Entries(LatencyHistogramsOf(src, mesh, detailed));
      PassOf(src, mesh, detailed).Err? ==>
        exists k :: 0 <= k < |es|
          && src.rpsValues(RequestedRpsQuery(mesh, es[k].run)) == []
          && (forall j :: 0 <= j < k ==> src.rpsValues(RequestedRpsQuery(mesh, es[j].run)) != [])
          && PassOf(src, mesh, detailed).error == MissingRate(es[k].run)
  {
    ObservationsOfSpec(src, mesh, Entries(LatencyHistogramsOf(src, mesh, detailed)));
  }

  /** An aggregate whose percentiles, and the runs under each, are distinct keys. */
  ghost predicate WellKeyed(h: Histograms) {
    && NoDup(Keys(h))
    && forall i :: 0 <= i < |h| ==> NoDup(Keys(h[i].value))
  }

  lemma {:induction false} EntriesMembers(h: Histograms)
    ensures forall r :: r in Entries(h) <==> exists i :: 0 <= i < |h| && h[i].key == r.perc && Entry(r.run, r.lat) in h[i].value
  {
    if h != [] {
      var n := |h| - 1;
      var init := h[..n];
      EntriesMembers(init);
      forall r: Report ensures r in InnerEntries(h[n].key, h[n].value) <==> h[n].key == r.perc && Entry(r.run, r.lat) in h[n].value {
        var inner := h[n].value;
        if Entry(r.run, r.lat) in inner && h[n].key == r.perc {
          var j :| 0 <= j < |inner| && inner[j] == Entry(r.run, r.lat);
          assert InnerEntries(h[n].key, inner)[j] == r;
        }
      }
      forall r: Report ensures (exists i :: 0 <= i < |h| && h[i].key == r.perc && Entry(r.run, r.lat) in h[i].value) <==>
                       (exists i :: 0 <= i < n && init[i].key == r.perc && Entry(r.run, r.lat) in init[i].value)
                       || (h[n].key == r.perc && Entry(r.run, r.lat) in h[n].value)
      {
        if exists i :: 0 <= i < |h| && h[i].key == r.perc && Entry(r.run, r.lat) in h[i].value {
          var i :| 0 <= i < |h| && h[i].key == r.perc && Entry(r.run, r.lat) in h[i].value;
          if i < n {
            assert init[i] == h[i];
          }
        }
        if exists i :: 0 <= i < n && init[i].key == r.perc && Entry(r.run, r.lat) in init[i].value {
          var i :| 0 <= i < n && init[i].key == r.perc && Entry(r.run, r.lat) in init[i].value;
          assert h[i] == init[i];
        }
      }
    }
  }

  lemma WellKeyedInner(h: Histograms, i: nat)
    requires WellKeyed(h) && i < |h|
    ensures Get(h, h[i].key) == Some(h[i].value)
  {
    GetUnique(h, h[i].key, h[i].value);
    assert h[i] == Entry(h[i].key, h[i].value);
  }

  /** The entries of a well-keyed aggregate are exactly its `histograms[perc][run]` lookups. */
  lemma EntriesLookup(h: Histograms)
    requires WellKeyed(h)
    ensures forall run, perc, lat :: Report(run, perc, lat) in Entries(h) <==> Lookup(h, perc, run) == Some(lat)
  {
    EntriesMembers(h);
    forall run, perc, lat ensures Report(run, perc, lat) in Entries(h) <==> Lookup(h, perc, run) == Some(lat) {
      var r := Report(run, perc, lat);
      if r in Entries(h) {
        var i :| 0 <= i < |h| && h[i].key == perc && Entry(run, lat) in h[i].value;
        WellKeyedInner(h, i);
        GetUnique(h[i].value, run, lat);
      }
      if Lookup(h, perc, run) == Some(lat) {
        GetKeys(InnerOf(h, perc), run);
        GetKeys(h, perc);
        var inner := Get(h, perc).value;
        var i :| 0 <= i < |h| && h[i] == Entry(perc, inner);
        WellKeyedInner(h, i);
        GetUnique(inner, run, lat);
      }
    }
  }

  lemma EntriesPercs(h: Histograms)
    ensures forall k :: 0 <= k < |Entries(h)| ==> Entries(h)[k].perc in Keys(h)
  {
    EntriesMembers(h);
    forall k | 0 <= k < |Entries(h)| ensures Entries(h)[k].perc in Keys(h) {
      var r := Entries(h)[k];
      assert r in Entries(h);
      var i :| 0 <= i < |h| && h[i].key == r.perc && Entry(r.run, r.lat) in h[i].value;
      assert Keys(h)[i] == r.perc;
    }
  }

  /** No two entries of a well-keyed aggregate share their (percentile, run) labels. */
  lemma {:induction false} EntriesDistinct(h: Histograms)
    requires WellKeyed(h)
    ensures forall k1, k2 :: 0 <= k1 < k2 < |Entries(h)| ==>
      Entries(h)[k1].perc != Entries(h)[k2].perc || Entries(h)[k1].run != Entries(h)[k2].run
  {
    if h != [] {
      var n := |h| - 1;
      var init := h[..n];
      assert Keys(h) == Keys(init) + [h[n].key];
      NoDupSnoc(Keys(init), h[n].key);
      assert forall i :: 0 <= i < n ==> init[i] == h[i];
      EntriesDistinct(init);
      EntriesPercs(init);
      var e1, e2 := Entries(init), InnerEntries(h[n].key, h[n].value);
      assert Entries(h) == e1 + e2;
      assert h[n].key !in Keys(init);
      forall k1, k2 | 0 <= k1 < k2 < |Entries(h)|
        ensures Entries(h)[k1].perc != Entries(h)[k2].perc || Entries(h)[k1].run != Entries(h)[k2].run
      {
        if k2 < |e1| {
          assert Entries(h)[k1] == e1[k1] && Entries(h)[k2] == e1[k2];
        } else if k1 < |e1| {
          assert Entries(h)[k1] == e1[k1] && Entries(h)[k2].perc == h[n].key;
        } else {
          var j1, j2 := k1 - |e1|, k2 - |e1|;
          assert Entries(h)[k1].run == Keys(h[n].value)[j1] && Entries(h)[k2].run == Keys(h[n].value)[j2];
        }
      }
    }
  }

  /** The aggregate of `get_latency_histograms` is well keyed. */
  lemma AggregateWellKeyed(h: Histograms, rs: seq<Report>)
    requires IsAggregationOf(h, rs)
    ensures WellKeyed(h)
  {
    DedupSpec(PercsOf(rs));
    forall i | 0 <= i < |h| ensures NoDup(Keys(h[i].value)) {
      GetUnique(h, h[i].key, h[i].value);
      assert h[i] == Entry(h[i].key, h[i].value);
      assert InnerOf(h, h[i].key) == h[i].value;
    }
  }

  /** The facts the three gauge lemmas share: the aggregate is well keyed and its entries are its lookups. */
  lemma GaugeFacts(src: Source, mesh: Mesh, detailed: bool)
    ensures var h := LatencyHistogramsOf(src, mesh, detailed);
      && WellKeyed(h)
      && (forall perc, run :: Lookup(h, perc, run) == LastReported(MeshReports(src, mesh, detailed), perc, run))
      && (forall run, perc, lat :: Report(run, perc, lat) in Entries(h) <==> Lookup(h, perc, run) == Some(lat))
  {
    var rs := MeshReports(src, mesh, detailed);
    AggregatedSpec(rs);
    AggregateWellKeyed(LatencyHistogramsOf(src, mesh, detailed), rs);
    EntriesLookup(LatencyHistogramsOf(src, mesh, detailed));
  }

  /**
   * On success every observation holds the last latency its run reported for
   * its percentile, and that run's requested rate.
   */
  lemma GaugeValues(src: Source, mesh: Mesh, detailed: bool)
    ensures var res := PassOf(src, mesh, detailed);
      res.Ok? ==> forall k :: 0 <= k < |res.value| ==>
        && LastReported(MeshReports(src, mesh, detailed), res.value[k].p, res.value[k].sourceRun) == Some(res.value[k].value)
        && GetRequestedRps(src, mesh, res.value[k].sourceRun) == Ok(res.value[k].requestedRps)
  {
    var h := LatencyHistogramsOf(src, mesh, detailed);
    var es := Entries(h);
    GaugeFacts(src, mesh, detailed);
    ObservationsOfSpec(src, mesh, es);
    var res := ObservationsOf(src, mesh, es);
    if res.Ok? {
      forall k | 0 <= k < |res.value|
        ensures LastReported(MeshReports(src, mesh, detailed), res.value[k].p, res.value[k].sourceRun) == Some(res.value[k].value)
      {
        assert es[k] in es;
        assert es[k] == Report(es[k].run, es[k].perc, es[k].lat);
      }
    }
  }

  /** On success every (percentile, run) pair some completed run reported is observed. */
  lemma GaugeComplete(src: Source, mesh: Mesh, detailed: bool)
    ensures var res := PassOf(src, mesh, detailed);
      res.Ok? ==> forall perc, run :: LastReported(MeshReports(src, mesh, detailed), perc, run).Some? ==>
        exists k :: 0 <= k < |res.value| && res.value[k].p == perc && res.value[k].sourceRun == run
  {
    var h := LatencyHistogramsOf(src, mesh, detailed);
    var es := Entries(h);
    GaugeFacts(src, mesh, detailed);
    ObservationsOfSpec(src, mesh, es);
    var res := ObservationsOf(src, mesh, es);
    if res.Ok? {
      forall perc, run | LastReported(MeshReports(src, mesh, detailed), perc, run).Some?
        ensures exists k :: 0 <= k < |res.value| && res.value[k].p == perc && res.value[k].sourceRun == run
      {
        var lat := LastReported(MeshReports(src, mesh, detailed), perc, run).value;
        assert Lookup(h, perc, run) == Some(lat);
        var k :| 0 <= k < |es| && es[k] == Report(run, perc, lat);
        assert res.value[k].p == perc && res.value[k].sourceRun == run;
      }
    }
  }

  /** No two observations of a successful pass share their labels, so no `set` overwrites another. */
  lemma GaugeLabelsDistinct(src: Source, mesh: Mesh, detailed: bool)
    ensures var res := PassOf(src, mesh, detailed);
      res.Ok? ==> forall k1, k2 :: 0 <= k1 < k2 < |res.value| ==>
        res.value[k1].p != res.value[k2].p || res.value[k1].sourceRun != res.value[k2].sourceRun
  {
    var h := LatencyHistogramsOf(src, mesh, detailed);
    GaugeFacts(src, mesh, detailed);
    EntriesDistinct(h);
    ObservationsOfSpec(src, mesh, Entries(h));
  }

  /**
   * `runs_count` is the run count of the last percentile only: when every
   * percentile has a run, it equals the number of observations exactly when
   * there is at most one percentile.
   */
  lemma {:induction false} RunsCountIsLastOnly(h: Histograms)
    requires forall i :: 0 <= i < |h| ==> h[i].value != []
    ensures LastRunsCount(h) <= |Entries(h)|
    ensures LastRunsCount(h) == |Entries(h)| <==> |h| <= 1
  {
    if h != [] {
      var n := |h| - 1;
      if n > 0 {
        var init := h[..n];
        assert init[n - 1] == h[n - 1];
        RunsCountIsLastOnly(init);
      } else {
        assert h[..0] == [];
      }
    }
  }

  /** The `runs_count` that `create_summary_gauge` returns is the observation count only for at most one percentile. */
  lemma SummaryRunsCount(src: Source, mesh: Mesh, detailed: bool)
    ensures var h := LatencyHistogramsOf(src, mesh, detailed);
      && LastRunsCount(h) <= |Entries(h)|
      && (LastRunsCount(h) == |Entries(h)| <==> |h| <= 1)
  {
    AggregatedNoEmptyInner(MeshReports(src, mesh, detailed));
    RunsCountIsLastOnly(LatencyHistogramsOf(src, mesh, detailed));
  }
}
