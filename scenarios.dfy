/**
 * Worked examples of the whole pass on a concrete metric source: two completed
 * runs of the "bare-metal" mesh, each reporting p50 and p99, with requested
 * rates "1000" and "2000".
 */
module Scenarios {
  import opened Wrappers
  import opened OrderedMaps
  import opened Queries
  import opened LatencySort
  import opened Histograms
  import opened Summary

  /** The backend of the example; `rates` answers the requested-rate queries. */
  function ExampleSource(rates: string -> seq<string>): Source {
    Source(
      q => if q == CompletedRunsQuery("bare-metal") then ["r1", "r2"] else [],
      q => if q == LatencyQuery("r1", false) then [LatencySample(50.0, 10.0), LatencySample(99.0, 50.0)]
           else if q == LatencyQuery("r2", false) then [LatencySample(50.0, 12.0), LatencySample(99.0, 40.0)]
           else [],
      rates)
  }

  /** Both runs have a requested rate. */
  function BothRates(q: string): seq<string> {
    if q == RequestedRpsQuery("bare-metal", "r1") then ["1000"]
    else if q == RequestedRpsQuery("bare-metal", "r2") then ["2000"]
    else []
  }

  /** Only the first run has a requested rate. */
  function FirstRateOnly(q: string): seq<string> {
    if q == RequestedRpsQuery("bare-metal", "r1") then ["1000"] else []
  }

  /** The aggregate of the example: p50 lists r1 before r2, p99 lists r2 (40 ms) before r1 (50 ms). */
  ghost const ExampleAggregate: Histograms :=
    [Entry(50.0, [Entry("r1", 10.0), Entry("r2", 12.0)]), Entry(99.0, [Entry("r2", 40.0), Entry("r1", 50.0)])]

  lemma TwoSampleHistogram(x: LatencySample, y: LatencySample)
    requires x.p != y.p
    ensures HistogramOf([x, y]) == [Entry(x.p, x.latency), Entry(y.p, y.latency)]
  {
    assert [x, y][..1] == [x] && [x][..0] == [];
    var first := HistogramOf([x]);
    assert HistogramOf([x][..0]) == [];
    assert first == Put(HistogramOf([x][..0]), x.p, x.latency);
    assert first == [Entry(x.p, x.latency)];
    assert Keys(first) == [x.p];
    PutAbsent(first, y.p, y.latency);
  }

  lemma ExampleReports(rates: string -> seq<string>)
    ensures Reports(ExampleSource(rates), ["r1", "r2"], false)
      == [Report("r1", 50.0, 10.0), Report("r1", 99.0, 50.0), Report("r2", 50.0, 12.0), Report("r2", 99.0, 40.0)]
  {
    var src := ExampleSource(rates);
    LatencyQueryInjective("r1", false, "r2", false);
    var s1 := [LatencySample(50.0, 10.0), LatencySample(99.0, 50.0)];
    var s2 := [LatencySample(50.0, 12.0), LatencySample(99.0, 40.0)];
    assert src.latencySamples(LatencyQuery("r1", false)) == s1;
    assert src.latencySamples(LatencyQuery("r2", false)) == s2;
    TwoSampleHistogram(s1[0], s1[1]);
    TwoSampleHistogram(s2[0], s2[1]);
    var h1, h2 := RunHistogram(src, "r1", false), RunHistogram(src, "r2", false);
    assert ReportsOfRun("r1", h1) == [Report("r1", 50.0, 10.0), Report("r1", 99.0, 50.0)];
    assert ReportsOfRun("r2", h2) == [Report("r2", 50.0, 12.0), Report("r2", 99.0, 40.0)];
    assert ["r1", "r2"][..1] == ["r1"];
    assert ["r1"][..0] == [];
    assert Reports(src, ["r1"], false) == ReportsOfRun("r1", h1);
  }

  /** The example's reports, in the order `get_latency_histograms` folds them in. */
  ghost const ExampleReportSeq: seq<Report> :=
    [Report("r1", 50.0, 10.0), Report("r1", 99.0, 50.0), Report("r2", 50.0, 12.0), Report("r2", 99.0, 40.0)]

  lemma MergedStep(rs: seq<Report>, k: nat)
    requires k < |rs|
    ensures Merged(rs[..k + 1]) == Add(Merged(rs[..k]), rs[k])
  {
    assert rs[..k + 1][..k] == rs[..k];
  }

  lemma ExampleMerged1()
    ensures Merged(ExampleReportSeq[..2]) == [Entry(50.0, [Entry("r1", 10.0)]), Entry(99.0, [Entry("r1", 50.0)])]
  {
    var rs := ExampleReportSeq;
    MergedStep(rs, 0);
    assert rs[..0] == [];
    var m1 := [Entry(50.0, [Entry("r1", 10.0)])];
    assert Merged(rs[..1]) == m1;
    MergedStep(rs, 1);
    assert Keys(m1) == [50.0];
    GetKeys(m1, 99.0);
    PutAbsent(m1, 99.0, [Entry("r1", 50.0)]);
  }

  lemma ExampleMerged2()
    ensures Merged(ExampleReportSeq[..3]) == [Entry(50.0, [Entry("r1", 10.0), Entry("r2", 12.0)]), Entry(99.0, [Entry("r1", 50.0)])]
  {
    var rs := ExampleReportSeq;
    ExampleMerged1();
    MergedStep(rs, 2);
    var m2 := [Entry(50.0, [Entry("r1", 10.0)]), Entry(99.0, [Entry("r1", 50.0)])];
    var r := rs[2];
    assert r == Report("r2", 50.0, 12.0);
    assert Get(m2, 50.0) == Some([Entry("r1", 10.0)]);
    assert Keys([Entry("r1", 10.0)]) == ["r1"];
    PutAbsent([Entry("r1", 10.0)], "r2", 12.0);
    var inner := [Entry("r1", 10.0), Entry("r2", 12.0)];
    assert Put([Entry("r1", 10.0)], r.run, r.lat) == inner;
    assert Add(m2, r) == Put(m2, 50.0, inner);
    assert m2[1..] == [m2[1]];
    assert Put(m2, 50.0, inner) == [Entry(50.0, inner)] + m2[1..];
  }

  lemma ExampleMerged()
    ensures Merged(ExampleReportSeq) == [Entry(50.0, [Entry("r1", 10.0), Entry("r2", 12.0)]), Entry(99.0, [Entry("r1", 50.0), Entry("r2", 40.0)])]
  {
    var rs := ExampleReportSeq;
    ExampleMerged2();
    MergedStep(rs, 3);
    assert rs[..4] == rs;
    var m3 := [Entry(50.0, [Entry("r1", 10.0), Entry("r2", 12.0)]), Entry(99.0, [Entry("r1", 50.0)])];
    var r := rs[3];
    assert r == Report("r2", 99.0, 40.0);
    assert m3[1..] == [m3[1]] && m3[1..][1..] == [];
    assert Get(m3[1..], 99.0) == Some([Entry("r1", 50.0)]);
    assert Get(m3, 99.0) == Some([Entry("r1", 50.0)]);
    assert Keys([Entry("r1", 50.0)]) == ["r1"];
    PutAbsent([Entry("r1", 50.0)], "r2", 40.0);
    var inner := [Entry("r1", 50.0), Entry("r2", 40.0)];
    assert Put([Entry("r1", 50.0)], r.run, r.lat) == inner;
    assert Add(m3, r) == Put(m3, 99.0, inner);
    assert Keys(m3) == [50.0, 99.0];
    PutAt(m3, 1, inner);
  }

  lemma TwoEntrySort(x: Entry<Run, Latency>, y: Entry<Run, Latency>)
    requires x.key != y.key
    ensures SortByLatency([x, y]) == if y.value < x.value then [y, x] else [x, y]
    ensures SortedInner([x, y]) == SortByLatency([x, y])
  {
    assert [x, y][..1] == [x] && [x][..0] == [];
    assert SortByLatency([x]) == [x];
    assert [x][1..] == [];
    var r := SortByLatency([x, y]);
    assert r == InsertByLatency([x], y);
    if y.value < x.value {
      assert r == [y, x];
      assert Keys(r) == [y.key, x.key];
    } else {
      assert InsertByLatency([], y) == [y];
      assert r == [x, y];
      assert Keys(r) == [x.key, y.key];
    }
    FromPairsIdentity(r);
  }

  lemma ExampleHistograms(rates: string -> seq<string>)
    ensures LatencyHistogramsOf(ExampleSource(rates), "bare-metal", false) == ExampleAggregate
  {
    var src := ExampleSource(rates);
    assert src.runLabels(CompletedRunsQuery("bare-metal")) == ["r1", "r2"];
    ExampleReports(rates);
    ExampleMerged();
    var m := [Entry(50.0, [Entry("r1", 10.0), Entry("r2", 12.0)]), Entry(99.0, [Entry("r1", 50.0), Entry("r2", 40.0)])];
    TwoEntrySort(Entry("r1", 10.0), Entry("r2", 12.0));
    TwoEntrySort(Entry("r1", 50.0), Entry("r2", 40.0));
    assert SortEach(m) == ExampleAggregate;
  }

  lemma ExampleEntries()
    ensures Entries(ExampleAggregate) == ExampleEntrySeq
  {
    var h := ExampleAggregate;
    assert h[..1] == [h[0]] && [h[0]][..0] == [];
  }

  /** The entries of the example aggregate, in the order the gauge is filled. */
  ghost const ExampleEntrySeq: seq<Report> :=
    [Report("r1", 50.0, 10.0), Report("r2", 50.0, 12.0), Report("r2", 99.0, 40.0), Report("r1", 99.0, 50.0)]

  lemma ExampleRates(rates: string -> seq<string>)
    ensures rates == BothRates ==>
      GetRequestedRps(ExampleSource(rates), "bare-metal", "r1") == Ok("1000") &&
      GetRequestedRps(ExampleSource(rates), "bare-metal", "r2") == Ok("2000")
    ensures rates == FirstRateOnly ==>
      GetRequestedRps(ExampleSource(rates), "bare-metal", "r1") == Ok("1000") &&
      GetRequestedRps(ExampleSource(rates), "bare-metal", "r2") == Err(MissingRate("r2"))
  {
    RequestedRpsQueryInjective("bare-metal", "r1", "bare-metal", "r2");
  }

  lemma ExampleQueriedRuns()
    ensures Dedup(RunsOf(ExampleEntrySeq)) == ["r1", "r2"]
  {
    var runs := RunsOf(ExampleEntrySeq);
    assert runs == ["r1", "r2", "r2", "r1"];
    assert runs[..3] == ["r1", "r2", "r2"] && runs[..3][..2] == ["r1", "r2"];
    assert runs[..3][..2][..1] == ["r1"] && ["r1"][..0] == [];
    assert Dedup(["r1"]) == ["r1"];
    assert Dedup(["r1", "r2"]) == ["r1", "r2"];
    assert Dedup(["r1", "r2", "r2"]) == ["r1", "r2"];
  }

  /** The example's observations when both runs have a rate. */
  ghost const ExampleObservationSeq: seq<Observation> := [
    Observation(50.0, "r1", "1000", 10.0), Observation(50.0, "r2", "2000", 12.0),
    Observation(99.0, "r2", "2000", 40.0), Observation(99.0, "r1", "1000", 50.0)]

  lemma ExampleObservations()
    ensures ObservationsOf(ExampleSource(BothRates), "bare-metal", ExampleEntrySeq) == Ok(ExampleObservationSeq)
  {
    var src := ExampleSource(BothRates);
    ExampleRates(BothRates);
    var es := ExampleEntrySeq;
    ObservationsOfSpec(src, "bare-metal", es);
    assert forall k :: 0 <= k < |es| ==> es[k].run in ["r1", "r2"];
    assert ObservationsOf(src, "bare-metal", es).Ok?;
    var obs := ObservationsOf(src, "bare-metal", es).value;
    assert |obs| == 4;
    assert obs[0] == ExampleObservationSeq[0];
    assert obs[1] == ExampleObservationSeq[1];
    assert obs[2] == ExampleObservationSeq[2];
    assert obs[3] == ExampleObservationSeq[3];
    assert obs == [obs[0], obs[1], obs[2], obs[3]];
  }

  /**
   * With both rates present the gauge gets four observations over two
   * percentiles, the rate of each run is queried once, and `runs_count` is 2:
   * the runs under the last percentile, not the four observations.
   */
  lemma ExampleSummary()
    ensures var h := LatencyHistogramsOf(ExampleSource(BothRates), "bare-metal", false);
      && ObservationsOf(ExampleSource(BothRates), "bare-metal", Entries(h)) == Ok(ExampleObservationSeq)
      && |h| == 2 && LastRunsCount(h) == 2
      && Dedup(RunsOf(Entries(h))) == ["r1", "r2"]
  {
    ExampleHistograms(BothRates);
    ExampleEntries();
    ExampleObservations();
    ExampleQueriedRuns();
  }

  /** Without a rate for r2 the pass aborts with r2's missing rate, before anything is published. */
  lemma ExampleMissingRate()
    ensures var h := LatencyHistogramsOf(ExampleSource(FirstRateOnly), "bare-metal", false);
      ObservationsOf(ExampleSource(FirstRateOnly), "bare-metal", Entries(h)) == Err(MissingRate("r2"))
  {
    var src := ExampleSource(FirstRateOnly);
    ExampleHistograms(FirstRateOnly);
    ExampleEntries();
    ExampleRates(FirstRateOnly);
    var es := ExampleEntrySeq;
    ObservationsOfSpec(src, "bare-metal", es);
    assert GetRequestedRps(src, "bare-metal", es[1].run).Err?;
  }

  /** `create_summary_gauge` on the example: four observations, two percentiles, `runs_count` 2, two rate queries. */
  method ExampleRun() returns (result: Result<GaugeSummary, Error>)
    ensures result.Ok?
    ensures |result.value.gauge.observations| == 4
    ensures result.value.percsCount == 2 && result.value.runsCount == 2
  {
    ghost var queried: seq<Run>;
    ExampleSummary();
    result, queried := CreateSummaryGauge(ExampleSource(BothRates), "bare-metal", false);
    assert queried == ["r1", "r2"];
  }

  /** `create_summary_gauge` on the example without r2's rate fails with r2's missing rate. */
  method ExampleFailingRun() returns (result: Result<GaugeSummary, Error>)
    ensures result == Err(MissingRate("r2"))
  {
    ghost var queried: seq<Run>;
    ExampleMissingRate();
    result, queried := CreateSummaryGauge(ExampleSource(FirstRateOnly), "bare-metal", false);
  }
}
