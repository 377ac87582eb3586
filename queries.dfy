/**
 * The metrics backend as the merger sees it, and the query and metric name
 * templates it formats (metrics-merger/merger.py).
 *
 * A query sends a PromQL expression and gets back a list of samples; the
 * merger reads one or two fields of each sample. `Source` is that backend
 * reduced to a pure function from the query string to those fields, so every
 * query the model issues is named by its exact text. The HTTP round trip and
 * the JSON decoding are not modelled.
 */
module Queries {

  type Run = string
  type Mesh = string
  type Percentile = real
  type Latency = real

  /** One sample of a latency query: its `p` label and its value, parsed as numbers. */
  datatype LatencySample = LatencySample(p: Percentile, latency: Latency)

  datatype Source = Source(
    // the `run` label of each sample the query returns, in result order
    runLabels: string -> seq<Run>,
    // the parsed `p` label and value of each sample the query returns
    latencySamples: string -> seq<LatencySample>,
    // the value string (`value[1]`) of each sample the query returns
    rpsValues: string -> seq<string>)

  /** `"detailed_"` for the detailed resolution, nothing for the coarse one. */
  function DetailedInfix(detailed: bool): string {
    if detailed then "detailed_" else ""
  }

  /** Runs of a mesh whose progress metric says they are done. */
  function CompletedRunsQuery(mesh: Mesh): string {
    "wrk2_benchmark_progress{status=\"done\",exported_job=\"" + mesh + "\"}"
  }

  /** The request rate a run was configured with. */
  function RequestedRpsQuery(mesh: Mesh, run: Run): string {
    "wrk2_benchmark_run_requested_rps{run=\"" + run + "\",exported_job=\"" + mesh + "\"}"
  }

  /** The latency histogram of one run, coarse or detailed. */
  function LatencyQuery(run: Run, detailed: bool): string {
    "wrk2_benchmark_latency_" + DetailedInfix(detailed) + "ms{run=\"" + run + "\"}"
  }

  /** Name of the published summary gauge. */
  function SummaryMetricName(detailed: bool): string {
    "wrk2_benchmark_summary_latency_" + DetailedInfix(detailed) + "ms"
  }

  /** Help text of the published summary gauge. */
  function SummaryDocumentation(mesh: Mesh): string {
    mesh + " latency summary"
  }

  const SummaryLabelNames: seq<string> := ["p", "source_run", "requested_rps"]

  /** The coarse and the detailed summary gauges have different names. */
  lemma {:induction false} SummaryMetricNameInjective(d1: bool, d2: bool)
    ensures SummaryMetricName(d1) == SummaryMetricName(d2) <==> d1 == d2
  {
    if d1 != d2 {
      assert |SummaryMetricName(d1)| != |SummaryMetricName(d2)|;
    }
  }

  /**
   * A latency query names exactly one run and one resolution: two runs, or
   * the two resolutions of one run, never share a query.
   */
  lemma {:induction false} LatencyQueryInjective(r1: Run, d1: bool, r2: Run, d2: bool)
    ensures LatencyQuery(r1, d1) == LatencyQuery(r2, d2) <==> r1 == r2 && d1 == d2
  {
    var pre := "wrk2_benchmark_latency_";
    var mid := "ms{run=\"";
    var post := "\"}";
    var q1, q2 := LatencyQuery(r1, d1), LatencyQuery(r2, d2);
    if q1 == q2 {
      assert q1[|pre|] == (if d1 then 'd' else 'm');
      assert q2[|pre|] == (if d2 then 'd' else 'm');
      assert d1 == d2;
      var head := pre + DetailedInfix(d1) + mid;
      assert q1 == head + r1 + post && q2 == head + r2 + post;
      assert r1 == q1[|head|..|q1| - |post|];
      assert r2 == q2[|head|..|q2| - |post|];
    }
  }

  /** Two strings that each end a quote-free prefix at their first double quote split alike. */
  lemma SplitAtQuote(r1: string, x1: string, r2: string, x2: string)
    requires '"' !in r1 && '"' !in r2
    requires |x1| > 0 && x1[0] == '"' && |x2| > 0 && x2[0] == '"'
    requires r1 + x1 == r2 + x2
    ensures r1 == r2 && x1 == x2
  {
    var s := r1 + x1;
    assert s[|r1|] == '"' && s[|r2|] == '"';
    assert forall k :: 0 <= k < |r1| ==> s[k] == r1[k];
    assert forall k :: 0 <= k < |r2| ==> s[k] == r2[k];
    assert |r1| == |r2|;
    assert r1 == s[..|r1|] && r2 == s[..|r2|];
    assert x1 == s[|r1|..] && x2 == s[|r2|..];
  }

  /**
   * A requested-rate query names exactly one mesh and one run, provided the
   * run identifier contains no double quote.
   */
  lemma {:induction false} RequestedRpsQueryInjective(m1: Mesh, r1: Run, m2: Mesh, r2: Run)
    requires '"' !in r1 && '"' !in r2
    ensures RequestedRpsQuery(m1, r1) == RequestedRpsQuery(m2, r2) <==> m1 == m2 && r1 == r2
  {
    var pre := "wrk2_benchmark_run_requested_rps{run=\"";
    var mid := "\",exported_job=\"";
    var post := "\"}";
    var q1, q2 := RequestedRpsQuery(m1, r1), RequestedRpsQuery(m2, r2);
    if q1 == q2 {
      var x1, x2 := mid + m1 + post, mid + m2 + post;
      assert q1 == pre + (r1 + x1) && q2 == pre + (r2 + x2);
      assert r1 + x1 == q1[|pre|..] && r2 + x2 == q2[|pre|..];
      SplitAtQuote(r1, x1, r2, x2);
      assert m1 == x1[|mid|..|x1| - |post|] && m2 == x2[|mid|..|x2| - |post|];
    }
  }
}
