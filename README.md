# metrics-merger in Dafny

This project models the core of `metrics-merger/merger.py`. The script reads
wrk2 benchmark results for a service mesh from a Prometheus server. It
aggregates them per latency percentile across all completed runs, and
publishes one summary gauge per mesh and resolution. The gauge carries one
observation per (percentile, run), labelled with the run's requested rate.

The model covers these operations, file by file:

- `queries.dfy`, module `Queries`: the metric source and the query strings.
  - A run, a mesh and a requested rate are strings. A percentile and a
    latency are reals.
  - The Prometheus server becomes a `Source`: three functions from the exact
    query string to what the JSON answer holds. These are the `run` labels of
    the progress samples, the `(p, value)` pairs of the latency samples, and
    the value strings of the rate samples.
  - The query templates, the gauge name, its help text and its label names
    are written out literally.
  - It proves that distinct runs or resolutions never share a latency query,
    and that, for run identifiers without a double quote, distinct (mesh, run)
    pairs never share a rate query.
- `ordered_maps.dfy`, module `OrderedMaps`: Python's insertion-ordered `dict`
  and `OrderedDict`.
  - A dict is a sequence of `Entry(key, value)` pairs with distinct keys.
  - `Put` is `d[k] = v`: an existing key keeps its position and a new key
    goes last.
  - `Dedup` is "first occurrences in order". `FromPairs` is the dict
    comprehension over a sequence of pairs.
- `latency_sort.dfy`, module `LatencySort`:
  `sorted(items, key=lambda item: item[1])`.
  - It is a stable insertion sort by latency.
  - It is proved sorted and a permutation. Entries of equal latency keep
    their order.
  - It is also proved to be the only sequence with those properties, so any
    stable sort gives the same dict.
- `histograms.dfy`, module `Histograms`: the aggregation side.
  - `get_completed_runs`, `get_latency_histogram` and
    `get_latency_histograms` are methods with the source's loops.
    `get_completed_runs` is proved to return the run labels of the progress
    query's answer, in order. The other two are proved equal to
    specification folds.
  - The per-run fold is specified by `HistogramOfSpec`, and the aggregate
    by `IsAggregationOf`:
    - the percentiles appear in first-seen order;
    - `histograms[perc][run]` is defined exactly for reported pairs and holds
      the last latency reported for the pair;
    - the runs under each percentile are distinct and sorted by latency;
    - runs of equal latency keep the order in which they first reported that
      percentile.
- `summary.dfy`, module `Summary`: `get_requested_rps` and
  `create_summary_gauge`.
  - The method keeps the source's local rate cache.
  - It is proved to record exactly the observations of a pass that would
    query every entry's rate afresh, in the same order.
  - It is proved to query each run's rate at most once, and on success
    exactly once per distinct run, in first-met order.
  - It returns `percs_count` and `runs_count` as the code computes them.
  - A missing rate aborts the whole call with `MissingRate(run)`, which
    stands for the `IndexError` of `[0]` on an empty result.
- `scenarios.dfy`, module `Scenarios`: a worked example.
  - Two completed runs, each reporting p50 and p99, give four observations
    over two percentiles and two rate queries. `runs_count` is 2.
  - With one rate missing, the pass fails with that run's `MissingRate`.

Where the specification of the system and the code disagree, the model
follows the code:

- **`runs_count`.** The specification calls the third result the total
  number of observations. The code resets `runs_count` for every percentile
  (`merger.py:92`), so it returns the number of runs under the last
  percentile, or 0 when there are none.
  - `Summary.SummaryRunsCount` shows that the two agree exactly when there
    is at most one percentile. Every percentile of the aggregate holds a run
    (`Histograms.AggregatedNoEmptyInner`).
  - `Scenarios.ExampleSummary` gives 2 against 4 observations.
- **Completed runs.** The specification describes them as a set. The code
  returns a list (`merger.py:19-26`): a run listed twice is fetched and
  folded in twice. The second pass overwrites the first with equal values.
- **Rate cache key.** The specification asks that the rate cache be keyed by
  mesh and run. The code keys it by run only, but the dict is local to one
  `create_summary_gauge` call for one mesh, so no rate crosses meshes. The
  model's cache is likewise a local variable of `Summary.CreateSummaryGauge`.
- **Truthiness test.** The specification flags `histograms.get(perc, False)`
  as a risk. The value it checks is an inner dict, which is never empty once it
  exists (`Histograms.MergedNoEmptyInner`). So the test is exactly a key
  presence test (`Histograms.AddIsPut`).
- **Client argument.** `get_latency_histogram` reads the module-level
  client `p` rather than a parameter. The model passes the same `Source` to
  every operation.

## Model

| member | source | states |
|---|---|---|
| Queries.LatencyQueryInjective | metrics-merger/merger.py:43-49 | two latency queries are equal exactly when they name the same run and the same resolution |
| Queries.RequestedRpsQueryInjective | metrics-merger/merger.py:29-32 | for quote-free run identifiers, two rate queries are equal exactly when mesh and run are equal |
| Queries.SummaryMetricNameInjective | metrics-merger/merger.py:77-84 | the coarse and the detailed gauge have different names |
| OrderedMaps.PutGet | metrics-merger/merger.py:50 | after `d[k] = v`, looking up `k` gives `v` and every other key is unchanged |
| OrderedMaps.PutKeys | metrics-merger/merger.py:50 | `d[k] = v` keeps the key order when `k` is present and appends `k` otherwise |
| OrderedMaps.GetUnique | metrics-merger/merger.py:61 | in a dict with distinct keys, `d.get(k)` is `v` exactly when the pair `(k, v)` is an item |
| OrderedMaps.FromPairsIdentity | metrics-merger/merger.py:68-69 | the dict comprehension over pairs with distinct keys is those pairs, in order |
| LatencySort.SortByLatencyIsStable | metrics-merger/merger.py:68-69 | the sorted items are in non-decreasing latency order, are a permutation of the input, and keep items of equal latency in input order |
| LatencySort.StableSortIsUnique | metrics-merger/merger.py:68-69 | any two stable latency sorts of the same items are equal, so the result is determined |
| LatencySort.SortByLatencyKeys | metrics-merger/merger.py:68-69 | sorting keeps exactly the same, still distinct, runs |
| LatencySort.SortByLatencyGet | metrics-merger/merger.py:68-69 | the sorted copy maps every run to the same latency as before |
| Histograms.GetCompletedRuns | metrics-merger/merger.py:19-26 | the result lists the `run` label of every sample of the progress query for the mesh, in order and with repeats |
| Histograms.GetLatencyHistogram | metrics-merger/merger.py:37-52 | the keys are the reported percentiles in first-seen order, each once, and each holds the last latency reported for it |
| Histograms.HistogramOfSpec | metrics-merger/merger.py:48-50 | assigning the samples in order gives the distinct percentiles in first-seen order, each with the last latency of its samples |
| Histograms.MergeRunHistogram | metrics-merger/merger.py:59-64 | folding one run's histogram in gives the fold of all reports so far followed by that run's pairs |
| Histograms.AddIsPut | metrics-merger/merger.py:61-64 | when no inner dict is empty, the truthiness branch is `histograms[perc][run] = lat` on the existing or a new inner dict, and no inner dict becomes empty |
| Histograms.MergedNoEmptyInner | metrics-merger/merger.py:61-64 | every inner dict created by the merge holds at least one run |
| Histograms.MergedKeys | metrics-merger/merger.py:58-64 | the merged percentiles are the reported ones in first-seen order, each once |
| Histograms.MergedInnerKeys | metrics-merger/merger.py:58-64 | under each percentile, the runs that reported it, in the order they first did, each once |
| Histograms.MergedLookup | metrics-merger/merger.py:58-64 | `histograms[perc][run]` is defined exactly for reported pairs and holds the last latency reported (last write wins) |
| Histograms.SortRunsByLatency | metrics-merger/merger.py:67-69 | each percentile's inner dict is replaced by its latency-sorted copy, in place, with keys and their order unchanged |
| Histograms.SortedInnerSpec | metrics-merger/merger.py:68-69 | the sorted copy is the stable sort of the items, has distinct runs and answers every lookup alike |
| Histograms.GetLatencyHistograms | metrics-merger/merger.py:55-71 | the result is the aggregate of the reports of all completed runs and satisfies every clause of `IsAggregationOf` |
| Histograms.AggregatedSpec | metrics-merger/merger.py:55-71 | the aggregate has the first-seen percentile order, last-write-wins lookups, distinct latency-sorted runs and stable ties |
| Histograms.EmptyRunAddsNothing | metrics-merger/merger.py:58-64 | a completed run with an empty histogram changes neither the reports nor the aggregate |
| Histograms.SingleRunPercentile | metrics-merger/merger.py:58-69 | a percentile reported by one run only has a one-entry inner dict holding that run's last latency |
| Histograms.AggregatedInventsNothing | metrics-merger/merger.py:58-64 | every entry of the aggregate is a report of one of the completed runs |
| Histograms.AggregatedNoEmptyInner | metrics-merger/merger.py:58-69 | every percentile of the aggregate holds at least one run |
| Summary.MissingRateAborts | metrics-merger/merger.py:29-34 | the pass over a mesh's aggregate fails exactly when the rate query of some visited run returns no sample, and then the error names the first such run in visiting order |
| Summary.RecordRuns | metrics-merger/merger.py:93-100 | one percentile's runs are observed in order; the cache then holds exactly the runs queried so far with their backend rates; a missing rate stops the loop at that entry with its error |
| Summary.CreateSummaryGauge | metrics-merger/merger.py:74-102 | the gauge has the resolution's name, the mesh's help text and the three label names; it records the observations of the unmemoized pass, or fails exactly when that pass fails, with the error of the run queried last; each rate query is issued at most once, on a run of the aggregate, and on success once per distinct run in first-met order; the counts are the number of percentiles and the runs under the last one |
| Summary.ObservationsOfSpec | metrics-merger/merger.py:90-100 | the unmemoized pass succeeds exactly when every run has a rate; observation `k` then carries entry `k` with its run's rate; otherwise the error names the first run without one |
| Summary.EntriesLookup | metrics-merger/merger.py:90-93 | the (percentile, run, latency) triples the double loop visits are exactly the defined `histograms[perc][run]` lookups |
| Summary.EntriesDistinct | metrics-merger/merger.py:90-100 | no two visited entries share percentile and run, so no `set` overwrites another observation |
| Summary.GaugeValues | metrics-merger/merger.py:90-100 | on success every observation holds the last latency its run reported for its percentile, and that run's requested rate |
| Summary.GaugeComplete | metrics-merger/merger.py:90-100 | on success every (percentile, run) pair that a completed run reported is observed |
| Summary.GaugeLabelsDistinct | metrics-merger/merger.py:90-100 | no two observations of a successful pass share their (percentile, run) labels, so no `set` overwrites another |
| Summary.RunsCountIsLastOnly | metrics-merger/merger.py:86-102 | `runs_count` is at most the number of observations, and equal to it exactly when there is at most one percentile |
| Summary.SummaryRunsCount | metrics-merger/merger.py:86-102 | for the aggregate of a mesh, `runs_count` is at most the number of observations, and equal to it exactly when there is at most one percentile |
| Scenarios.ExampleHistograms | metrics-merger/merger.py:55-71 | for runs r1 (p50 10, p99 50) and r2 (p50 12, p99 40), p50 lists r1 then r2 and p99 lists r2 then r1 |
| Scenarios.ExampleSummary | metrics-merger/merger.py:74-102 | with both rates the gauge gets the four observations in visiting order; `percs_count` is 2, `runs_count` is 2, and two rate queries are issued |
| Scenarios.ExampleRun | metrics-merger/merger.py:74-102 | `create_summary_gauge` on the example with both rates succeeds with four observations, `percs_count` 2 and `runs_count` 2 |
| Scenarios.ExampleFailingRun | metrics-merger/merger.py:94-98 | `create_summary_gauge` on the example without r2's rate fails with r2's missing rate |
| Scenarios.ExampleMissingRate | metrics-merger/merger.py:29-34 | without a rate for r2 the pass fails with r2's missing rate |

## Left out

- The Prometheus HTTP client, `metrics_iter` and JSON decoding are not modelled. A query is answered by the `Source` functions, which give the fields the code reads from the JSON answer.
- The backend is modelled as deterministic. The same query string gets the same answer throughout a pass; a live server could change between queries.
- Transport failures, malformed JSON, a missing `result` field and samples without a `run` or `p` label are not modelled. Only the missing requested rate is an error, `Summary.Error.MissingRate`.
- `float()` parsing of the percentile and latency strings is not modelled. They are reals, compared exactly, so two spellings of one number are one key.
- The requested rate is the value string of the first sample. Its timestamp and any later samples are ignored, as in the code.
- `prometheus_client` is not modelled: the `CollectorRegistry`, the label value formatting of `p`, and `Gauge.labels().set()` as a child store. The gauge is a value holding its name, help text, label names and the sequence of recorded observations. `Summary.EntriesDistinct` shows that no observation overwrites another.
- The command line is not modelled: argument checking, usage text, `putenv`, the client setup, the loop over the three meshes, the progress lines and `push_to_gateway`. All of it is I/O.
- An exception in Python ends the process. Here it is an `Err` result of the call; unpushed meshes and the process exit are not modelled.
- The inner loop of `create_summary_gauge` is the separate method `Summary.RecordRuns`, to keep each proof small. The outer loop stays in `Summary.CreateSummaryGauge`.
- `Summary.CreateSummaryGauge`: the backend does not record the queries it answers. Instead, the ghost out-parameter `queried` gets a run appended next to each `GetRequestedRps` call, so it counts the rate queries the method issues.
- `Queries.RequestedRpsQueryInjective`: holds only for run identifiers without a double quote. A quote inside a run label could make two (mesh, run) pairs share a query.
