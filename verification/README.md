# tinker query pipeline — Dafny model

A model of the query tool in `query/query.go` of the tinker repository. The
tool looks up kube-burner benchmark runs in OpenSearch and correlates each run
with its job summary and per-container CPU metrics. The model covers the two
pieces of `main` that contain logic:

- **Filter builder** (`FilterBuilder`, on top of `Strings` and `Search`). The
  `platforms` and `workloads` flags are split on `,` like Go's
  `strings.Split`. Each value becomes a one-clause `bool/should` group with a
  `match_phrase` and `minimum_should_match: 1`. Platforms match on
  `platform.keyword` and workloads on `benchmark.keyword`. The values of one
  dimension are wrapped in an outer `should` group, also with minimum 1. The
  platform group, the workload group and the query string
  `ocp_version == <pattern>` are nested under `bool/filter`. The query is a
  tree (`Search.Query`), not JSON text. `Search.Matches` gives it OpenSearch's
  meaning for one document. A `bool` query with no clause at all matches
  every document. The backend's `query_string` parser is an oracle
  parameter.
- **Run correlator** (`Correlator`, `CorrelatorFacts`, `CorrelatorLoop`). It
  folds over the primary hits. The status check comes first, then the UUID
  check. The job-summary search keeps only its first hit. The
  namespace × metric searches run in namespace-major order, and empty bucket
  sets are discarded. A run is accepted only when it has at least one metric
  group. The two secondary searches are function parameters:
  `JobLookup: string -> seq<JobConfig>` and
  `MetricLookup: (namespace, metric, uuid) -> seq<Bucket>`. `DropReason`
  records why a hit was skipped. `HitRequests` and `Trace` list the searches
  issued, in order. `CorrelatorLoop` writes the same computation as the
  source's loops, one iteration per hit with each `continue` an early
  return. It logs every secondary search at the point it is made, and proves
  both the collection and that log equal to the functions.

The records of query/query.go:20-78 become `Correlator.Hit`,
`Correlator.JobConfig`, `Correlator.Bucket`, `Correlator.MetricGroup` (the
buckets of one `ContainerMetrics` response) and `Correlator.Collection`. The
fixed lists of query/query.go:83-86 are `Correlator.Namespaces` and
`Correlator.MetricNames`.

The primary search goes to the index pattern `ripsaw-kube-burner*` with a
page size of 10000 (`FilterBuilder.PrimarySearch`, query/query.go:145-155).

### Behaviour of the code worth noting

- Workloads are matched on `benchmark.keyword`, not on a `workload` field.
- Empty dimension values are not rejected. An empty flag splits to `[""]`
  and gives one clause for the empty string.
- A run dropped for having no metric groups is dropped silently. Only the
  other three drop reasons are logged.

## Model

| member | source | states |
|---|---|---|
| Strings.Split | query/query.go:110-111 | splitting a flag never yields an empty list of values |
| Strings.SplitCount | query/query.go:110-111 | a flag splits into one value more than it has commas |
| Strings.SplitPiecesSepFree | query/query.go:110-111 | no split value contains a comma |
| Strings.JoinSplit | query/query.go:110-111 | joining the split values with commas gives back the flag |
| Strings.SplitJoin | query/query.go:110-111 | splitting the comma-join of comma-free values gives back those values |
| Search.AllMatchIsConjunction | query/query.go:147-149 | a `filter` list matches a document exactly when every clause does (AND) |
| Search.CountMatchesPositive | query/query.go:147-148 | at least one `should` clause matches exactly when some clause matches, so `minimum_should_match: 1` is OR |
| FilterBuilder.PhraseClausesShape | query/query.go:114-143 | one clause per value in input order; each is a `bool` with a single `should` `match_phrase` on the field and `minimum_should_match: 1` |
| FilterBuilder.AnyOfSemantics | query/query.go:114-148 | a dimension group of one or more values (as `Split` always yields) matches exactly when the document's keyword field equals one of the values |
| FilterBuilder.DimensionGroupFromFlag | query/query.go:110-143 | a flag gives commas + 1 clauses (never zero), one per comma-separated piece in input order, and those pieces rejoined with commas are the flag |
| FilterBuilder.BuildQuerySemantics | query/query.go:145-150 | for any flag values, the query matches exactly when the platform is one of the platform values AND the benchmark is one of the workload values AND `ocp_version == <pattern>` holds |
| CorrelatorFacts.KeepNonEmptyFacts | query/query.go:229-231 | discarding empty bucket sets keeps every non-empty set and only those, never adds any, and leaves nothing only when every set is empty |
| CorrelatorFacts.PairsLength | query/query.go:209-210 | the nested loops visit #ns × #metrics pairs |
| CorrelatorFacts.PairsOrder | query/query.go:209-210 | visit number i·#metrics + j is (ns[i], metrics[j]): namespace-major, metric-minor |
| CorrelatorFacts.PairsMembers | query/query.go:209-210 | every visited pair is a namespace from the list and a metric name from the list |
| CorrelatorFacts.PairsCover | query/query.go:209-210 | every (namespace, metric) combination of the two lists is visited |
| CorrelatorFacts.NamespaceGroupsSpec | query/query.go:210-232 | the inner loop appends the non-empty responses for one namespace, metric by metric |
| CorrelatorFacts.MetricGroupsSpec | query/query.go:209-233 | a run's metric groups are exactly the non-empty lookup responses over the cross product, in namespace-major order |
| CorrelatorFacts.MetricGroupsFromLookups | query/query.go:209-233 | every metric group is a non-empty response lookup(n, m, uuid) for a listed namespace n and metric m |
| CorrelatorFacts.MetricGroupsEmpty | query/query.go:209-233 | a run has no metric groups exactly when every (namespace, metric) lookup for its UUID is empty |
| CorrelatorFacts.MetricGroupsFacts | query/query.go:209-233 | at most #ns × #metrics groups, each non-empty and equal to some lookup(n, m, uuid); none exactly when every lookup is empty |
| CorrelatorFacts.MetricGroupsLocal | query/query.go:211-228 | the groups depend on the metric lookup only at the (namespace, metric, uuid) triples searched |
| CorrelatorFacts.RejectedBeforeAnyLookup | query/query.go:166-174 | a non-"Complete" hit is dropped for its status even when its UUID is empty; a "Complete" hit with an empty UUID is dropped for that; neither issues any search nor depends on the lookups |
| CorrelatorFacts.MissingJobSummaryDropped | query/query.go:191-205 | a run whose job-summary search finds nothing is dropped, and only the job-summary search is issued for it |
| CorrelatorFacts.AcceptedIff | query/query.go:166-236 | a hit is accepted exactly when it is "Complete", has a UUID, has a job summary and some (namespace, metric) lookup is non-empty |
| CorrelatorFacts.AcceptedRecord | query/query.go:191-236 | an accepted record copies the hit's fields unchanged, takes its job fields from the first job-summary hit, and holds 1 to #ns × #metrics metric groups in cross-product order |
| CorrelatorFacts.HitRequestsCount | query/query.go:175-228 | a hit issues 0, 1 or 1 + #ns × #metrics searches, all for its own non-empty UUID |
| CorrelatorFacts.CorrelateSound | query/query.go:165-237 | every output record is the accepted outcome of some hit |
| CorrelatorFacts.CorrelateComplete | query/query.go:165-237 | every hit's accepted outcome is in the output |
| CorrelatorFacts.CorrelateMembers | query/query.go:165-237 | a record is in the output exactly when it is the accepted outcome of some hit |
| CorrelatorFacts.AcceptedIndicesFacts | query/query.go:165-236 | the accepted positions are in range, strictly increasing, and exactly the positions whose hit passes every check |
| CorrelatorFacts.CorrelateAlongIndices | query/query.go:165-237 | there are as many records as accepted positions, and record t is the accepted outcome of the hit at the t-th accepted position |
| CorrelatorFacts.CorrelateExact | query/query.go:165-237 | the output is exactly one record per accepted hit, in hit order, duplicates included, and nothing else |
| CorrelatorFacts.DuplicateHitsKept | query/query.go:165-237 | two identical accepted hits give two identical records; the loop appends once per accepted hit and never merges |
| CorrelatorFacts.CorrelateSubsequence | query/query.go:165-237 | the records, read back as hits, are an order-preserving subsequence of the hits, all "Complete"; there are no more records than hits |
| CorrelatorFacts.CorrelateOutputFacts | query/query.go:165-237 | every output record has a non-empty UUID, comes from a hit in the input, carries that UUID's first job summary and its metric groups, and has at least one group |
| CorrelatorFacts.TraceOnlyValidHits | query/query.go:166-188 | every secondary search is for the non-empty UUID of some "Complete" hit |
| CorrelatorFacts.OnlyIssuedSearchesMatter | query/query.go:175-228 | two backends that answer the issued searches alike give the same records and are asked the same searches |
| CorrelatorFacts.SingleRunScenario | query/query.go:165-237 | one complete run with one job summary (50 iterations, churn on) and buckets only for `openshift-etcd` gives one record with those fields and one metric group |
| CorrelatorFacts.MissingJobSummaryScenario | query/query.go:191-205 | one complete run without a job summary gives an empty collection |
| CorrelatorLoop.CollectMetrics | query/query.go:209-233 | the nested namespace/metric loops compute the run's metric groups, and the metrics searches they make are exactly one per (namespace, metric) pair in namespace-major order |
| CorrelatorLoop.ProcessHit | query/query.go:166-236 | one iteration over a hit appends exactly its accepted record, if any, and makes exactly the searches `HitRequests` lists: none for a rejected hit, only the job-summary search when it finds nothing |
| CorrelatorLoop.CorrelateLoop | query/query.go:165-237 | the loop over hits computes the correlated collection, and the searches it makes, in order, are exactly `Trace` |

## Left out

- The OpenSearch client, `ES_URL` handling and every `os.Exit(1)` path
  (query/query.go:96-108, 157-161, 184-188, 222-226) are network and process
  I/O. The backend appears only as the two lookup parameters and the
  query-string oracle.
- The request bodies of the job-summary search (query/query.go:176-178) and
  the metrics aggregation search (query/query.go:211-217) are not modelled.
  `Request` records only their parameters (UUID, namespace, metric name), and
  the lookups stand for their answers.
- JSON decoding of responses (query/query.go:163, 190, 228) is library
  behaviour. Its errors are ignored in the code.
- Flag parsing, logging and the report printing (query/query.go:89-95,
  238-254) are console output. The logged warnings appear only as
  `DropReason` values.
- Timestamp parsing and UTC conversion (query/query.go:206-208, 242-243) are
  left out. The result is only logged and the parse error is ignored.
- Bucket averages are `float32` in the code (query/query.go:42). Here they are
  `real`, and the model never computes on them.
- The exact JSON text built by `fmt.Sprintf`, and its lack of escaping, are
  left out. The model gives the query's structure, not its bytes.
- `query_string` parsing and field analysis belong to the backend.
  `match_phrase` on a `.keyword` field is modelled as exact equality with a
  single-valued field.
- `Collection` keeps each `ContainerMetrics` response as its bucket list.
  That list is the only part the code reads (query/query.go:229, 248).
