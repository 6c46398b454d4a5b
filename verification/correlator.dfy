/** The run correlator: for each primary hit, a status check, a UUID check,
    the job-summary lookup and the per-(namespace, metric) container-metrics
    lookups, yielding one denormalised record per accepted run. The two
    secondary searches are parameters of the model. */
module Correlator {

  /** One primary hit's `_source`. */
  datatype Hit = Hit(uuid: string, timestamp: string, workload: string, version: string,
                     platform: string, nodes: int, result: string)

  /** The `jobConfig` of one job-summary hit. */
  datatype JobConfig = JobConfig(iterations: int, churn: bool, churnPercent: int, churnDuration: int)

  /** One terms-aggregation bucket: container name and its average value. */
  datatype Bucket = Bucket(name: string, average: real)

  /** The buckets of one (namespace, metric) aggregation response. */
  type MetricGroup = seq<Bucket>

  /** One report row. */
  datatype Collection = Collection(
    metrics: seq<MetricGroup>,
    uuid: string, timestamp: string, workload: string, version: string, platform: string,
    nodes: int, iterations: int, churn: bool, churnPercent: int, churnDuration: int)

  /** The job-summary search for a UUID: its hits, in the backend's order. */
  type JobLookup = string -> seq<JobConfig>

  /** The container-metrics search for (namespace, metric name, UUID): its buckets. */
  type MetricLookup = (string, string, string) -> seq<Bucket>

  const CompleteStatus := "Complete"

  /** The namespaces and metric names the tool aggregates over. */
  const Namespaces: seq<string> := ["openshift-etcd", "openshift-apiserver", "openshift-ovn-kubernetes"]
  const MetricNames: seq<string> := ["containerCPU-Masters"]

  /** Why a hit was skipped; `main` logs a warning for the first three. */
  datatype DropReason =
    | NotComplete(uuid: string, result: string)
    | MissingUuid
    | MissingJobSummary(uuid: string)
    | NoMetrics(uuid: string)

  datatype Outcome = Accepted(record: Collection) | Dropped(reason: DropReason)

  /** A search issued on behalf of one hit. */
  datatype Request =
    | JobSummaryRequest(uuid: string)
    | MetricsRequest(namespace: string, metric: string, uuid: string)

  function Last<T>(s: seq<T>): (x: T)
    requires |s| > 0
  {
    s[|s| - 1]
  }

  function AllButLast<T>(s: seq<T>): (front: seq<T>)
    requires |s| > 0
  {
    s[..|s| - 1]
  }

  /** The inner loop: the non-empty bucket sets of `namespace` for each metric
      name in order. */
  function NamespaceGroups(namespace: string, metrics: seq<string>, uuid: string, lookup: MetricLookup): (groups: seq<MetricGroup>)
  {
    if |metrics| == 0 then []
    else
      var g := lookup(namespace, Last(metrics), uuid);
      NamespaceGroups(namespace, AllButLast(metrics), uuid, lookup) + (if |g| > 0 then [g] else [])
  }

  /** The outer loop: namespace by namespace, the inner loop's groups appended. */
  function MetricGroups(ns: seq<string>, metrics: seq<string>, uuid: string, lookup: MetricLookup): (groups: seq<MetricGroup>)
  {
    if |ns| == 0 then []
    else MetricGroups(AllButLast(ns), metrics, uuid, lookup) + NamespaceGroups(Last(ns), metrics, uuid, lookup)
  }

  /** One iteration of the loop over primary hits. */
  function CorrelateHit(hit: Hit, ns: seq<string>, metrics: seq<string>, jobs: JobLookup, lookup: MetricLookup): (o: Outcome)
  {
    if hit.result != CompleteStatus then Dropped(NotComplete(hit.uuid, hit.result))
    else if |hit.uuid| < 1 then Dropped(MissingUuid)
    else
      var js := jobs(hit.uuid);
      if |js| == 0 then Dropped(MissingJobSummary(hit.uuid))
      else
        var groups := MetricGroups(ns, metrics, hit.uuid, lookup);
        if |groups| == 0 then Dropped(NoMetrics(hit.uuid))
        else
          var job := js[0];
          Accepted(Collection(groups, hit.uuid, hit.timestamp, hit.workload, hit.version, hit.platform,
                              hit.nodes, job.iterations, job.churn, job.churnPercent, job.churnDuration))
  }

  function Emitted(o: Outcome): (rs: seq<Collection>)
  {
    if o.Accepted? then [o.record] else []
  }

  /** The whole loop: the collection `col` in the order the hits come. */
  function Correlate(hits: seq<Hit>, ns: seq<string>, metrics: seq<string>, jobs: JobLookup, lookup: MetricLookup): (col: seq<Collection>)
  {
    if |hits| == 0 then []
    else Correlate(AllButLast(hits), ns, metrics, jobs, lookup) + Emitted(CorrelateHit(Last(hits), ns, metrics, jobs, lookup))
  }

  /** The positions of the hits that are accepted, in increasing order. */
  function AcceptedIndices(hits: seq<Hit>, ns: seq<string>, metrics: seq<string>, jobs: JobLookup, lookup: MetricLookup): (idx: seq<nat>)
  {
    if |hits| == 0 then []
    else
      AcceptedIndices(AllButLast(hits), ns, metrics, jobs, lookup)
      + (if CorrelateHit(Last(hits), ns, metrics, jobs, lookup).Accepted? then [|hits| - 1] else [])
  }

  /** The correlation with the tool's fixed namespace and metric lists. */
  function CorrelateRuns(hits: seq<Hit>, jobs: JobLookup, lookup: MetricLookup): (col: seq<Collection>)
  {
    Correlate(hits, Namespaces, MetricNames, jobs, lookup)
  }

  /** The searches issued while processing one hit, in order. */
  function HitRequests(hit: Hit, ns: seq<string>, metrics: seq<string>, jobs: JobLookup): (rs: seq<Request>)
  {
    if hit.result != CompleteStatus || |hit.uuid| < 1 then []
    else if |jobs(hit.uuid)| == 0 then [JobSummaryRequest(hit.uuid)]
    else [JobSummaryRequest(hit.uuid)] + MetricRequests(ns, metrics, hit.uuid)
  }

  function MetricRequests(ns: seq<string>, metrics: seq<string>, uuid: string): (rs: seq<Request>)
  {
    seq(|Pairs(ns, metrics)|, k requires 0 <= k < |Pairs(ns, metrics)| => MetricsRequest(Pairs(ns, metrics)[k].0, Pairs(ns, metrics)[k].1, uuid))
  }

  /** The metrics searches of one namespace, in metric order. */
  function NamespaceRequests(namespace: string, metrics: seq<string>, uuid: string): (rs: seq<Request>)
  {
    seq(|metrics|, j requires 0 <= j < |metrics| => MetricsRequest(namespace, metrics[j], uuid))
  }

  /** All searches issued after the primary one, in order. */
  function Trace(hits: seq<Hit>, ns: seq<string>, metrics: seq<string>, jobs: JobLookup): (rs: seq<Request>)
  {
    if |hits| == 0 then [] else Trace(AllButLast(hits), ns, metrics, jobs) + HitRequests(Last(hits), ns, metrics, jobs)
  }

  // ---------------------------------------------------------------------
  // Reference definitions

  /** One namespace's row of the cross product. */
  function Row(namespace: string, metrics: seq<string>): (row: seq<(string, string)>)
  {
    seq(|metrics|, j requires 0 <= j < |metrics| => (namespace, metrics[j]))
  }

  /** The cross product namespaces x metrics, namespace-major. */
  function Pairs(ns: seq<string>, metrics: seq<string>): (pairs: seq<(string, string)>)
  {
    if |ns| == 0 then [] else Pairs(AllButLast(ns), metrics) + Row(Last(ns), metrics)
  }

  /** The aggregation response for each pair. */
  function Probe(pairs: seq<(string, string)>, uuid: string, lookup: MetricLookup): (responses: seq<MetricGroup>)
  {
    seq(|pairs|, k requires 0 <= k < |pairs| => lookup(pairs[k].0, pairs[k].1, uuid))
  }

  /** The non-empty groups, in order. */
  function KeepNonEmpty(gs: seq<MetricGroup>): (kept: seq<MetricGroup>)
  {
    if |gs| == 0 then []
    else (if |gs[0]| > 0 then [gs[0]] else []) + KeepNonEmpty(gs[1..])
  }

  /** The hit a record was built from: the copied fields, with the status the
      record's acceptance implies. */
  function Origin(r: Collection): (h: Hit)
  {
    Hit(r.uuid, r.timestamp, r.workload, r.version, r.platform, r.nodes, CompleteStatus)
  }

  function Origins(rs: seq<Collection>): (hs: seq<Hit>)
  {
    seq(|rs|, k requires 0 <= k < |rs| => Origin(rs[k]))
  }

  /** `xs` is `ys` with some elements removed, order kept. */
  predicate Subsequence<T(==)>(xs: seq<T>, ys: seq<T>)
    decreases |ys|
  {
    if |xs| == 0 then true
    else if |ys| == 0 then false
    else (Last(xs) == Last(ys) && Subsequence(AllButLast(xs), AllButLast(ys))) || Subsequence(xs, AllButLast(ys))
  }
}
