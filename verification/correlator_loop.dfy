/** The correlator written as query.go's `main` writes it: a loop over the primary
    hits with `continue` on each rejection, and the nested namespace/metric
    loops appending non-empty bucket sets. Each method computes what the
    functions of `Correlator` define. */
module CorrelatorLoop {
  import opened Correlator
  import CorrelatorFacts

  /** The nested loops over namespaces and metric names for one UUID. `log`
      records each metrics search as it is made. */
  method CollectMetrics(ns: seq<string>, metrics: seq<string>, uuid: string, lookup: MetricLookup)
    returns (groups: seq<MetricGroup>, ghost log: seq<Request>)
    ensures groups == MetricGroups(ns, metrics, uuid, lookup)
    ensures log == MetricRequests(ns, metrics, uuid)
  {
    groups := [];
    log := [];
    for a := 0 to |ns|
      invariant groups == MetricGroups(ns[..a], metrics, uuid, lookup)
      invariant log == MetricRequests(ns[..a], metrics, uuid)
    {
      var n := ns[a];
      assert AllButLast(ns[..a + 1]) == ns[..a];
      CorrelatorFacts.MetricRequestsSnoc(ns[..a + 1], metrics, uuid);
      ghost var before := groups;
      ghost var logBefore := log;
      for b := 0 to |metrics|
        invariant groups == before + NamespaceGroups(n, metrics[..b], uuid, lookup)
        invariant log == logBefore + NamespaceRequests(n, metrics[..b], uuid)
      {
        var m := metrics[b];
        assert AllButLast(metrics[..b + 1]) == metrics[..b];
        assert NamespaceRequests(n, metrics[..b + 1], uuid) == NamespaceRequests(n, metrics[..b], uuid) + [MetricsRequest(n, m, uuid)];
        log := log + [MetricsRequest(n, m, uuid)];
        var cm := lookup(n, m, uuid);
        if |cm| > 0 {
          groups := groups + [cm];
        }
      }
      assert metrics[..|metrics|] == metrics;
    }
    assert ns[..|ns|] == ns;
  }

  /** One iteration of the loop over the primary hits, each `continue` of
      `main`'s loop a `return`: the record it appends, if any, and the
      secondary searches it makes, in order. */
  method ProcessHit(v: Hit, ns: seq<string>, metrics: seq<string>, jobs: JobLookup, lookup: MetricLookup)
    returns (appended: seq<Collection>, ghost log: seq<Request>)
    ensures appended == Emitted(CorrelateHit(v, ns, metrics, jobs, lookup))
    ensures log == HitRequests(v, ns, metrics, jobs)
  {
    appended := [];
    log := [];
    if v.result != CompleteStatus {
      return;
    }
    if |v.uuid| < 1 {
      return;
    }
    log := log + [JobSummaryRequest(v.uuid)];
    var js := jobs(v.uuid);
    if |js| == 0 {
      return;
    }
    var c := Collection([], v.uuid, v.timestamp, v.workload, v.version, v.platform,
                        v.nodes, js[0].iterations, js[0].churn, js[0].churnPercent, js[0].churnDuration);
    var groups;
    ghost var metricLog;
    groups, metricLog := CollectMetrics(ns, metrics, v.uuid, lookup);
    log := log + metricLog;
    c := c.(metrics := groups);
    if |c.metrics| > 0 {
      appended := [c];
    }
  }

  /** The loop over the primary hits, building the collection. `log`
      records each secondary search as it is made. */
  method CorrelateLoop(hits: seq<Hit>, ns: seq<string>, metrics: seq<string>, jobs: JobLookup, lookup: MetricLookup)
    returns (col: seq<Collection>, ghost log: seq<Request>)
    ensures col == Correlate(hits, ns, metrics, jobs, lookup)
    ensures log == Trace(hits, ns, metrics, jobs)
  {
    col := [];
    log := [];
    for k := 0 to |hits|
      invariant col == Correlate(hits[..k], ns, metrics, jobs, lookup)
      invariant log == Trace(hits[..k], ns, metrics, jobs)
    {
      var v := hits[k];
      assert hits[..k + 1] == hits[..k] + [v];
      CorrelatorFacts.CorrelateSnoc(hits[..k], v, ns, metrics, jobs, lookup);
      CorrelatorFacts.TraceSnoc(hits[..k], v, ns, metrics, jobs);
      var appended;
      ghost var hitLog;
      appended, hitLog := ProcessHit(v, ns, metrics, jobs, lookup);
      col := col + appended;
      log := log + hitLog;
    }
    assert hits[..|hits|] == hits;
  }
}
