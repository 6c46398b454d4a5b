/** Properties of the run correlator: the order and content of a record's
    metric groups, which hits are accepted, what an accepted record holds,
    and which searches are issued. */
module CorrelatorFacts {
  import opened Correlator

  // ---------------------------------------------------------------------
  // Sequence plumbing

  lemma KeepNonEmptyAppend(a: seq<MetricGroup>, b: seq<MetricGroup>)
    ensures KeepNonEmpty(a + b) == KeepNonEmpty(a) + KeepNonEmpty(b)
  {
    if |a| > 0 {
      assert (a + b)[1..] == a[1..] + b;
      KeepNonEmptyAppend(a[1..], b);
    } else {
      assert a + b == b;
    }
  }

  lemma ProbeAppend(a: seq<(string, string)>, b: seq<(string, string)>, uuid: string, lookup: MetricLookup)
    ensures Probe(a + b, uuid, lookup) == Probe(a, uuid, lookup) + Probe(b, uuid, lookup)
  {
  }

  lemma RowSnoc(namespace: string, metrics: seq<string>)
    requires |metrics| > 0
    ensures Row(namespace, metrics) == Row(namespace, AllButLast(metrics)) + [(namespace, Last(metrics))]
  {
  }

  /** `KeepNonEmpty` keeps exactly the non-empty groups: at most as many as it
      is given, each one of them, none empty, and nothing only when all are. */
  lemma {:induction false} KeepNonEmptyFacts(gs: seq<MetricGroup>)
    ensures |KeepNonEmpty(gs)| <= |gs|
    ensures forall g :: g in KeepNonEmpty(gs) <==> g in gs && |g| > 0
    ensures KeepNonEmpty(gs) == [] <==> forall k :: 0 <= k < |gs| ==> gs[k] == []
  {
    if |gs| > 0 {
      KeepNonEmptyFacts(gs[1..]);
      assert gs == [gs[0]] + gs[1..];
      assert forall k :: 1 <= k < |gs| ==> gs[k] == gs[1..][k - 1];
    }
  }

  // ---------------------------------------------------------------------
  // The cross product

  lemma {:induction false} PairsLength(ns: seq<string>, metrics: seq<string>)
    ensures |Pairs(ns, metrics)| == |ns| * |metrics|
  {
    if |ns| > 0 {
      PairsLength(AllButLast(ns), metrics);
      assert |ns| * |metrics| == (|ns| - 1) * |metrics| + |metrics|;
    }
  }

  lemma {:induction false} IndexBelow(i: nat, j: nat, m: nat, f: nat)
    requires i < f && j < m
    ensures i * m + j < f * m
  {
    if i + 1 < f {
      IndexBelow(i, j, m, f - 1);
    }
    assert f * m == (f - 1) * m + m;
  }

  /** Namespace-major, metric-minor: pair `i * |metrics| + j` is
      `(ns[i], metrics[j])`. */
  lemma {:induction false} PairsOrder(ns: seq<string>, metrics: seq<string>, i: nat, j: nat)
    requires i < |ns| && j < |metrics|
    ensures i * |metrics| + j < |Pairs(ns, metrics)|
    ensures Pairs(ns, metrics)[i * |metrics| + j] == (ns[i], metrics[j])
  {
    var front := AllButLast(ns);
    var pf := Pairs(front, metrics);
    var row := Row(Last(ns), metrics);
    PairsLength(ns, metrics);
    PairsLength(front, metrics);
    assert Pairs(ns, metrics) == pf + row;
    IndexBelow(i, j, |metrics|, |ns|);
    if i == |ns| - 1 {
      assert i == |front|;
      assert i * |metrics| == |pf|;
      assert (pf + row)[|pf| + j] == row[j];
    } else {
      IndexBelow(i, j, |metrics|, |front|);
      PairsOrder(front, metrics, i, j);
      assert (pf + row)[i * |metrics| + j] == pf[i * |metrics| + j];
    }
  }

  /** Every pair comes from the two lists. */
  lemma {:induction false} PairsMembers(ns: seq<string>, metrics: seq<string>)
    ensures forall k :: 0 <= k < |Pairs(ns, metrics)| ==> Pairs(ns, metrics)[k].0 in ns && Pairs(ns, metrics)[k].1 in metrics
  {
    if |ns| > 0 {
      var front := AllButLast(ns);
      PairsMembers(front, metrics);
      assert Pairs(ns, metrics) == Pairs(front, metrics) + Row(Last(ns), metrics);
      assert forall n :: n in front ==> n in ns;
    }
  }

  /** Every combination of the two lists is visited. */
  lemma {:induction false} PairsCover(ns: seq<string>, metrics: seq<string>, i: nat, j: nat)
    requires i < |ns| && j < |metrics|
    ensures (ns[i], metrics[j]) in Pairs(ns, metrics)
  {
    var front := AllButLast(ns);
    var row := Row(Last(ns), metrics);
    assert Pairs(ns, metrics) == Pairs(front, metrics) + row;
    if i < |front| {
      PairsCover(front, metrics, i, j);
    } else {
      assert row[j] == (ns[i], metrics[j]);
    }
  }

  // ---------------------------------------------------------------------
  // Metric groups

  lemma {:induction false} NamespaceGroupsSpec(namespace: string, metrics: seq<string>, uuid: string, lookup: MetricLookup)
    ensures NamespaceGroups(namespace, metrics, uuid, lookup) == KeepNonEmpty(Probe(Row(namespace, metrics), uuid, lookup))
  {
    if |metrics| > 0 {
      NamespaceGroupsSpec(namespace, AllButLast(metrics), uuid, lookup);
      RowSnoc(namespace, metrics);
      ProbeAppend(Row(namespace, AllButLast(metrics)), [(namespace, Last(metrics))], uuid, lookup);
      KeepNonEmptyAppend(Probe(Row(namespace, AllButLast(metrics)), uuid, lookup), Probe([(namespace, Last(metrics))], uuid, lookup));
      var g := lookup(namespace, Last(metrics), uuid);
      assert Probe([(namespace, Last(metrics))], uuid, lookup) == [g];
      assert KeepNonEmpty([g]) == (if |g| > 0 then [g] else []);
    }
  }

  /** The nested loops compute the non-empty responses over the cross product,
      in namespace-major order. */
  lemma {:induction false} MetricGroupsSpec(ns: seq<string>, metrics: seq<string>, uuid: string, lookup: MetricLookup)
    ensures MetricGroups(ns, metrics, uuid, lookup) == KeepNonEmpty(Probe(Pairs(ns, metrics), uuid, lookup))
  {
    if |ns| > 0 {
      MetricGroupsSpec(AllButLast(ns), metrics, uuid, lookup);
      NamespaceGroupsSpec(Last(ns), metrics, uuid, lookup);
      ProbeAppend(Pairs(AllButLast(ns), metrics), Row(Last(ns), metrics), uuid, lookup);
      KeepNonEmptyAppend(Probe(Pairs(AllButLast(ns), metrics), uuid, lookup), Probe(Row(Last(ns), metrics), uuid, lookup));
    }
  }

  lemma MetricGroupsFromLookups(ns: seq<string>, metrics: seq<string>, uuid: string, lookup: MetricLookup)
    ensures forall g :: g in MetricGroups(ns, metrics, uuid, lookup) ==>
      |g| > 0 && exists n, m :: n in ns && m in metrics && g == lookup(n, m, uuid)
  {
    var pairs := Pairs(ns, metrics);
    var probe := Probe(pairs, uuid, lookup);
    MetricGroupsSpec(ns, metrics, uuid, lookup);
    KeepNonEmptyFacts(probe);
    PairsMembers(ns, metrics);
    forall g | g in MetricGroups(ns, metrics, uuid, lookup)
      ensures exists n, m :: n in ns && m in metrics && g == lookup(n, m, uuid)
    {
      var k :| 0 <= k < |probe| && probe[k] == g;
      assert g == lookup(pairs[k].0, pairs[k].1, uuid);
    }
  }

  lemma MetricGroupsEmpty(ns: seq<string>, metrics: seq<string>, uuid: string, lookup: MetricLookup)
    ensures MetricGroups(ns, metrics, uuid, lookup) == [] <==>
      forall i, j :: 0 <= i < |ns| && 0 <= j < |metrics| ==> lookup(ns[i], metrics[j], uuid) == []
  {
    var pairs := Pairs(ns, metrics);
    var probe := Probe(pairs, uuid, lookup);
    MetricGroupsSpec(ns, metrics, uuid, lookup);
    KeepNonEmptyFacts(probe);
    PairsMembers(ns, metrics);
    if forall k :: 0 <= k < |probe| ==> probe[k] == [] {
      forall i, j | 0 <= i < |ns| && 0 <= j < |metrics|
        ensures lookup(ns[i], metrics[j], uuid) == []
      {
        PairsCover(ns, metrics, i, j);
        var k :| 0 <= k < |pairs| && pairs[k] == (ns[i], metrics[j]);
        assert probe[k] == lookup(ns[i], metrics[j], uuid);
      }
    } else {
      var k :| 0 <= k < |probe| && probe[k] != [];
      var n, m := pairs[k].0, pairs[k].1;
      var i :| 0 <= i < |ns| && ns[i] == n;
      var j :| 0 <= j < |metrics| && metrics[j] == m;
      assert lookup(ns[i], metrics[j], uuid) != [];
    }
  }

  /** A record's metric groups: at most #ns x #metrics of them, each a
      non-empty lookup response for some (namespace, metric) pair, and none
      at all exactly when every lookup is empty. */
  lemma MetricGroupsFacts(ns: seq<string>, metrics: seq<string>, uuid: string, lookup: MetricLookup)
    ensures |MetricGroups(ns, metrics, uuid, lookup)| <= |ns| * |metrics|
    ensures forall g :: g in MetricGroups(ns, metrics, uuid, lookup) ==>
      |g| > 0 && exists n, m :: n in ns && m in metrics && g == lookup(n, m, uuid)
    ensures MetricGroups(ns, metrics, uuid, lookup) == [] <==>
      forall i, j :: 0 <= i < |ns| && 0 <= j < |metrics| ==> lookup(ns[i], metrics[j], uuid) == []
  {
    MetricGroupsSpec(ns, metrics, uuid, lookup);
    KeepNonEmptyFacts(Probe(Pairs(ns, metrics), uuid, lookup));
    PairsLength(ns, metrics);
    MetricGroupsFromLookups(ns, metrics, uuid, lookup);
    MetricGroupsEmpty(ns, metrics, uuid, lookup);
  }

  /** The groups depend on the lookup only at the pairs of the cross product. */
  lemma MetricGroupsLocal(ns: seq<string>, metrics: seq<string>, uuid: string, l1: MetricLookup, l2: MetricLookup)
    requires forall k :: 0 <= k < |Pairs(ns, metrics)| ==>
      l1(Pairs(ns, metrics)[k].0, Pairs(ns, metrics)[k].1, uuid) == l2(Pairs(ns, metrics)[k].0, Pairs(ns, metrics)[k].1, uuid)
    ensures MetricGroups(ns, metrics, uuid, l1) == MetricGroups(ns, metrics, uuid, l2)
  {
    MetricGroupsSpec(ns, metrics, uuid, l1);
    MetricGroupsSpec(ns, metrics, uuid, l2);
    assert Probe(Pairs(ns, metrics), uuid, l1) == Probe(Pairs(ns, metrics), uuid, l2);
  }

  // ---------------------------------------------------------------------
  // One hit

  /** The status check comes first: a hit that is not "Complete" is dropped
      for its status, even when its UUID is also empty, and one that is
      "Complete" but has no UUID is dropped for that; either way no search is
      issued and the lookups' answers make no difference. */
  lemma RejectedBeforeAnyLookup(hit: Hit, ns: seq<string>, metrics: seq<string>,
                                j1: JobLookup, l1: MetricLookup, j2: JobLookup, l2: MetricLookup)
    requires hit.result != CompleteStatus || hit.uuid == ""
    ensures CorrelateHit(hit, ns, metrics, j1, l1) == CorrelateHit(hit, ns, metrics, j2, l2)
    ensures CorrelateHit(hit, ns, metrics, j1, l1) ==
      Dropped(if hit.result != CompleteStatus then NotComplete(hit.uuid, hit.result) else MissingUuid)
    ensures HitRequests(hit, ns, metrics, j1) == []
  {
  }

  /** A hit whose job-summary search finds nothing is dropped, and no metrics
      search is issued for it. */
  lemma MissingJobSummaryDropped(hit: Hit, ns: seq<string>, metrics: seq<string>, jobs: JobLookup, l1: MetricLookup, l2: MetricLookup)
    requires hit.result == CompleteStatus && hit.uuid != ""
    requires jobs(hit.uuid) == []
    ensures CorrelateHit(hit, ns, metrics, jobs, l1) == CorrelateHit(hit, ns, metrics, jobs, l2) == Dropped(MissingJobSummary(hit.uuid))
    ensures HitRequests(hit, ns, metrics, jobs) == [JobSummaryRequest(hit.uuid)]
  {
  }

  /** When a hit is accepted: exactly when it is "Complete", has a UUID, has a
      job summary and at least one (namespace, metric) lookup is non-empty. */
  lemma AcceptedIff(hit: Hit, ns: seq<string>, metrics: seq<string>, jobs: JobLookup, lookup: MetricLookup)
    ensures CorrelateHit(hit, ns, metrics, jobs, lookup).Accepted? <==>
      && hit.result == CompleteStatus
      && hit.uuid != ""
      && |jobs(hit.uuid)| > 0
      && exists i, j :: 0 <= i < |ns| && 0 <= j < |metrics| && lookup(ns[i], metrics[j], hit.uuid) != []
  {
    MetricGroupsFacts(ns, metrics, hit.uuid, lookup);
  }

  /** What an accepted record holds: the primary hit's fields unchanged, the
      first job-summary hit's configuration, and the non-empty responses over
      namespaces x metrics in namespace-major order, 1 to |ns| x |metrics| of
      them. */
  lemma AcceptedRecord(hit: Hit, ns: seq<string>, metrics: seq<string>, jobs: JobLookup, lookup: MetricLookup)
    requires CorrelateHit(hit, ns, metrics, jobs, lookup).Accepted?
    ensures var r := CorrelateHit(hit, ns, metrics, jobs, lookup).record;
      && hit.result == CompleteStatus && r.uuid != ""
      && Origin(r) == hit
      && |jobs(r.uuid)| > 0
      && r.iterations == jobs(r.uuid)[0].iterations
      && r.churn == jobs(r.uuid)[0].churn
      && r.churnPercent == jobs(r.uuid)[0].churnPercent
      && r.churnDuration == jobs(r.uuid)[0].churnDuration
      && r.metrics == KeepNonEmpty(Probe(Pairs(ns, metrics), r.uuid, lookup))
      && 1 <= |r.metrics| <= |ns| * |metrics|
  {
    MetricGroupsSpec(ns, metrics, hit.uuid, lookup);
    MetricGroupsFacts(ns, metrics, hit.uuid, lookup);
  }

  /** A hit issues no search, only the job-summary search, or that and one
      metrics search per (namespace, metric) pair. */
  lemma HitRequestsCount(hit: Hit, ns: seq<string>, metrics: seq<string>, jobs: JobLookup)
    ensures |HitRequests(hit, ns, metrics, jobs)| ==
      if hit.result != CompleteStatus || hit.uuid == "" then 0
      else if jobs(hit.uuid) == [] then 1
      else 1 + |ns| * |metrics|
    ensures forall q :: q in HitRequests(hit, ns, metrics, jobs) ==>
      hit.result == CompleteStatus && q.uuid == hit.uuid != ""
  {
    PairsLength(ns, metrics);
  }

  // ---------------------------------------------------------------------
  // The loop over hits

  lemma CorrelateSnoc(hits: seq<Hit>, h: Hit, ns: seq<string>, metrics: seq<string>, jobs: JobLookup, lookup: MetricLookup)
    ensures Correlate(hits + [h], ns, metrics, jobs, lookup) ==
      Correlate(hits, ns, metrics, jobs, lookup) + Emitted(CorrelateHit(h, ns, metrics, jobs, lookup))
  {
    assert AllButLast(hits + [h]) == hits;
  }

  /** Every record in the output is the accepted outcome of some hit. */
  lemma {:induction false} CorrelateSound(hits: seq<Hit>, ns: seq<string>, metrics: seq<string>, jobs: JobLookup, lookup: MetricLookup)
    ensures forall r :: r in Correlate(hits, ns, metrics, jobs, lookup) ==>
      exists k :: 0 <= k < |hits| && CorrelateHit(hits[k], ns, metrics, jobs, lookup) == Accepted(r)
  {
    if |hits| > 0 {
      var front := AllButLast(hits);
      var before := Correlate(front, ns, metrics, jobs, lookup);
      var o := CorrelateHit(Last(hits), ns, metrics, jobs, lookup);
      assert Correlate(hits, ns, metrics, jobs, lookup) == before + Emitted(o);
      CorrelateSound(front, ns, metrics, jobs, lookup);
      forall r | r in before + Emitted(o)
        ensures exists k :: 0 <= k < |hits| && CorrelateHit(hits[k], ns, metrics, jobs, lookup) == Accepted(r)
      {
        if r in before {
          var k :| 0 <= k < |front| && CorrelateHit(front[k], ns, metrics, jobs, lookup) == Accepted(r);
          assert hits[k] == front[k];
        } else {
          assert CorrelateHit(hits[|hits| - 1], ns, metrics, jobs, lookup) == Accepted(r);
        }
      }
    }
  }

  /** Every accepted outcome of a hit is in the output. */
  lemma {:induction false} CorrelateComplete(hits: seq<Hit>, ns: seq<string>, metrics: seq<string>, jobs: JobLookup, lookup: MetricLookup, k: nat)
    requires k < |hits| && CorrelateHit(hits[k], ns, metrics, jobs, lookup).Accepted?
    ensures CorrelateHit(hits[k], ns, metrics, jobs, lookup).record in Correlate(hits, ns, metrics, jobs, lookup)
  {
    var front := AllButLast(hits);
    var o := CorrelateHit(Last(hits), ns, metrics, jobs, lookup);
    assert Correlate(hits, ns, metrics, jobs, lookup) == Correlate(front, ns, metrics, jobs, lookup) + Emitted(o);
    if k < |front| {
      assert hits[k] == front[k];
      CorrelateComplete(front, ns, metrics, jobs, lookup, k);
    }
  }

  /** The output is made of accepted outcomes of the hits, and each accepted
      outcome is in it. */
  lemma {:induction false} CorrelateMembers(hits: seq<Hit>, ns: seq<string>, metrics: seq<string>, jobs: JobLookup, lookup: MetricLookup)
    ensures forall r :: r in Correlate(hits, ns, metrics, jobs, lookup) <==>
      exists k :: 0 <= k < |hits| && CorrelateHit(hits[k], ns, metrics, jobs, lookup) == Accepted(r)
  {
    CorrelateSound(hits, ns, metrics, jobs, lookup);
    forall r, k | 0 <= k < |hits| && CorrelateHit(hits[k], ns, metrics, jobs, lookup) == Accepted(r)
      ensures r in Correlate(hits, ns, metrics, jobs, lookup)
    {
      CorrelateComplete(hits, ns, metrics, jobs, lookup, k);
    }
  }

  /** The accepted positions: in range, strictly increasing, and exactly the
      positions whose hit is accepted. */
  lemma {:induction false} AcceptedIndicesFacts(hits: seq<Hit>, ns: seq<string>, metrics: seq<string>, jobs: JobLookup, lookup: MetricLookup)
    ensures var idx := AcceptedIndices(hits, ns, metrics, jobs, lookup);
      && (forall t :: 0 <= t < |idx| ==> idx[t] < |hits|)
      && (forall s, t :: 0 <= s < t < |idx| ==> idx[s] < idx[t])
      && (forall k :: 0 <= k < |hits| ==> (k in idx <==> CorrelateHit(hits[k], ns, metrics, jobs, lookup).Accepted?))
  {
    if |hits| > 0 {
      var front := AllButLast(hits);
      AcceptedIndicesFacts(front, ns, metrics, jobs, lookup);
      var idxf := AcceptedIndices(front, ns, metrics, jobs, lookup);
      var idx := AcceptedIndices(hits, ns, metrics, jobs, lookup);
      var accepted := CorrelateHit(Last(hits), ns, metrics, jobs, lookup).Accepted?;
      assert idx == idxf + (if accepted then [|hits| - 1] else []);
      assert forall k :: 0 <= k < |front| ==> front[k] == hits[k];
      assert |hits| - 1 !in idxf;
    }
  }

  /** Record t of the output is the record of the hit at the t-th accepted
      position, and there are as many records as accepted positions. */
  lemma {:induction false} CorrelateAlongIndices(hits: seq<Hit>, ns: seq<string>, metrics: seq<string>, jobs: JobLookup, lookup: MetricLookup)
    ensures var idx := AcceptedIndices(hits, ns, metrics, jobs, lookup);
      var out := Correlate(hits, ns, metrics, jobs, lookup);
      && |out| == |idx|
      && (forall t :: 0 <= t < |idx| ==>
            (idx[t] < |hits| && CorrelateHit(hits[idx[t]], ns, metrics, jobs, lookup) == Accepted(out[t])))
  {
    if |hits| > 0 {
      var front := AllButLast(hits);
      CorrelateAlongIndices(front, ns, metrics, jobs, lookup);
      var o := CorrelateHit(Last(hits), ns, metrics, jobs, lookup);
      var idxf := AcceptedIndices(front, ns, metrics, jobs, lookup);
      var outf := Correlate(front, ns, metrics, jobs, lookup);
      var idx := AcceptedIndices(hits, ns, metrics, jobs, lookup);
      var out := Correlate(hits, ns, metrics, jobs, lookup);
      assert idx == idxf + (if o.Accepted? then [|hits| - 1] else []);
      assert out == outf + Emitted(o);
      forall t | 0 <= t < |idx|
        ensures idx[t] < |hits| && CorrelateHit(hits[idx[t]], ns, metrics, jobs, lookup) == Accepted(out[t])
      {
        if t < |idxf| {
          assert idx[t] == idxf[t] && out[t] == outf[t];
          assert hits[idx[t]] == front[idxf[t]];
        }
      }
    }
  }

  /** The output exactly: record t is the record of the t-th accepted hit,
      where the accepted positions are listed in increasing order, each
      once, and no other position is listed. So each accepted hit gives its
      own record, duplicates included, and there are as many records as
      accepted hits. */
  lemma {:induction false} CorrelateExact(hits: seq<Hit>, ns: seq<string>, metrics: seq<string>, jobs: JobLookup, lookup: MetricLookup)
    ensures var idx := AcceptedIndices(hits, ns, metrics, jobs, lookup);
      var out := Correlate(hits, ns, metrics, jobs, lookup);
      && (forall t :: 0 <= t < |idx| ==> idx[t] < |hits|)
      && (forall s, t :: 0 <= s < t < |idx| ==> idx[s] < idx[t])
      && (forall k :: 0 <= k < |hits| ==> (k in idx <==> CorrelateHit(hits[k], ns, metrics, jobs, lookup).Accepted?))
      && |out| == |idx|
      && (forall t :: 0 <= t < |idx| ==> CorrelateHit(hits[idx[t]], ns, metrics, jobs, lookup) == Accepted(out[t]))
  {
    AcceptedIndicesFacts(hits, ns, metrics, jobs, lookup);
    CorrelateAlongIndices(hits, ns, metrics, jobs, lookup);
  }

  /** Two identical accepted hits give two identical records: duplicates are
      not merged. */
  lemma DuplicateHitsKept(h: Hit, ns: seq<string>, metrics: seq<string>, jobs: JobLookup, lookup: MetricLookup)
    requires CorrelateHit(h, ns, metrics, jobs, lookup).Accepted?
    ensures var r := CorrelateHit(h, ns, metrics, jobs, lookup).record;
      Correlate([h, h], ns, metrics, jobs, lookup) == [r, r]
  {
    var o := CorrelateHit(h, ns, metrics, jobs, lookup);
    assert AllButLast([h, h]) == [h];
    assert AllButLast([h]) == [];
    assert Correlate([h], ns, metrics, jobs, lookup) == Correlate([], ns, metrics, jobs, lookup) + Emitted(o) == [o.record];
    assert Correlate([h, h], ns, metrics, jobs, lookup) == Correlate([h], ns, metrics, jobs, lookup) + Emitted(o);
  }

  lemma {:induction false} SubsequenceLength<T>(xs: seq<T>, ys: seq<T>)
    requires Subsequence(xs, ys)
    ensures |xs| <= |ys|
    decreases |ys|
  {
    if |xs| > 0 {
      if Last(xs) == Last(ys) && Subsequence(AllButLast(xs), AllButLast(ys)) {
        SubsequenceLength(AllButLast(xs), AllButLast(ys));
      } else {
        SubsequenceLength(xs, AllButLast(ys));
      }
    }
  }

  /** The records, read back as the hits they were built from, are the hits
      with some removed and the order kept; so there are no more records than
      hits, and every record comes from a "Complete" hit. */
  lemma {:induction false} CorrelateSubsequence(hits: seq<Hit>, ns: seq<string>, metrics: seq<string>, jobs: JobLookup, lookup: MetricLookup)
    ensures Subsequence(Origins(Correlate(hits, ns, metrics, jobs, lookup)), hits)
    ensures |Correlate(hits, ns, metrics, jobs, lookup)| <= |hits|
  {
    var out := Correlate(hits, ns, metrics, jobs, lookup);
    if |hits| > 0 {
      var front := AllButLast(hits);
      var before := Correlate(front, ns, metrics, jobs, lookup);
      CorrelateSubsequence(front, ns, metrics, jobs, lookup);
      var o := CorrelateHit(Last(hits), ns, metrics, jobs, lookup);
      if o.Accepted? {
        AcceptedRecord(Last(hits), ns, metrics, jobs, lookup);
        assert Origins(out) == Origins(before) + [Last(hits)];
        assert AllButLast(Origins(out)) == Origins(before);
      } else {
        assert out == before;
        if |out| > 0 {
          assert Subsequence(Origins(out), AllButLast(hits));
        }
      }
    }
    SubsequenceLength(Origins(out), hits);
  }

  /** Every record in the output has a non-empty UUID, came from a "Complete"
      hit with that UUID, carries that UUID's first job summary, and has at
      least one metric group. */
  lemma {:induction false} CorrelateOutputFacts(hits: seq<Hit>, ns: seq<string>, metrics: seq<string>, jobs: JobLookup, lookup: MetricLookup)
    ensures forall r :: r in Correlate(hits, ns, metrics, jobs, lookup) ==>
      && r.uuid != ""
      && Origin(r) in hits
      && |jobs(r.uuid)| > 0
      && r.iterations == jobs(r.uuid)[0].iterations
      && r.churn == jobs(r.uuid)[0].churn
      && r.churnPercent == jobs(r.uuid)[0].churnPercent
      && r.churnDuration == jobs(r.uuid)[0].churnDuration
      && r.metrics == MetricGroups(ns, metrics, r.uuid, lookup)
      && |r.metrics| > 0
  {
    CorrelateMembers(hits, ns, metrics, jobs, lookup);
    forall r | r in Correlate(hits, ns, metrics, jobs, lookup)
      ensures r.uuid != "" && Origin(r) in hits && |jobs(r.uuid)| > 0
      ensures r.iterations == jobs(r.uuid)[0].iterations && r.churn == jobs(r.uuid)[0].churn
      ensures r.churnPercent == jobs(r.uuid)[0].churnPercent && r.churnDuration == jobs(r.uuid)[0].churnDuration
      ensures r.metrics == MetricGroups(ns, metrics, r.uuid, lookup) && |r.metrics| > 0
    {
      var k :| 0 <= k < |hits| && CorrelateHit(hits[k], ns, metrics, jobs, lookup) == Accepted(r);
      AcceptedRecord(hits[k], ns, metrics, jobs, lookup);
    }
  }

  // ---------------------------------------------------------------------
  // The searches issued

  /** Every search after the primary one is for a non-empty UUID of a
      "Complete" hit. */
  lemma {:induction false} TraceOnlyValidHits(hits: seq<Hit>, ns: seq<string>, metrics: seq<string>, jobs: JobLookup)
    ensures forall q :: q in Trace(hits, ns, metrics, jobs) ==>
      q.uuid != "" && exists k :: 0 <= k < |hits| && hits[k].result == CompleteStatus && hits[k].uuid == q.uuid
  {
    if |hits| > 0 {
      var front := AllButLast(hits);
      TraceOnlyValidHits(front, ns, metrics, jobs);
      HitRequestsCount(Last(hits), ns, metrics, jobs);
      assert forall k :: 0 <= k < |front| ==> front[k] == hits[k];
      forall q | q in Trace(hits, ns, metrics, jobs)
        ensures q.uuid != "" && exists k :: 0 <= k < |hits| && hits[k].result == CompleteStatus && hits[k].uuid == q.uuid
      {
        if q in HitRequests(Last(hits), ns, metrics, jobs) {
          assert hits[|hits| - 1].uuid == q.uuid;
        } else {
          assert q in Trace(front, ns, metrics, jobs);
        }
      }
    }
  }

  lemma MetricRequestsMembers(ns: seq<string>, metrics: seq<string>, uuid: string)
    ensures forall k :: 0 <= k < |Pairs(ns, metrics)| ==>
      MetricsRequest(Pairs(ns, metrics)[k].0, Pairs(ns, metrics)[k].1, uuid) in MetricRequests(ns, metrics, uuid)
  {
    var rs := MetricRequests(ns, metrics, uuid);
    forall k | 0 <= k < |Pairs(ns, metrics)|
      ensures MetricsRequest(Pairs(ns, metrics)[k].0, Pairs(ns, metrics)[k].1, uuid) in rs
    {
      assert rs[k] == MetricsRequest(Pairs(ns, metrics)[k].0, Pairs(ns, metrics)[k].1, uuid);
    }
  }

  /** The metrics searches of a run are those of the earlier namespaces
      followed by those of the last one. */
  lemma MetricRequestsSnoc(ns: seq<string>, metrics: seq<string>, uuid: string)
    requires |ns| > 0
    ensures MetricRequests(ns, metrics, uuid) == MetricRequests(AllButLast(ns), metrics, uuid) + NamespaceRequests(Last(ns), metrics, uuid)
  {
    var pf := Pairs(AllButLast(ns), metrics);
    var row := Row(Last(ns), metrics);
    assert Pairs(ns, metrics) == pf + row;
    var lhs := MetricRequests(ns, metrics, uuid);
    var rhs := MetricRequests(AllButLast(ns), metrics, uuid) + NamespaceRequests(Last(ns), metrics, uuid);
    assert |lhs| == |rhs|;
    forall k | 0 <= k < |lhs|
      ensures lhs[k] == rhs[k]
    {
      if k >= |pf| {
        assert (pf + row)[k] == row[k - |pf|];
      }
    }
  }

  lemma TraceSnoc(hits: seq<Hit>, h: Hit, ns: seq<string>, metrics: seq<string>, jobs: JobLookup)
    ensures Trace(hits + [h], ns, metrics, jobs) == Trace(hits, ns, metrics, jobs) + HitRequests(h, ns, metrics, jobs)
  {
    assert AllButLast(hits + [h]) == hits;
  }

  /** The output depends on the secondary searches only through the searches
      actually issued: two backends that answer those alike give the same
      records and are asked the same searches. */
  lemma {:induction false} OnlyIssuedSearchesMatter(hits: seq<Hit>, ns: seq<string>, metrics: seq<string>,
                                                    j1: JobLookup, l1: MetricLookup, j2: JobLookup, l2: MetricLookup)
    requires forall u :: JobSummaryRequest(u) in Trace(hits, ns, metrics, j1) ==> j1(u) == j2(u)
    requires forall n, m, u :: MetricsRequest(n, m, u) in Trace(hits, ns, metrics, j1) ==> l1(n, m, u) == l2(n, m, u)
    ensures Correlate(hits, ns, metrics, j1, l1) == Correlate(hits, ns, metrics, j2, l2)
    ensures Trace(hits, ns, metrics, j1) == Trace(hits, ns, metrics, j2)
  {
    if |hits| > 0 {
      var front := AllButLast(hits);
      var h := Last(hits);
      var t := Trace(hits, ns, metrics, j1);
      assert forall q :: q in Trace(front, ns, metrics, j1) ==> q in t;
      OnlyIssuedSearchesMatter(front, ns, metrics, j1, l1, j2, l2);
      var hr := HitRequests(h, ns, metrics, j1);
      assert forall q :: q in hr ==> q in t;
      if h.result == CompleteStatus && |h.uuid| >= 1 {
        assert JobSummaryRequest(h.uuid) in hr;
        assert j1(h.uuid) == j2(h.uuid);
        if |j1(h.uuid)| > 0 {
          MetricRequestsMembers(ns, metrics, h.uuid);
          forall k | 0 <= k < |Pairs(ns, metrics)|
            ensures l1(Pairs(ns, metrics)[k].0, Pairs(ns, metrics)[k].1, h.uuid) == l2(Pairs(ns, metrics)[k].0, Pairs(ns, metrics)[k].1, h.uuid)
          {
            assert MetricsRequest(Pairs(ns, metrics)[k].0, Pairs(ns, metrics)[k].1, h.uuid) in hr;
          }
          MetricGroupsLocal(ns, metrics, h.uuid, l1, l2);
        }
      }
    }
  }

  // ---------------------------------------------------------------------
  // A worked scenario

  /** One "Complete" run `abc-123` with one job summary (50 iterations, churn
      on) and buckets only for `openshift-etcd` yields exactly one record with
      those job fields and one metric group. */
  lemma SingleRunScenario(jobs: JobLookup, lookup: MetricLookup, b: Bucket)
    requires jobs("abc-123") == [JobConfig(50, true, 10, 600)]
    requires forall n, m :: lookup(n, m, "abc-123") == (if n == "openshift-etcd" then [b] else [])
    ensures var hit := Hit("abc-123", "1700000000000", "cluster-density", "4.12.0", "AWS", 3, "Complete");
      var out := CorrelateRuns([hit], jobs, lookup);
      && |out| == 1
      && out[0].uuid == "abc-123" && out[0].iterations == 50 && out[0].churn
      && out[0].metrics == [[b]]
  {
    var hit := Hit("abc-123", "1700000000000", "cluster-density", "4.12.0", "AWS", 3, "Complete");
    assert Correlate([hit], Namespaces, MetricNames, jobs, lookup) == Emitted(CorrelateHit(hit, Namespaces, MetricNames, jobs, lookup));
    assert NamespaceGroups("openshift-etcd", MetricNames, "abc-123", lookup) == [[b]];
    assert NamespaceGroups("openshift-apiserver", MetricNames, "abc-123", lookup) == [];
    assert NamespaceGroups("openshift-ovn-kubernetes", MetricNames, "abc-123", lookup) == [];
    assert MetricGroups(Namespaces[..1], MetricNames, "abc-123", lookup) == [[b]];
    assert MetricGroups(Namespaces[..2], MetricNames, "abc-123", lookup) == [[b]];
  }

  /** A "Complete" run whose job-summary search finds nothing yields no record. */
  lemma MissingJobSummaryScenario(jobs: JobLookup, lookup: MetricLookup)
    requires jobs("abc-123") == []
    ensures CorrelateRuns([Hit("abc-123", "1700000000000", "cluster-density", "4.12.0", "AWS", 3, "Complete")], jobs, lookup) == []
  {
    var hit := Hit("abc-123", "1700000000000", "cluster-density", "4.12.0", "AWS", 3, "Complete");
    assert Correlate([hit], Namespaces, MetricNames, jobs, lookup) == Emitted(CorrelateHit(hit, Namespaces, MetricNames, jobs, lookup));
  }
}
