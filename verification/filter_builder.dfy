/** The primary search the query tool sends: platform and workload dimension
    groups and a version clause, combined under `bool/filter`. */
module FilterBuilder {
  import opened Strings
  import opened Search

  const PlatformField := "platform.keyword"
  /** Workloads are matched on the `benchmark` field, not on `workload`. */
  const WorkloadField := "benchmark.keyword"
  const VersionQueryPrefix := "ocp_version == "
  const ResultsIndex := "ripsaw-kube-burner*"
  const PageSize := 10000

  /** A search request: target index pattern, page size and query. */
  datatype SearchRequest = SearchRequest(index: string, size: nat, query: Query)

  /** The one-clause group emitted per flag value: a `bool` whose only
      `should` clause is a `match_phrase`, with `minimum_should_match: 1`. */
  function PhraseClause(field: string, value: string): (c: Query)
  {
    Bool([], [MatchPhrase(field, value)], [], AtLeast(1))
  }

  /** The per-value clauses, one for each value, in input order. */
  function PhraseClauses(field: string, values: seq<string>): (cs: seq<Query>)
  {
    if |values| == 0 then [] else [PhraseClause(field, values[0])] + PhraseClauses(field, values[1..])
  }

  /** The outer `should` group of one dimension, `minimum_should_match: 1`. */
  function AnyOf(field: string, values: seq<string>): (g: Query)
  {
    Bool([], PhraseClauses(field, values), [], AtLeast(1))
  }

  function VersionClause(pattern: string): (c: Query)
  {
    QueryString(VersionQueryPrefix + pattern)
  }

  /** The query body built from the raw `platforms`, `workloads` and
      `version` flag values. The nesting is the one `main` writes: an outer
      `bool/filter` holding one `bool/filter` that pairs the platform group
      with a further `bool/filter` of the workload group and the version. */
  function BuildQuery(platforms: string, workloads: string, version: string): (q: Query)
  {
    var pgroup := AnyOf(PlatformField, Split(platforms, ','));
    var wgroup := AnyOf(WorkloadField, Split(workloads, ','));
    Bool([], [], [Bool([], [], [pgroup, Bool([], [], [wgroup, VersionClause(version)], Unset)], Unset)], Unset)
  }

  function PrimarySearch(platforms: string, workloads: string, version: string): (r: SearchRequest)
  {
    SearchRequest(ResultsIndex, PageSize, BuildQuery(platforms, workloads, version))
  }

  /** The flattened form of the query: which documents it selects, stated
      without the query tree. */
  predicate Selected(doc: Doc, platforms: seq<string>, workloads: seq<string>, version: string, qs: QueryStringOracle)
  {
    && PlatformField in doc && doc[PlatformField] in platforms
    && WorkloadField in doc && doc[WorkloadField] in workloads
    && qs(VersionQueryPrefix + version, doc)
  }

  /** One clause per value, in order, each a one-clause `should` group with
      `minimum_should_match: 1` on `field`. */
  lemma {:induction false} PhraseClausesShape(field: string, values: seq<string>)
    ensures |PhraseClauses(field, values)| == |values|
    ensures forall i :: 0 <= i < |values| ==>
      var c := PhraseClauses(field, values)[i];
      && c.Bool? && c.must == [] && c.filter == [] && c.minShould == AtLeast(1)
      && c.should == [MatchPhrase(field, values[i])]
  {
    if |values| > 0 {
      PhraseClausesShape(field, values[1..]);
      var cs := PhraseClauses(field, values);
      assert forall i :: 1 <= i < |values| ==> cs[i] == PhraseClauses(field, values[1..])[i - 1];
    }
  }

  /** A document matches a dimension group exactly when its field holds one
      of the group's values. */
  lemma AnyOfSemantics(field: string, values: seq<string>, doc: Doc, qs: QueryStringOracle)
    requires |values| >= 1
    ensures Matches(AnyOf(field, values), doc, qs) <==> field in doc && doc[field] in values
  {
    var cs := PhraseClauses(field, values);
    PhraseClausesShape(field, values);
    AllMatchIsConjunction([], doc, qs);
    CountMatchesPositive(cs, doc, qs);
    forall i | 0 <= i < |values|
      ensures Matches(cs[i], doc, qs) <==> field in doc && doc[field] == values[i]
    {
      assert CountMatches(cs[i].should, doc, qs) == (if Matches(MatchPhrase(field, values[i]), doc, qs) then 1 else 0);
    }
  }

  /** A flag value becomes one clause per comma-separated piece: commas + 1
      of them, so never zero, in input order, and the pieces the clauses
      test, joined with commas, give back the flag. */
  lemma DimensionGroupFromFlag(field: string, flag: string)
    ensures var g := AnyOf(field, Split(flag, ','));
      && g.Bool? && g.must == [] && g.filter == [] && g.minShould == AtLeast(1)
      && |g.should| == |Split(flag, ',')| == Occurrences(flag, ',') + 1
      && (forall i :: 0 <= i < |g.should| ==> g.should[i] == PhraseClause(field, Split(flag, ',')[i]))
      && Join(Split(flag, ','), ',') == flag
  {
    var vs := Split(flag, ',');
    SplitCount(flag, ',');
    PhraseClausesShape(field, vs);
    JoinSplit(flag, ',');
  }

  /** The built query is the conjunction of the three parts for any flag
      values: the platform is one of the platform pieces, the benchmark is
      one of the workload pieces, and the version query string holds. */
  lemma BuildQuerySemantics(platforms: string, workloads: string, version: string, doc: Doc, qs: QueryStringOracle)
    ensures Matches(BuildQuery(platforms, workloads, version), doc, qs)
        <==> Selected(doc, Split(platforms, ','), Split(workloads, ','), version, qs)
  {
    var pgroup := AnyOf(PlatformField, Split(platforms, ','));
    var wgroup := AnyOf(WorkloadField, Split(workloads, ','));
    AnyOfSemantics(PlatformField, Split(platforms, ','), doc, qs);
    AnyOfSemantics(WorkloadField, Split(workloads, ','), doc, qs);
    var inner := Bool([], [], [wgroup, VersionClause(version)], Unset);
    var middle := Bool([], [], [pgroup, inner], Unset);
    AllMatchIsConjunction([wgroup, VersionClause(version)], doc, qs);
    AllMatchIsConjunction([pgroup, inner], doc, qs);
    AllMatchIsConjunction([middle], doc, qs);
    AllMatchIsConjunction([], doc, qs);
  }
}
