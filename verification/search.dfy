/** The fragment of the OpenSearch query DSL that the query tool builds, as a
    tree rather than as JSON text, together with its matching semantics for a
    single document. */
module Search {

  /** `minimum_should_match`: absent, or an explicit clause count. */
  datatype MinShould = Unset | AtLeast(n: nat)

  datatype Query =
    | Bool(must: seq<Query>, should: seq<Query>, filter: seq<Query>, minShould: MinShould)
    | MatchPhrase(field: string, phrase: string)
    | QueryString(text: string)

  /** An indexed document, as the values of its (keyword) fields. */
  type Doc = map<string, string>

  /** The backend's `query_string` parser, which the model does not reproduce. */
  type QueryStringOracle = (string, Doc) -> bool

  /** How many `should` clauses a `bool` query needs: the explicit
      `minimum_should_match`, otherwise one when the query has nothing but
      `should` clauses and zero when `must` or `filter` clauses are present. */
  function RequiredShould(q: Query): (n: nat)
    requires q.Bool?
  {
    match q.minShould
    case AtLeast(n) => n
    case Unset => if |q.must| + |q.filter| == 0 && |q.should| > 0 then 1 else 0
  }

  /** Whether `doc` matches `q`. A `match_phrase` on a keyword field is an
      exact comparison with the field's value; a missing field never matches.
      A `bool` query without any clause matches every document, whatever its
      `minimum_should_match`. */
  predicate Matches(q: Query, doc: Doc, qs: QueryStringOracle)
  {
    match q
    case MatchPhrase(f, p) => f in doc && doc[f] == p
    case QueryString(t) => qs(t, doc)
    case Bool(must, should, filter, _) =>
      if |must| + |should| + |filter| == 0 then true
      else
      && AllMatch(must, doc, qs)
      && AllMatch(filter, doc, qs)
      && CountMatches(should, doc, qs) >= RequiredShould(q)
  }

  predicate AllMatch(cs: seq<Query>, doc: Doc, qs: QueryStringOracle)
  {
    |cs| == 0 || (Matches(cs[0], doc, qs) && AllMatch(cs[1..], doc, qs))
  }

  function CountMatches(cs: seq<Query>, doc: Doc, qs: QueryStringOracle): (n: nat)
  {
    if |cs| == 0 then 0
    else (if Matches(cs[0], doc, qs) then 1 else 0) + CountMatches(cs[1..], doc, qs)
  }

  /** `filter` and `must` lists are conjunctions. */
  lemma {:induction false} AllMatchIsConjunction(cs: seq<Query>, doc: Doc, qs: QueryStringOracle)
    ensures AllMatch(cs, doc, qs) <==> forall i :: 0 <= i < |cs| ==> Matches(cs[i], doc, qs)
  {
    if |cs| > 0 {
      AllMatchIsConjunction(cs[1..], doc, qs);
      assert forall i :: 1 <= i < |cs| ==> cs[i] == cs[1..][i - 1];
    }
  }

  /** With `minimum_should_match: 1` a `should` list is a disjunction. */
  lemma {:induction false} CountMatchesPositive(cs: seq<Query>, doc: Doc, qs: QueryStringOracle)
    ensures CountMatches(cs, doc, qs) >= 1 <==> exists i :: 0 <= i < |cs| && Matches(cs[i], doc, qs)
  {
    if |cs| > 0 {
      CountMatchesPositive(cs[1..], doc, qs);
      assert forall i :: 1 <= i < |cs| ==> cs[i] == cs[1..][i - 1];
      if exists i :: 0 <= i < |cs| && Matches(cs[i], doc, qs) {
        var i :| 0 <= i < |cs| && Matches(cs[i], doc, qs);
        if i > 0 {
          assert Matches(cs[1..][i - 1], doc, qs);
        }
      }
    }
  }
}
