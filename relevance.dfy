/**
 * `filter_graph_by_query` (app.py:96-130): after the crawl, keep only the
 * pages whose lower-cased body contains every lower-cased, whitespace
 * separated word of the query, with the edges between them.
 */
module Relevance {
  import opened Text
  import opened PageGraph

  /** `query.strip().lower()`: the query without its surrounding
      whitespace, lower-cased; blank exactly when the query is all
      whitespace. */
  function QueryText(query: string): (q: string)
    ensures exists a | 0 <= a <= |query| - |q| ::
      q == Lower(query[a..a + |q|]) && AllSpace(query[..a]) && AllSpace(query[a + |q|..])
    ensures q == [] <==> AllSpace(query)
    ensures q != [] ==> !IsSpace(q[0]) && !IsSpace(q[|q| - 1])
  {
    var r := Strip(query);
    StripEmptyIff(query);
    if r == [] then Lower(r)
    else
      LowerCharSpace(r[0]);
      LowerCharSpace(r[|r| - 1]);
      Lower(r)
  }

  /** `query_lower.split()`: the terms are exactly the maximal runs of
      non-whitespace characters of the lower-cased, stripped query. */
  function Terms(query: string): (terms: seq<string>)
    ensures Words(terms)
    ensures forall w :: w in terms <==>
      exists i, j :: WordAt(QueryText(query), i, j) && QueryText(query)[i..j] == w
  {
    var q := QueryText(query);
    SplitWords(q);
    assert forall w :: w in Split(q) <==> exists i, j :: WordAt(q, i, j) && q[i..j] == w by {
      forall w ensures w in Split(q) <==> exists i, j :: WordAt(q, i, j) && q[i..j] == w {
        SplitIsWords(q, w);
      }
    }
    Split(q)
  }

  /** `all(term in html_content for term in query_terms)` with
      `html_content = html.lower()`. */
  predicate Matches(html: string, terms: seq<string>) {
    forall k | 0 <= k < |terms| :: IsSubstring(terms[k], Lower(html))
  }

  /** A body matches the terms of a query exactly when it contains every
      maximal run of non-whitespace characters of the lower-cased query. */
  lemma MatchesEveryWord(html: string, query: string)
    ensures var q := QueryText(query);
      Matches(html, Terms(query)) <==>
      forall i, j | WordAt(q, i, j) :: IsSubstring(q[i..j], Lower(html))
  {
    var q := QueryText(query);
    var terms := Terms(query);
    if Matches(html, terms) {
      forall i, j | WordAt(q, i, j) ensures IsSubstring(q[i..j], Lower(html)) {
        SplitIsWords(q, q[i..j]);
        var k :| 0 <= k < |terms| && terms[k] == q[i..j];
      }
    }
    if forall i, j | WordAt(q, i, j) :: IsSubstring(q[i..j], Lower(html)) {
      forall k | 0 <= k < |terms| ensures IsSubstring(terms[k], Lower(html)) {
        SplitIsWords(q, terms[k]);
      }
    }
  }

  /** Node `n` has an `html` attribute whose body contains every term. */
  predicate Relevant(g: Graph, terms: seq<string>, n: Url) {
    n in g.html && Matches(g.html[n], terms)
  }

  function RelevantNodes(g: Graph, terms: seq<string>): set<Url> {
    set n | n in g.nodes && Relevant(g, terms, n)
  }

  /** The subgraph induced by the nodes whose body contains every term, or
      a fresh empty graph when there is none (app.py:113-130). */
  function Kept(g: Graph, terms: seq<string>): (r: Graph)
    ensures r.Valid()
    ensures r.nodes <= g.nodes && r.edges <= g.edges
  {
    var sub := g.Induced(RelevantNodes(g, terms));
    if sub.nodes == {} then Empty else sub
  }

  /** What `filter_graph_by_query` returns: the graph itself for a blank
      query, otherwise the relevant part of it. */
  function Filtered(g: Graph, query: string): (r: Graph)
    ensures g.Valid() ==> r.Valid()
    ensures r.nodes <= g.nodes && r.edges <= g.edges
  {
    if QueryText(query) == [] then g else Kept(g, Terms(query))
  }

  /** app.py:108-130, with the loop over `G.nodes` taking the nodes in an
      unspecified order. */
  method FilterGraphByQuery(g: Graph, query: string) returns (r: Graph)
    ensures r == Filtered(g, query)
  {
    var queryLower := Lower(Strip(query));
    if queryLower == [] {
      return g;
    }
    var terms := Split(queryLower);
    var relevant: set<Url> := {};
    var rest := g.nodes;
    while rest != {}
      invariant rest <= g.nodes
      invariant forall n :: n in relevant <==> n in g.nodes && n !in rest && Relevant(g, terms, n)
      decreases |rest|
    {
      var n :| n in rest;
      if n in g.html {
        var htmlContent := Lower(g.html[n]);
        if forall k | 0 <= k < |terms| :: IsSubstring(terms[k], htmlContent) {
          relevant := relevant + {n};
        }
      }
      rest := rest - {n};
    }
    assert relevant == RelevantNodes(g, terms);
    r := g.Induced(relevant);
    if r.nodes == {} {
      r := Empty;
    }
  }

  // ------------------------------------------------------------ properties

  /** The query is blank exactly when it is all whitespace, and exactly when
      it has no terms. */
  lemma BlankIff(query: string)
    ensures QueryText(query) == [] <==> AllSpace(query)
    ensures Terms(query) == [] <==> AllSpace(query)
  {
    StripEmptyIff(query);
    var s := Strip(query);
    SplitEmptyIff(Lower(s));
    LowerKeepsSpace(s);
    if s != [] {
      assert !IsSpace(s[0]);
      assert !AllSpace(s);
    }
  }

  /** A blank query returns the graph unchanged. */
  lemma BlankQueryKeepsGraph(g: Graph, query: string)
    requires AllSpace(query)
    ensures Filtered(g, query) == g
  {
    BlankIff(query);
  }

  /** A non-blank query keeps exactly the nodes whose body contains every
      term, with their attributes, and exactly the edges of the graph between
      kept nodes. */
  lemma FilteredIsInducedSubgraph(g: Graph, query: string)
    requires !AllSpace(query)
    ensures var r := Filtered(g, query);
      && (forall n :: n in r.nodes <==> n in g.nodes && n in g.html && Matches(g.html[n], Terms(query)))
      && (forall e :: e in r.edges <==> e in g.edges && e.0 in r.nodes && e.1 in r.nodes)
      && (forall n | n in r.nodes :: n in r.html && r.html[n] == g.html[n])
      && (forall n :: n in r.domain <==> n in g.domain && n in r.nodes)
      && (forall n | n in r.domain :: r.domain[n] == g.domain[n])
  {
    BlankIff(query);
    KeptIsInduced(g, Terms(query));
  }

  /** The relevant part of the graph is the subgraph induced by the relevant
      nodes, also when there is none. */
  lemma KeptIsInduced(g: Graph, terms: seq<string>)
    ensures var r := Kept(g, terms);
      && (forall n :: n in r.nodes <==> n in g.nodes && n in g.html && Matches(g.html[n], terms))
      && (forall e :: e in r.edges <==> e in g.edges && e.0 in r.nodes && e.1 in r.nodes)
      && (forall n | n in r.nodes :: n in r.html && r.html[n] == g.html[n])
      && (forall n :: n in r.domain <==> n in g.domain && n in r.nodes)
      && (forall n | n in r.domain :: r.domain[n] == g.domain[n])
  {
    var sub := g.Induced(RelevantNodes(g, terms));
    if sub.nodes == {} {
      assert sub.html == map[] && sub.domain == map[] && sub.edges == {};
      assert Kept(g, terms) == sub;
    }
  }

  /** When no node qualifies, the result is the empty graph. */
  lemma NoneRelevantGivesEmpty(g: Graph, query: string)
    requires !AllSpace(query)
    requires forall n | n in g.nodes :: !Relevant(g, Terms(query), n)
    ensures Filtered(g, query) == Empty
  {
    BlankIff(query);
    assert RelevantNodes(g, Terms(query)) == {};
  }

  /** Keeping the relevant part twice is keeping it once: every kept node
      keeps the body that made it relevant. */
  lemma KeptIdempotent(g: Graph, terms: seq<string>)
    ensures Kept(Kept(g, terms), terms) == Kept(g, terms)
  {
    var r := Kept(g, terms);
    var r2 := Kept(r, terms);
    KeptIsInduced(g, terms);
    KeptIsInduced(r, terms);
    assert r2.nodes == r.nodes by {
      forall n | n in r.nodes ensures n in r.html && Matches(r.html[n], terms) {
        assert r.html[n] == g.html[n];
      }
    }
    assert r2.html == r.html;
    assert r2.domain == r.domain;
    assert r2.edges == r.edges;
  }

  /** Filtering twice by the same query is filtering once. */
  lemma FilterIdempotent(g: Graph, query: string)
    ensures Filtered(Filtered(g, query), query) == Filtered(g, query)
  {
    if QueryText(query) != [] {
      KeptIdempotent(g, Terms(query));
    }
  }
}
