/**
 * `crawl_and_build_graph` (app.py): a breadth-first crawl from the seed URLs
 * over a FIFO frontier of (url, depth) entries, bounded by a page budget and a
 * depth limit, building the page graph as it goes.
 *
 * The network and the HTML parser are oracles (`Web`): `fetch` gives the final
 * URL after redirects and the body of a successful HTML response, or None;
 * `hrefs` gives the href attributes of a body's anchors; `join` is urljoin;
 * `domainOf` is the registrable-domain function.
 */
module Crawler {
  import opened Basics
  import opened Urls
  import opened PageGraph

  const MaxSeeds := 15
  const MaxPages := 50
  const MaxOutlinksPerPage := 10
  const CrawlDepth := 3

  /** What a successful fetch returns: `(resp.url, resp.text)`. */
  datatype Page = Page(finalUrl: Url, html: string)

  datatype Web = Web(
    fetch: Url -> Option<Page>,
    hrefs: string -> seq<string>,
    join: (Url, string) -> Url,
    domainOf: Url -> string)

  /** A frontier entry `(url, depth)`. */
  datatype Entry = Entry(url: Url, depth: nat)

  /** What one turn of the crawl loop did with the entry it popped. */
  datatype Outcome =
    | Skipped                                  // already visited, or too deep
    | FetchFailed                              // fetch returned None
    | Fetched(page: Page, outlinks: seq<Url>)  // page added, with these outlinks

  /** The seeds the crawl starts from: `seed_urls[:MAX_SEEDS]`. */
  function Seeds(seeds: seq<Url>): (kept: seq<Url>)
    ensures |kept| == Min(|seeds|, MaxSeeds) && kept <= seeds
    ensures |seeds| <= MaxSeeds ==> kept == seeds
  {
    seeds[..Min(|seeds|, MaxSeeds)]
  }

  function SeedEntries(urls: seq<Url>): (entries: seq<Entry>)
    ensures |entries| == |urls|
    ensures forall j | 0 <= j < |urls| :: entries[j] == Entry(urls[j], 0)
  {
    if urls == [] then [] else [Entry(urls[0], 0)] + SeedEntries(urls[1..])
  }

  /** `[(u, 0) for u in seed_urls[:MAX_SEEDS]]`: at most MAX_SEEDS entries,
      all at depth 0, in the order the seeds were given. */
  function InitialFrontier(seeds: seq<Url>): (frontier: seq<Entry>)
    ensures |frontier| <= MaxSeeds
    ensures |frontier| == Min(|seeds|, MaxSeeds)
    ensures forall j | 0 <= j < |frontier| :: frontier[j] == Entry(seeds[j], 0)
  {
    SeedEntries(Seeds(seeds))
  }

  /** The node a queued URL becomes when its fetch succeeds: the URL the
      redirects ended at, cut at its first '#'. */
  function NodeOf(web: Web, url: Url): (node: Option<Url>)
    ensures node.Some? <==> web.fetch(url).Some?
    ensures node.Some? ==> '#' !in node.value && node.value <= web.fetch(url).value.finalUrl
    ensures node.Some? && |node.value| < |web.fetch(url).value.finalUrl| ==>
      web.fetch(url).value.finalUrl[|node.value|] == '#'
  {
    match web.fetch(url)
    case Some(p) => Some(NormalizeUrl(p.finalUrl))
    case None => None
  }

  /** The entries `for l in outlinks: if l not in visited: frontier.append((l, depth))` appends:
      exactly the unvisited outlinks, at the given depth. */
  function Enqueued(outlinks: seq<Url>, visited: set<Url>, depth: nat): (added: seq<Entry>)
    ensures |added| <= |outlinks|
    ensures forall j | 0 <= j < |added| :: added[j].depth == depth && added[j].url in outlinks && added[j].url !in visited
    ensures forall l | l in outlinks && l !in visited :: Entry(l, depth) in added
  {
    if outlinks == [] then []
    else
      var last := outlinks[|outlinks| - 1];
      Enqueued(outlinks[..|outlinks| - 1], visited, depth) + (if last !in visited then [Entry(last, depth)] else [])
  }

  /** The URLs of `added` occur in `outlinks` in the same order. */
  ghost predicate InOrder(outlinks: seq<Url>, added: seq<Entry>) {
    forall i, j | 0 <= i < j < |added| :: Before(outlinks, added[i].url, added[j].url)
  }

  /** `a` occurs in `outlinks` before `b`. */
  ghost predicate Before(outlinks: seq<Url>, a: Url, b: Url) {
    exists p, q | 0 <= p < q < |outlinks| :: outlinks[p] == a && outlinks[q] == b
  }

  /** The queued entries follow the order of the outlinks. */
  lemma {:induction false} EnqueuedInOrder(outlinks: seq<Url>, visited: set<Url>, depth: nat)
    ensures InOrder(outlinks, Enqueued(outlinks, visited, depth))
    decreases |outlinks|
  {
    if outlinks != [] {
      var n := |outlinks| - 1;
      var last := outlinks[n];
      EnqueuedInOrder(outlinks[..n], visited, depth);
      assert outlinks[..n] + [last] == outlinks;
      InOrderSnoc(outlinks[..n], last, Enqueued(outlinks[..n], visited, depth),
                  if last !in visited then [Entry(last, depth)] else []);
    }
  }

  /** Entries taken from `init` in order, then at most one entry for `x`,
      follow the order of `init + [x]`. */
  lemma InOrderSnoc(init: seq<Url>, x: Url, pre: seq<Entry>, tail: seq<Entry>)
    requires InOrder(init, pre) && forall j | 0 <= j < |pre| :: pre[j].url in init
    requires |tail| <= 1 && forall j | 0 <= j < |tail| :: tail[j].url == x
    ensures InOrder(init + [x], pre + tail)
  {
    var outlinks, added := init + [x], pre + tail;
    var n := |init|;
    forall i, j | 0 <= i < j < |added| ensures Before(outlinks, added[i].url, added[j].url) {
      if j < |pre| {
        assert added[i] == pre[i] && added[j] == pre[j];
        assert Before(init, pre[i].url, pre[j].url);
        var p, q :| 0 <= p < q < |init| && init[p] == pre[i].url && init[q] == pre[j].url;
        assert outlinks[p] == added[i].url && outlinks[q] == added[j].url;
      } else {
        assert added[i] == pre[i] && added[i].url in init;
        var p :| 0 <= p < n && init[p] == added[i].url;
        assert outlinks[p] == added[i].url && outlinks[n] == added[j].url;
      }
    }
  }

  /** Looking at one more outlink queues at most that one. */
  lemma EnqueuedPrefix(outlinks: seq<Url>, visited: set<Url>, depth: nat, i: nat)
    requires i < |outlinks|
    ensures Enqueued(outlinks[..i + 1], visited, depth) ==
      Enqueued(outlinks[..i], visited, depth) + (if outlinks[i] !in visited then [Entry(outlinks[i], depth)] else [])
  {
    assert outlinks[..i + 1][..i] == outlinks[..i];
  }

  /** The effect of handling a fetched page (app.py:80-92) for the entry
      `(url, depth)`: `g'` and `frontier'` are the graph and frontier after it,
      `outlinks` the links it followed. */
  ghost predicate Expanded(web: Web, g: Graph, g': Graph, frontier: seq<Entry>, frontier': seq<Entry>,
                           visited: set<Url>, url: Url, depth: nat, page: Page, outlinks: seq<Url>)
  {
    var src := NormalizeUrl(page.finalUrl);
    var links := LinkSet(url, web.hrefs(page.html), web.join);
    // at most MAX_OUTLINKS_PER_PAGE distinct links of the page, resolved against the queued URL
    && |outlinks| == Min(|links|, MaxOutlinksPerPage)
    && NoDuplicates(outlinks) && Elems(outlinks) <= links
    // the page becomes a node with its content, every outlink a node
    && (forall n :: n in g'.nodes <==> n in g.nodes || n == src || n in outlinks)
    && g'.html == g.html[src := page.html]
    && (forall n :: n in g'.domain <==> n in g.domain || n == src || n in outlinks)
    && (forall n | n in g'.domain :: g'.domain[n] == if n == src || n in outlinks then web.domainOf(n) else g.domain[n])
    // every new edge starts at the page, one per outlink
    && (forall e :: e in g'.edges <==> e in g.edges || (e.0 == src && e.1 in outlinks))
    && |g'.edges| <= |g.edges| + |outlinks|
    // the outlinks not yet visited are queued one level deeper
    && frontier' == frontier + Enqueued(outlinks, visited, depth + 1)
  }

  /** app.py:80-92: add the fetched page as a node under its normalised final
      URL, then at most MAX_OUTLINKS_PER_PAGE of its links as nodes and edges,
      queueing the unvisited ones at depth + 1. */
  method ExpandPage(web: Web, g: Graph, frontier: seq<Entry>, visited: set<Url>, url: Url, depth: nat, page: Page)
    returns (g': Graph, frontier': seq<Entry>, outlinks: seq<Url>)
    requires g.Valid()
    ensures g'.Valid()
    ensures Expanded(web, g, g', frontier, frontier', visited, url, depth, page, outlinks)
  {
    var src := NormalizeUrl(page.finalUrl);
    var g1 := g.AddPage(src, web.domainOf(src), page.html);
    var links := ExtractLinks(url, web.hrefs(page.html), web.join);
    outlinks := links[..Min(|links|, MaxOutlinksPerPage)];
    TakeKeepsDistinct(links, Min(|links|, MaxOutlinksPerPage));
    g', frontier' := AddOutlinks(web, g1, frontier, visited, src, depth, outlinks);
    ExpandedIntro(web, g, g1, g', frontier, frontier', visited, url, depth, page, outlinks);
  }

  /** `g'` is `g` with the links `added` added as nodes with their domain and
      as targets of edges from `src`. */
  ghost predicate Grown(web: Web, g: Graph, g': Graph, src: Url, added: set<Url>) {
    && g'.Valid()
    && g'.nodes == g.nodes + added && g'.html == g.html
    && g'.domain.Keys == g.domain.Keys + added
    && (forall n | n in g'.domain :: g'.domain[n] == if n in added then web.domainOf(n) else g.domain[n])
    && (forall e :: e in g'.edges <==> e in g.edges || (e.0 == src && e.1 in added))
  }

  /** The page node added first and the outlinks added after it give
      `Expanded`. */
  lemma ExpandedIntro(web: Web, g: Graph, g1: Graph, g': Graph, frontier: seq<Entry>, frontier': seq<Entry>,
                      visited: set<Url>, url: Url, depth: nat, page: Page, outlinks: seq<Url>)
    requires g1 == g.AddPage(NormalizeUrl(page.finalUrl), web.domainOf(NormalizeUrl(page.finalUrl)), page.html)
    requires Grown(web, g1, g', NormalizeUrl(page.finalUrl), Elems(outlinks))
    requires |g'.edges| <= |g1.edges| + |outlinks|
    requires frontier' == frontier + Enqueued(outlinks, visited, depth + 1)
    requires var links := LinkSet(url, web.hrefs(page.html), web.join);
      |outlinks| == Min(|links|, MaxOutlinksPerPage) && NoDuplicates(outlinks) && Elems(outlinks) <= links
    ensures Expanded(web, g, g', frontier, frontier', visited, url, depth, page, outlinks)
  {
    var src := NormalizeUrl(page.finalUrl);
    var added := Elems(outlinks);
    GrownFromPage(web, g, g1, g', src, page.html, added);
    assert forall n :: n in added <==> n in outlinks;
  }

  /** The page node added first and the links `added` after it. */
  lemma GrownFromPage(web: Web, g: Graph, g1: Graph, g': Graph, src: Url, html: string, added: set<Url>)
    requires g1 == g.AddPage(src, web.domainOf(src), html)
    requires Grown(web, g1, g', src, added)
    ensures forall n :: n in g'.nodes <==> n in g.nodes || n == src || n in added
    ensures g'.html == g.html[src := html]
    ensures forall n :: n in g'.domain <==> n in g.domain || n == src || n in added
    ensures forall n | n in g'.domain :: g'.domain[n] == if n == src || n in added then web.domainOf(n) else g.domain[n]
    ensures forall e :: e in g'.edges <==> e in g.edges || (e.0 == src && e.1 in added)
  {
  }

  /** app.py:88-92: each outlink becomes a node with its domain and the target
      of an edge from `src`; the unvisited ones are queued at depth + 1. */
  method AddOutlinks(web: Web, g: Graph, frontier: seq<Entry>, visited: set<Url>, src: Url, depth: nat, outlinks: seq<Url>)
    returns (g': Graph, frontier': seq<Entry>)
    requires g.Valid() && src in g.nodes
    ensures Grown(web, g, g', src, Elems(outlinks))
    ensures |g'.edges| <= |g.edges| + |outlinks|
    ensures frontier' == frontier + Enqueued(outlinks, visited, depth + 1)
  {
    g', frontier' := g, frontier;
    for i := 0 to |outlinks|
      invariant Grown(web, g, g', src, Elems(outlinks[..i]))
      invariant |g'.edges| <= |g.edges| + i
      invariant frontier' == frontier + Enqueued(outlinks[..i], visited, depth + 1)
    {
      var l := outlinks[i];
      ElemsPrefix(outlinks, i);
      EnqueuedPrefix(outlinks, visited, depth + 1, i);
      AppendAssoc(frontier, Enqueued(outlinks[..i], visited, depth + 1), if l !in visited then [Entry(l, depth + 1)] else []);
      g', frontier' := AddOutlink(web, g, g', frontier', visited, src, depth, l, Elems(outlinks[..i]));
    }
    assert outlinks[..|outlinks|] == outlinks;
  }

  /** One turn of the loop at app.py:88-92, on a graph that is `g0` with the
      links `added` already added. */
  method AddOutlink(web: Web, g0: Graph, g: Graph, frontier: seq<Entry>, visited: set<Url>, src: Url, depth: nat, l: Url,
                    ghost added: set<Url>)
    returns (g': Graph, frontier': seq<Entry>)
    requires g0.Valid() && src in g0.nodes && Grown(web, g0, g, src, added)
    ensures Grown(web, g0, g', src, added + {l})
    ensures |g'.edges| <= |g.edges| + 1
    ensures frontier' == frontier + (if l !in visited then [Entry(l, depth + 1)] else [])
  {
    GrownByLink(web, g0, g, src, l, added);
    g' := g.AddLink(l, web.domainOf(l));
    g' := g'.AddEdge(src, l);
    frontier' := frontier;
    if l !in visited {
      frontier' := frontier' + [Entry(l, depth + 1)];
    }
  }

  /** Adding `l` as a node with its domain and as the target of an edge from
      `src` grows the graph by `l`. */
  lemma GrownByLink(web: Web, g0: Graph, g: Graph, src: Url, l: Url, added: set<Url>)
    requires g0.Valid() && src in g0.nodes && Grown(web, g0, g, src, added)
    ensures var g' := g.AddLink(l, web.domainOf(l)).AddEdge(src, l);
      Grown(web, g0, g', src, added + {l}) && |g'.edges| <= |g.edges| + 1
  {
    var g1 := g.AddLink(l, web.domainOf(l));
    var g' := g1.AddEdge(src, l);
    assert g'.nodes == g0.nodes + (added + {l});
    assert g'.domain.Keys == g0.domain.Keys + (added + {l});
    assert g'.domain == g.domain[l := web.domainOf(l)];
    forall n | n in g'.domain ensures g'.domain[n] == if n in added + {l} then web.domainOf(n) else g0.domain[n] {
      if n != l {
        assert g'.domain[n] == g.domain[n];
      }
    }
    assert g'.edges == g.edges + {(src, l)};
    CardAddOne(g.edges, (src, l));
    forall e ensures e in g'.edges <==> e in g0.edges || (e.0 == src && e.1 in added + {l}) {
      assert e in g'.edges <==> e in g.edges || e == (src, l);
    }
  }

  /** One turn of the `while` loop (app.py:69-92) on the entry at the front of
      the frontier: skip it if its URL was visited or it is too deep; otherwise
      mark the URL visited, fetch it, and on success expand the page. */
  method Step(web: Web, maxDepth: int, frontier: seq<Entry>, visited: set<Url>, g: Graph)
    returns (frontier': seq<Entry>, visited': set<Url>, g': Graph, outcome: Outcome)
    requires frontier != [] && g.Valid()
    ensures g'.Valid()
    ensures outcome.Skipped? <==> frontier[0].url in visited || frontier[0].depth > maxDepth
    ensures outcome.Skipped? ==> frontier' == frontier[1..] && visited' == visited && g' == g
    ensures !outcome.Skipped? ==> visited' == visited + {frontier[0].url}
    ensures outcome.FetchFailed? <==> !outcome.Skipped? && web.fetch(frontier[0].url).None?
    ensures outcome.FetchFailed? ==> frontier' == frontier[1..] && g' == g
    ensures outcome.Fetched? ==>
      && web.fetch(frontier[0].url) == Some(outcome.page)
      && Expanded(web, g, g', frontier[1..], frontier', visited', frontier[0].url, frontier[0].depth,
                  outcome.page, outcome.outlinks)
  {
    var url, depth := frontier[0].url, frontier[0].depth;
    frontier' := frontier[1..];
    if url in visited || depth > maxDepth {
      return frontier', visited, g, Skipped;
    }
    visited' := visited + {url};
    var fetched := web.fetch(url);
    if fetched.None? {
      return frontier', visited', g, FetchFailed;
    }
    var page := fetched.value;
    var outlinks;
    g', frontier', outlinks := ExpandPage(web, g, frontier', visited', url, depth, page);
    outcome := Fetched(page, outlinks);
  }


  /** app.py:63-93: crawl breadth-first from the first MAX_SEEDS seeds while
      the frontier is not empty and fewer than `maxPages` URLs were visited.
      `trace` lists the entries that were not skipped, in the order they were
      taken: their URLs are exactly the visited set. `links[k]` are the
      outlinks followed from the page of `trace[k]`, and `pending` is what was
      still queued when the loop stopped. */
  method Crawl(web: Web, seeds: seq<Url>, maxPages: int, maxDepth: int)
    returns (g: Graph, ghost trace: seq<Entry>, ghost links: seq<seq<Url>>, ghost pending: seq<Entry>)
    ensures g.Valid()
    ensures Crawled(web, seeds, maxPages, maxDepth, g, trace, links, pending)
  {
    g := Empty;
    trace, links := [], [];
    var visited: set<Url> := {};
    var frontier := InitialFrontier(seeds);
    ghost var last: nat := 0;
    InitPreserves(web, seeds, maxDepth);
    InitCovered(seeds, maxDepth);
    while frontier != [] && |visited| < maxPages
      invariant LoopInv(web, seeds, maxPages, maxDepth, trace, links, visited, frontier, g, last)
      decreases maxPages - |visited|, |frontier|
    {
      frontier, visited, g, trace, links, last := Turn(web, seeds, maxPages, maxDepth, frontier, visited, g, trace, links, last);
    }
    CrawlEnds(web, seeds, maxPages, maxDepth, trace, links, visited, frontier, g, last);
    pending := frontier;
  }

  /** What a crawl with budget `maxPages` and depth limit `maxDepth` promises
      about the graph `g` it returns, the entries `trace` it fetched, the links
      `links` followed from them and the entries `pending` still queued (the
      graph is well formed, as `BuiltFrom` includes). */
  ghost predicate Crawled(web: Web, seeds: seq<Url>, maxPages: int, maxDepth: int, g: Graph,
                          trace: seq<Entry>, links: seq<seq<Url>>, pending: seq<Entry>)
  {
    // the loop ran until the frontier was empty or the page budget was spent
    && (pending == [] || |trace| >= maxPages)
    && |trace| <= Max(maxPages, 0)
    // no URL is fetched twice
    && DistinctUrls(trace) && |UrlsOf(trace)| == |trace|
    // every fetched or still queued entry is a kept seed at depth 0, or a link
    // followed from the page of an earlier fetched entry one level up
    && |links| == |trace|
    && (forall k | 0 <= k < |trace| :: trace[k].depth <= maxDepth && Derived(seeds, trace, links, trace[k], k))
    && (forall j | 0 <= j < |pending| :: Derived(seeds, trace, links, pending[j], |trace|))
    && BuiltFrom(web, trace, g)
    // the edges are exactly the links followed from the fetched pages
    && (forall k | 0 <= k < |trace| :: Followed(web, trace, links, k))
    && (forall k, l | 0 <= k < |trace| && l in links[k] ::
          NodeOf(web, trace[k].url).Some? && (NodeOf(web, trace[k].url).value, l) in g.edges)
    && (forall e | e in g.edges :: EdgeFollowed(web, trace, links, e))
    // breadth-first: depths never decrease and the first seed comes first; a
    // page below the seeds comes after every kept seed, and a page two or more
    // levels below a fetched page comes after every link that page followed
    && (forall i, j | 0 <= i < j < |trace| :: trace[i].depth <= trace[j].depth)
    && (0 < maxPages && 0 <= maxDepth && seeds != [] ==> trace != [] && trace[0] == Entry(seeds[0], 0))
    && (forall k, u | 0 <= k < |trace| && trace[k].depth > 0 && u in Seeds(seeds) :: u in UrlsOf(trace[..k]))
    && (forall i, k, l | 0 <= i < |trace| && 0 <= k < |trace| && trace[i].depth + 1 < trace[k].depth && l in links[i] ::
          l in UrlsOf(trace[..k]))
    // when the budget was not spent, everything reachable within the depth bound was visited
    && (|trace| < maxPages && 0 <= maxDepth ==> forall u | u in Seeds(seeds) :: u in UrlsOf(trace))
    && (|trace| < maxPages ==>
          forall k, l | 0 <= k < |trace| && trace[k].depth < maxDepth && l in links[k] :: l in UrlsOf(trace))
  }

  /** `crawl_and_build_graph(seeds)` with its default arguments, as the
      search handler calls it: everything `Crawl` promises for MAX_PAGES and
      CRAWL_DEPTH, and every kept seed is fetched, since there are fewer of
      them than the page budget. */
  method CrawlWithDefaults(web: Web, seeds: seq<Url>)
    returns (g: Graph, ghost trace: seq<Entry>, ghost links: seq<seq<Url>>, ghost pending: seq<Entry>)
    ensures g.Valid()
    ensures Crawled(web, seeds, MaxPages, CrawlDepth, g, trace, links, pending)
    ensures forall u | u in Seeds(seeds) :: u in UrlsOf(trace)
  {
    g, trace, links, pending := Crawl(web, seeds, MaxPages, CrawlDepth);
    DefaultsVisitSeeds(web, seeds, g, trace, links, pending);
  }

  /** With the default budget every kept seed is fetched: MAX_SEEDS is below
      MAX_PAGES, so a crawl that spends its budget has fetched a URL that is
      not a seed, hence a page below the seeds, and such a page comes after
      every kept seed. */
  lemma DefaultsVisitSeeds(web: Web, seeds: seq<Url>, g: Graph, trace: seq<Entry>, links: seq<seq<Url>>, pending: seq<Entry>)
    requires Crawled(web, seeds, MaxPages, CrawlDepth, g, trace, links, pending)
    ensures forall u | u in Seeds(seeds) :: u in UrlsOf(trace)
  {
    if |trace| >= MaxPages {
      ElemsCard(Seeds(seeds));
      SubsetCard(UrlsOf(trace), Elems(Seeds(seeds)));
      var u :| u in UrlsOf(trace) && u !in Elems(Seeds(seeds));
      var k :| 0 <= k < |trace| && trace[k].url == u;
      assert Derived(seeds, trace, links, trace[k], k);
      assert trace[k].depth > 0;
      UrlsPrefix(trace, k);
    }
  }

  lemma UrlsPrefix(trace: seq<Entry>, n: nat)
    requires n <= |trace|
    ensures UrlsOf(trace[..n]) <= UrlsOf(trace)
  {
    assert forall k | 0 <= k < n :: trace[..n][k] == trace[k];
  }

  /** Everything the crawl loop keeps: the crawl invariant, the links followed,
      what is still owed, the breadth-first order within and across levels, the
      first seed first, and the page budget. */
  ghost predicate LoopInv(web: Web, seeds: seq<Url>, maxPages: int, maxDepth: int, trace: seq<Entry>, links: seq<seq<Url>>,
                          visited: set<Url>, frontier: seq<Entry>, g: Graph, last: nat)
  {
    && CrawlInv(web, seeds, maxDepth, trace, links, visited, frontier, g)
    && LinksOf(web, trace, links, g)
    && CoverInv(seeds, maxDepth, trace, links, frontier)
    && BreadthFirst(trace, frontier, last)
    && LevelOrder(seeds, trace, links)
    && (0 <= maxDepth && trace == [] ==> frontier == InitialFrontier(seeds))
    && (trace != [] ==> seeds != [] && trace[0] == Entry(seeds[0], 0))
    && |trace| <= Max(maxPages, 0)
  }

  /** One turn of the crawl loop (`Step`) with its ghost bookkeeping: an entry
      that is not skipped joins `trace`, and the links its page followed join
      `links`. Either one more URL is visited or the frontier shrinks. */
  method Turn(web: Web, seeds: seq<Url>, maxPages: int, maxDepth: int, frontier: seq<Entry>, visited: set<Url>, g: Graph,
              ghost trace: seq<Entry>, ghost links: seq<seq<Url>>, ghost last: nat)
    returns (frontier': seq<Entry>, visited': set<Url>, g': Graph,
             ghost trace': seq<Entry>, ghost links': seq<seq<Url>>, ghost last': nat)
    requires frontier != [] && |visited| < maxPages
    requires LoopInv(web, seeds, maxPages, maxDepth, trace, links, visited, frontier, g, last)
    ensures LoopInv(web, seeds, maxPages, maxDepth, trace', links', visited', frontier', g', last')
    ensures |visited'| == |visited| + 1 || (visited' == visited && |frontier'| < |frontier|)
  {
    var e := frontier[0];
    var outcome;
    frontier', visited', g', outcome := Step(web, maxDepth, frontier, visited, g);
    last' := e.depth;
    match outcome {
      case Skipped =>
        trace', links' := trace, links;
        SkipTurn(web, seeds, maxPages, maxDepth, trace, links, visited, frontier, g, last);
      case FetchFailed =>
        trace', links' := trace + [e], links + [[]];
        FailTurn(web, seeds, maxPages, maxDepth, trace, links, visited, frontier, g, last);
      case Fetched(page, outlinks) =>
        trace', links' := trace + [e], links + [outlinks];
        FetchTurn(web, seeds, maxPages, maxDepth, trace, links, visited, frontier, g, last, frontier', g', page, outlinks);
    }
  }

  /** A skipped entry keeps the loop invariant. */
  lemma SkipTurn(web: Web, seeds: seq<Url>, maxPages: int, maxDepth: int, trace: seq<Entry>, links: seq<seq<Url>>,
                 visited: set<Url>, frontier: seq<Entry>, g: Graph, last: nat)
    requires frontier != [] && LoopInv(web, seeds, maxPages, maxDepth, trace, links, visited, frontier, g, last)
    requires frontier[0].url in visited || frontier[0].depth > maxDepth
    ensures LoopInv(web, seeds, maxPages, maxDepth, trace, links, visited, frontier[1..], g, frontier[0].depth)
  {
    SkipPreserves(web, seeds, maxDepth, trace, links, visited, frontier, g);
    CoverSkip(seeds, maxDepth, trace, links, frontier);
    assert frontier[1..] + [] == frontier[1..];
    BreadthFirstStep(trace, frontier, last, trace, frontier[1..], []);
  }

  /** A failed fetch keeps the loop invariant. */
  lemma FailTurn(web: Web, seeds: seq<Url>, maxPages: int, maxDepth: int, trace: seq<Entry>, links: seq<seq<Url>>,
                 visited: set<Url>, frontier: seq<Entry>, g: Graph, last: nat)
    requires frontier != [] && |visited| < maxPages && LoopInv(web, seeds, maxPages, maxDepth, trace, links, visited, frontier, g, last)
    requires frontier[0].url !in visited && frontier[0].depth <= maxDepth && web.fetch(frontier[0].url).None?
    ensures LoopInv(web, seeds, maxPages, maxDepth, trace + [frontier[0]], links + [[]], visited + {frontier[0].url},
                    frontier[1..], g, frontier[0].depth)
  {
    var e := frontier[0];
    FailPreserves(web, seeds, maxDepth, trace, links, visited, frontier, g);
    LinksFail(web, trace, links, g, e);
    assert frontier[1..] == frontier[1..] + Enqueued([], visited + {e.url}, e.depth + 1);
    CoverFetch(seeds, maxDepth, trace, links, frontier, [], frontier[1..]);
    BreadthFirstStep(trace, frontier, last, trace + [e], frontier[1..] + [], []);
    assert frontier[1..] + [] == frontier[1..];
    FirstSeedFirst(seeds, maxDepth, trace, frontier);
    OrderStep(seeds, maxDepth, trace, links, frontier, last, []);
  }

  /** A successful fetch keeps the loop invariant. */
  lemma FetchTurn(web: Web, seeds: seq<Url>, maxPages: int, maxDepth: int, trace: seq<Entry>, links: seq<seq<Url>>,
                  visited: set<Url>, frontier: seq<Entry>, g: Graph, last: nat,
                  frontier': seq<Entry>, g': Graph, page: Page, outlinks: seq<Url>)
    requires frontier != [] && |visited| < maxPages && LoopInv(web, seeds, maxPages, maxDepth, trace, links, visited, frontier, g, last)
    requires frontier[0].url !in visited && frontier[0].depth <= maxDepth && web.fetch(frontier[0].url) == Some(page)
    requires g'.Valid()
    requires Expanded(web, g, g', frontier[1..], frontier', visited + {frontier[0].url}, frontier[0].url,
                      frontier[0].depth, page, outlinks)
    ensures LoopInv(web, seeds, maxPages, maxDepth, trace + [frontier[0]], links + [outlinks], visited + {frontier[0].url},
                    frontier', g', frontier[0].depth)
  {
    var e := frontier[0];
    FetchKeepsGraph(web, seeds, maxDepth, trace, links, visited, frontier, g, frontier', g', page, outlinks);
    ExpandedQueue(web, g, g', frontier[1..], frontier', visited + {e.url}, e.url, e.depth, page, outlinks);
    FetchKeepsOrder(seeds, maxDepth, trace, links, visited, frontier, last, frontier', outlinks);
  }

  /** After a successful fetch, the graph still agrees with the fetched
      entries and the links they followed. */
  lemma FetchKeepsGraph(web: Web, seeds: seq<Url>, maxDepth: int, trace: seq<Entry>, links: seq<seq<Url>>,
                        visited: set<Url>, frontier: seq<Entry>, g: Graph, frontier': seq<Entry>, g': Graph, page: Page, outlinks: seq<Url>)
    requires frontier != [] && CrawlInv(web, seeds, maxDepth, trace, links, visited, frontier, g) && LinksOf(web, trace, links, g)
    requires frontier[0].url !in visited && frontier[0].depth <= maxDepth && web.fetch(frontier[0].url) == Some(page)
    requires g'.Valid()
    requires Expanded(web, g, g', frontier[1..], frontier', visited + {frontier[0].url}, frontier[0].url,
                      frontier[0].depth, page, outlinks)
    ensures CrawlInv(web, seeds, maxDepth, trace + [frontier[0]], links + [outlinks], visited + {frontier[0].url}, frontier', g')
    ensures LinksOf(web, trace + [frontier[0]], links + [outlinks], g')
  {
    var e := frontier[0];
    FetchPreserves(web, seeds, maxDepth, trace, links, visited, frontier, g, frontier', g', page, outlinks);
    LinksFetch(web, trace, links, g, g', frontier[1..], frontier', visited + {e.url}, e, page, outlinks);
  }

  /** After a fetch, nothing owed is lost, the order stays breadth-first, and
      the first seed is the first entry fetched. */
  lemma FetchKeepsOrder(seeds: seq<Url>, maxDepth: int, trace: seq<Entry>, links: seq<seq<Url>>, visited: set<Url>,
                        frontier: seq<Entry>, last: nat, frontier': seq<Entry>, outlinks: seq<Url>)
    requires frontier != [] && frontier[0].depth <= maxDepth
    requires visited == UrlsOf(trace) && |links| == |trace|
    requires CoverInv(seeds, maxDepth, trace, links, frontier) && BreadthFirst(trace, frontier, last)
    requires LevelOrder(seeds, trace, links)
    requires 0 <= maxDepth && trace == [] ==> frontier == InitialFrontier(seeds)
    requires trace != [] ==> seeds != [] && trace[0] == Entry(seeds[0], 0)
    requires frontier' == frontier[1..] + Enqueued(outlinks, visited + {frontier[0].url}, frontier[0].depth + 1)
    ensures CoverInv(seeds, maxDepth, trace + [frontier[0]], links + [outlinks], frontier')
    ensures BreadthFirst(trace + [frontier[0]], frontier', frontier[0].depth)
    ensures LevelOrder(seeds, trace + [frontier[0]], links + [outlinks])
    ensures seeds != [] && (trace + [frontier[0]])[0] == Entry(seeds[0], 0)
  {
    var e := frontier[0];
    CoverFetch(seeds, maxDepth, trace, links, frontier, outlinks, frontier');
    BreadthFirstStep(trace, frontier, last, trace + [e], frontier', Enqueued(outlinks, visited + {e.url}, e.depth + 1));
    FirstSeedFirst(seeds, maxDepth, trace, frontier);
    OrderStep(seeds, maxDepth, trace, links, frontier, last, outlinks);
  }

  /** The first entry fetched is the first seed. */
  lemma FirstSeedFirst(seeds: seq<Url>, maxDepth: int, trace: seq<Entry>, frontier: seq<Entry>)
    requires frontier != [] && frontier[0].depth <= maxDepth
    requires 0 <= maxDepth && trace == [] ==> frontier == InitialFrontier(seeds)
    requires trace != [] ==> seeds != [] && trace[0] == Entry(seeds[0], 0)
    ensures seeds != [] && (trace + [frontier[0]])[0] == Entry(seeds[0], 0)
  {
  }

  // ------------------------------------------------------------ crawl invariants

  /** The URLs of the fetched entries: the `visited` set. */
  function UrlsOf(trace: seq<Entry>): set<Url> {
    set k | 0 <= k < |trace| :: trace[k].url
  }

  predicate DistinctUrls(trace: seq<Entry>) {
    forall i, j | 0 <= i < j < |trace| :: trace[i].url != trace[j].url
  }

  /** How entry `e` came to be queued: a depth-0 entry is one of the kept
      seeds; a deeper one is a link followed from the page of one of the first
      `bound` fetched entries, one level up. */
  ghost predicate Derived(seeds: seq<Url>, trace: seq<Entry>, links: seq<seq<Url>>, e: Entry, bound: nat) {
    if e.depth == 0 then e.url in Seeds(seeds)
    else exists k | 0 <= k < bound && k < |trace| && k < |links| :: trace[k].depth + 1 == e.depth && e.url in links[k]
  }

  /** No fetched entry after the `k`-th has a page that becomes node `n`. */
  ghost predicate NotRefetched(web: Web, trace: seq<Entry>, n: Url, k: int) {
    0 <= k < |trace| && forall i | k < i < |trace| :: NodeOf(web, trace[i].url) != Some(n)
  }

  /** Node `n` holds the body `html` because the last fetched entry whose page
      normalises to `n` has that body: a later page with the same node
      overwrites the content of an earlier one. */
  ghost predicate HasContentFrom(web: Web, trace: seq<Entry>, n: Url, html: string) {
    exists k | 0 <= k < |trace| ::
      && web.fetch(trace[k].url).Some?
      && NormalizeUrl(web.fetch(trace[k].url).value.finalUrl) == n
      && web.fetch(trace[k].url).value.html == html
      && NotRefetched(web, trace, n, k)
  }

  /** If the `k`-th fetched entry's fetch succeeded, its page is a node
      with content. */
  ghost predicate PageRecorded(web: Web, trace: seq<Entry>, html: map<Url, string>, k: int) {
    0 <= k < |trace| && (NodeOf(web, trace[k].url).Some? ==> NodeOf(web, trace[k].url).value in html)
  }

  ghost predicate Linked(g: Graph, n: Url) {
    exists e | e in g.edges :: e.1 == n
  }

  /** What the graph is, given the fetched entries: fragment-free nodes with
      their domain; content exactly for the pages fetched, from the last fetch
      of each node; every edge leaving a fetched page; every other node the
      target of an edge. */
  ghost predicate BuiltFrom(web: Web, trace: seq<Entry>, g: Graph) {
    && g.Valid()
    && (forall n | n in g.nodes :: '#' !in n && n in g.domain && g.domain[n] == web.domainOf(n))
    && (forall n | n in g.html :: HasContentFrom(web, trace, n, g.html[n]))
    && (forall k | 0 <= k < |trace| :: PageRecorded(web, trace, g.html, k))
    && (forall e | e in g.edges :: e.0 in g.html)
    && (forall n | n in g.nodes :: n in g.html || Linked(g, n))
  }

  /** The `k`-th fetched entry was within the depth bound and had been
      derived from the entries fetched before it. */
  ghost predicate FetchedInOrder(seeds: seq<Url>, maxDepth: int, trace: seq<Entry>, links: seq<seq<Url>>, k: int) {
    0 <= k < |trace| && trace[k].depth <= maxDepth && Derived(seeds, trace, links, trace[k], k)
  }

  /** The `j`-th queued entry is derived from the entries fetched so far. */
  ghost predicate QueuedDerived(seeds: seq<Url>, trace: seq<Entry>, links: seq<seq<Url>>, frontier: seq<Entry>, j: int) {
    0 <= j < |frontier| && Derived(seeds, trace, links, frontier[j], |trace|)
  }

  /** The loop invariant of the crawl, over the sequence of fetched entries. */
  ghost predicate CrawlInv(web: Web, seeds: seq<Url>, maxDepth: int, trace: seq<Entry>, links: seq<seq<Url>>,
                           visited: set<Url>, frontier: seq<Entry>, g: Graph)
  {
    && visited == UrlsOf(trace) && DistinctUrls(trace) && |visited| == |trace|
    && (forall k | 0 <= k < |trace| :: FetchedInOrder(seeds, maxDepth, trace, links, k))
    && (forall j | 0 <= j < |frontier| :: QueuedDerived(seeds, trace, links, frontier, j))
    && BuiltFrom(web, trace, g)
  }

  lemma DerivedMono(seeds: seq<Url>, trace: seq<Entry>, links: seq<seq<Url>>, trace': seq<Entry>, links': seq<seq<Url>>,
                    e: Entry, bound: nat, bound': nat)
    requires trace <= trace' && links <= links' && bound <= bound'
    requires Derived(seeds, trace, links, e, bound)
    ensures Derived(seeds, trace', links', e, bound')
  {
    if e.depth != 0 {
      var k :| 0 <= k < bound && k < |trace| && k < |links| && trace[k].depth + 1 == e.depth && e.url in links[k];
      assert trace'[k] == trace[k] && links'[k] == links[k];
    }
  }

  /** Fetching an entry whose page does not become node `n` keeps the
      content of `n`. */
  lemma ContentSnoc(web: Web, trace: seq<Entry>, e: Entry, n: Url, html: string)
    requires HasContentFrom(web, trace, n, html) && NodeOf(web, e.url) != Some(n)
    ensures HasContentFrom(web, trace + [e], n, html)
  {
    var trace' := trace + [e];
    var k :| 0 <= k < |trace| && web.fetch(trace[k].url).Some? && NormalizeUrl(web.fetch(trace[k].url).value.finalUrl) == n
             && web.fetch(trace[k].url).value.html == html && NotRefetched(web, trace, n, k);
    assert trace'[k] == trace[k];
    forall i | k < i < |trace'| ensures NodeOf(web, trace'[i].url) != Some(n) {
      if i < |trace| {
        assert trace'[i] == trace[i];
      }
    }
  }

  lemma InitPreserves(web: Web, seeds: seq<Url>, maxDepth: int)
    ensures CrawlInv(web, seeds, maxDepth, [], [], {}, InitialFrontier(seeds), Empty)
  {
    var frontier := InitialFrontier(seeds);
    forall j | 0 <= j < |frontier| ensures QueuedDerived(seeds, [], [], frontier, j) {
      assert frontier[j].url == Seeds(seeds)[j];
    }
  }

  /** A skipped entry changes nothing but the frontier. */
  lemma SkipPreserves(web: Web, seeds: seq<Url>, maxDepth: int, trace: seq<Entry>, links: seq<seq<Url>>, visited: set<Url>,
                      frontier: seq<Entry>, g: Graph)
    requires frontier != [] && CrawlInv(web, seeds, maxDepth, trace, links, visited, frontier, g)
    ensures CrawlInv(web, seeds, maxDepth, trace, links, visited, frontier[1..], g)
  {
    forall j | 0 <= j < |frontier| - 1 ensures QueuedDerived(seeds, trace, links, frontier[1..], j) {
      assert QueuedDerived(seeds, trace, links, frontier, j + 1);
      assert frontier[1..][j] == frontier[j + 1];
    }
  }

  /** Appending one fetched entry keeps the bookkeeping of visited URLs. */
  lemma VisitPreserves(trace: seq<Entry>, visited: set<Url>, e: Entry)
    requires visited == UrlsOf(trace) && DistinctUrls(trace) && |visited| == |trace|
    requires e.url !in visited
    ensures var trace' := trace + [e];
      visited + {e.url} == UrlsOf(trace') && DistinctUrls(trace') && |visited + {e.url}| == |trace'|
  {
    var trace' := trace + [e];
    assert forall k | 0 <= k < |trace| :: trace'[k] == trace[k];
    assert trace'[|trace|] == e;
    assert UrlsOf(trace') == UrlsOf(trace) + {e.url};
  }

  /** The entries fetched so far stay derived once one more is fetched. */
  lemma TraceDerivedPreserves(seeds: seq<Url>, maxDepth: int, trace: seq<Entry>, links: seq<seq<Url>>, e: Entry, ls: seq<Url>)
    requires forall k | 0 <= k < |trace| :: FetchedInOrder(seeds, maxDepth, trace, links, k)
    requires e.depth <= maxDepth && Derived(seeds, trace, links, e, |trace|)
    ensures var trace', links' := trace + [e], links + [ls];
      forall k | 0 <= k < |trace'| :: FetchedInOrder(seeds, maxDepth, trace', links', k)
  {
    var trace', links' := trace + [e], links + [ls];
    forall k | 0 <= k < |trace'| ensures FetchedInOrder(seeds, maxDepth, trace', links', k) {
      if k < |trace| {
        assert FetchedInOrder(seeds, maxDepth, trace, links, k);
        assert trace'[k] == trace[k];
        DerivedMono(seeds, trace, links, trace', links', trace[k], k, k);
      } else {
        DerivedMono(seeds, trace, links, trace', links', e, |trace|, |trace|);
      }
    }
  }

  /** The entries still queued stay derived once the front one is fetched. */
  lemma TailDerivedPreserves(seeds: seq<Url>, trace: seq<Entry>, links: seq<seq<Url>>, frontier: seq<Entry>, ls: seq<Url>)
    requires frontier != []
    requires forall j | 0 <= j < |frontier| :: QueuedDerived(seeds, trace, links, frontier, j)
    ensures forall j | 0 <= j < |frontier| - 1 :: QueuedDerived(seeds, trace + [frontier[0]], links + [ls], frontier[1..], j)
  {
    var trace', links' := trace + [frontier[0]], links + [ls];
    forall j | 0 <= j < |frontier| - 1 ensures QueuedDerived(seeds, trace', links', frontier[1..], j) {
      assert QueuedDerived(seeds, trace, links, frontier, j + 1);
      assert frontier[1..][j] == frontier[j + 1];
      DerivedMono(seeds, trace, links, trace', links', frontier[j + 1], |trace|, |trace'|);
    }
  }

  /** A failed fetch marks the URL visited, follows no link and changes
      nothing else. */
  lemma FailPreserves(web: Web, seeds: seq<Url>, maxDepth: int, trace: seq<Entry>, links: seq<seq<Url>>, visited: set<Url>,
                      frontier: seq<Entry>, g: Graph)
    requires frontier != [] && CrawlInv(web, seeds, maxDepth, trace, links, visited, frontier, g)
    requires frontier[0].url !in visited && frontier[0].depth <= maxDepth && web.fetch(frontier[0].url).None?
    ensures CrawlInv(web, seeds, maxDepth, trace + [frontier[0]], links + [[]], visited + {frontier[0].url}, frontier[1..], g)
  {
    var e := frontier[0];
    assert QueuedDerived(seeds, trace, links, frontier, 0);
    VisitPreserves(trace, visited, e);
    TraceDerivedPreserves(seeds, maxDepth, trace, links, e, []);
    TailDerivedPreserves(seeds, trace, links, frontier, []);
    BuiltFromFail(web, trace, e, g);
  }

  lemma BuiltFromFail(web: Web, trace: seq<Entry>, e: Entry, g: Graph)
    requires BuiltFrom(web, trace, g) && web.fetch(e.url).None?
    ensures BuiltFrom(web, trace + [e], g)
  {
    var trace' := trace + [e];
    forall n | n in g.html ensures HasContentFrom(web, trace', n, g.html[n]) {
      ContentSnoc(web, trace, e, n, g.html[n]);
    }
    forall k | 0 <= k < |trace'| ensures PageRecorded(web, trace', g.html, k) {
      if k < |trace| {
        assert PageRecorded(web, trace, g.html, k);
        assert trace'[k] == trace[k];
      }
    }
  }

  /** A fetched page adds itself, its outlinks and their edges, and queues the
      unvisited outlinks one level deeper, all justified by the new entry. */
  lemma FetchPreserves(web: Web, seeds: seq<Url>, maxDepth: int, trace: seq<Entry>, links: seq<seq<Url>>, visited: set<Url>,
                       frontier: seq<Entry>, g: Graph, frontier': seq<Entry>, g': Graph, page: Page, outlinks: seq<Url>)
    requires frontier != [] && CrawlInv(web, seeds, maxDepth, trace, links, visited, frontier, g) && |links| == |trace|
    requires frontier[0].url !in visited && frontier[0].depth <= maxDepth && web.fetch(frontier[0].url) == Some(page)
    requires g'.Valid()
    requires Expanded(web, g, g', frontier[1..], frontier', visited + {frontier[0].url}, frontier[0].url,
                      frontier[0].depth, page, outlinks)
    ensures CrawlInv(web, seeds, maxDepth, trace + [frontier[0]], links + [outlinks], visited + {frontier[0].url}, frontier', g')
  {
    var e := frontier[0];
    assert QueuedDerived(seeds, trace, links, frontier, 0);
    BuiltFromFetch(web, trace, e, g, g', page, outlinks, visited + {e.url}, frontier[1..], frontier');
    VisitPreserves(trace, visited, e);
    TraceDerivedPreserves(seeds, maxDepth, trace, links, e, outlinks);
    ExpandedQueue(web, g, g', frontier[1..], frontier', visited + {e.url}, e.url, e.depth, page, outlinks);
    FrontierDerived(seeds, trace, links, outlinks, visited + {e.url}, frontier, frontier');
    CrawlInvIntro(web, seeds, maxDepth, trace + [e], links + [outlinks], visited + {e.url}, frontier', g');
  }

  lemma CrawlInvIntro(web: Web, seeds: seq<Url>, maxDepth: int, trace: seq<Entry>, links: seq<seq<Url>>, visited: set<Url>,
                      frontier: seq<Entry>, g: Graph)
    requires visited == UrlsOf(trace) && DistinctUrls(trace) && |visited| == |trace|
    requires forall k | 0 <= k < |trace| :: FetchedInOrder(seeds, maxDepth, trace, links, k)
    requires forall j | 0 <= j < |frontier| :: QueuedDerived(seeds, trace, links, frontier, j)
    requires BuiltFrom(web, trace, g)
    ensures CrawlInv(web, seeds, maxDepth, trace, links, visited, frontier, g)
  {
  }

  /** The derivation part of the crawl invariant across a successful fetch. */
  lemma BuiltFromFetch(web: Web, trace: seq<Entry>, e: Entry, g: Graph, g': Graph, page: Page, outlinks: seq<Url>,
                       visited: set<Url>, frontier: seq<Entry>, frontier': seq<Entry>)
    requires BuiltFrom(web, trace, g) && web.fetch(e.url) == Some(page) && g'.Valid()
    requires Expanded(web, g, g', frontier, frontier', visited, e.url, e.depth, page, outlinks)
    ensures BuiltFrom(web, trace + [e], g')
  {
    var src := NormalizeUrl(page.finalUrl);
    forall l | l in outlinks ensures '#' !in l {
      LinkSetMembership(e.url, web.hrefs(page.html), web.join, l);
    }
    ContentAfterFetch(web, trace, e, page, g.html, g'.html);
    NodesAfterFetch(web, g, g', src, outlinks);
    EdgesAfterFetch(web, trace, e, g, g', src, outlinks);
  }

  /** The fetched page becomes the content of its node, overwriting what an
      earlier page with the same node left there; every other node keeps its
      content. */
  lemma ContentAfterFetch(web: Web, trace: seq<Entry>, e: Entry, page: Page, html: map<Url, string>, html': map<Url, string>)
    requires forall n | n in html :: HasContentFrom(web, trace, n, html[n])
    requires web.fetch(e.url) == Some(page) && html' == html[NormalizeUrl(page.finalUrl) := page.html]
    ensures forall n | n in html' :: HasContentFrom(web, trace + [e], n, html'[n])
  {
    var trace' := trace + [e];
    var src := NormalizeUrl(page.finalUrl);
    assert trace'[|trace|] == e;
    assert NotRefetched(web, trace', src, |trace|);
    forall n | n in html' ensures HasContentFrom(web, trace', n, html'[n]) {
      if n != src {
        ContentSnoc(web, trace, e, n, html[n]);
      }
    }
  }

  lemma NodesAfterFetch(web: Web, g: Graph, g': Graph, src: Url, outlinks: seq<Url>)
    requires forall n | n in g.nodes :: '#' !in n && n in g.domain && g.domain[n] == web.domainOf(n)
    requires '#' !in src && forall l | l in outlinks :: '#' !in l
    requires forall n :: n in g'.nodes <==> n in g.nodes || n == src || n in outlinks
    requires forall n :: n in g'.domain <==> n in g.domain || n == src || n in outlinks
    requires forall n | n in g'.domain :: g'.domain[n] == if n == src || n in outlinks then web.domainOf(n) else g.domain[n]
    ensures forall n | n in g'.nodes :: '#' !in n && n in g'.domain && g'.domain[n] == web.domainOf(n)
  {
  }

  lemma EdgesAfterFetch(web: Web, trace: seq<Entry>, e: Entry, g: Graph, g': Graph, src: Url, outlinks: seq<Url>)
    requires forall k | 0 <= k < |trace| :: PageRecorded(web, trace, g.html, k)
    requires forall d | d in g.edges :: d.0 in g.html
    requires forall n | n in g.nodes :: n in g.html || Linked(g, n)
    requires NodeOf(web, e.url) == Some(src) && g.html.Keys + {src} <= g'.html.Keys
    requires forall n :: n in g'.nodes <==> n in g.nodes || n == src || n in outlinks
    requires forall d :: d in g'.edges <==> d in g.edges || (d.0 == src && d.1 in outlinks)
    ensures forall k | 0 <= k < |trace + [e]| :: PageRecorded(web, trace + [e], g'.html, k)
    ensures forall d | d in g'.edges :: d.0 in g'.html
    ensures forall n | n in g'.nodes :: n in g'.html || Linked(g', n)
  {
    var trace' := trace + [e];
    forall k | 0 <= k < |trace'| ensures PageRecorded(web, trace', g'.html, k) {
      if k < |trace| {
        assert PageRecorded(web, trace, g.html, k);
        assert trace'[k] == trace[k];
      }
    }
    forall n | n in g'.nodes ensures n in g'.html || Linked(g', n) {
      if n in g.nodes && n !in g.html {
        var d :| d in g.edges && d.1 == n;
        assert d in g'.edges;
      } else if n != src && n !in g.nodes {
        assert (src, n) in g'.edges;
      }
    }
  }

  /** After a fetch of the front entry, the rest of the frontier and the
      outlinks it queues are derived from the entries fetched so far: the
      queued outlinks are links followed from the new entry's page. */
  lemma FrontierDerived(seeds: seq<Url>, trace: seq<Entry>, links: seq<seq<Url>>, outlinks: seq<Url>, visited: set<Url>,
                        frontier: seq<Entry>, frontier': seq<Entry>)
    requires frontier != [] && |links| == |trace|
    requires forall j | 0 <= j < |frontier| :: QueuedDerived(seeds, trace, links, frontier, j)
    requires frontier' == frontier[1..] + Enqueued(outlinks, visited, frontier[0].depth + 1)
    ensures forall j | 0 <= j < |frontier'| :: QueuedDerived(seeds, trace + [frontier[0]], links + [outlinks], frontier', j)
  {
    var trace', links' := trace + [frontier[0]], links + [outlinks];
    var added := Enqueued(outlinks, visited, frontier[0].depth + 1);
    assert trace'[|trace|] == frontier[0] && links'[|trace|] == outlinks;
    forall j | 0 <= j < |frontier'| ensures QueuedDerived(seeds, trace', links', frontier', j) {
      if j >= |frontier| - 1 {
        var child := added[j - (|frontier| - 1)];
        assert frontier'[j] == child;
        assert child.url in links'[|trace|];
      } else {
        assert QueuedDerived(seeds, trace, links, frontier, j + 1);
        assert frontier'[j] == frontier[j + 1];
        DerivedMono(seeds, trace, links, trace', links', frontier[j + 1], |trace|, |trace'|);
      }
    }
  }

  /** Expanding a page queues the unvisited outlinks behind the rest of the frontier. */
  lemma ExpandedQueue(web: Web, g: Graph, g': Graph, frontier: seq<Entry>, frontier': seq<Entry>,
                      visited: set<Url>, url: Url, depth: nat, page: Page, outlinks: seq<Url>)
    requires Expanded(web, g, g', frontier, frontier', visited, url, depth, page, outlinks)
    ensures frontier' == frontier + Enqueued(outlinks, visited, depth + 1)
  {
  }
  // ------------------------------------------------------------ links, coverage and order

  /** `links[k]` are the outlinks the `k`-th fetched entry followed: none for a
      failed fetch, otherwise at most MAX_OUTLINKS_PER_PAGE distinct links of
      its page, resolved against the queued URL. */
  ghost predicate Followed(web: Web, trace: seq<Entry>, links: seq<seq<Url>>, k: int) {
    && 0 <= k < |trace| && k < |links|
    && match web.fetch(trace[k].url)
       case None => links[k] == []
       case Some(page) =>
         var ls := LinkSet(trace[k].url, web.hrefs(page.html), web.join);
         |links[k]| == Min(|ls|, MaxOutlinksPerPage) && NoDuplicates(links[k]) && Elems(links[k]) <= ls
  }

  /** Every link the `k`-th fetched entry followed is an edge from its node. */
  ghost predicate LinksRecorded(web: Web, trace: seq<Entry>, links: seq<seq<Url>>, g: Graph, k: int) {
    && 0 <= k < |trace| && k < |links|
    && forall l | l in links[k] :: NodeOf(web, trace[k].url).Some? && (NodeOf(web, trace[k].url).value, l) in g.edges
  }

  /** Edge `e` is a link followed from the page of some fetched entry. */
  ghost predicate EdgeFollowed(web: Web, trace: seq<Entry>, links: seq<seq<Url>>, e: (Url, Url)) {
    exists k | 0 <= k < |trace| && k < |links| :: NodeOf(web, trace[k].url) == Some(e.0) && e.1 in links[k]
  }

  /** The edges of the graph are exactly the links followed from the fetched pages. */
  ghost predicate LinksOf(web: Web, trace: seq<Entry>, links: seq<seq<Url>>, g: Graph) {
    && |links| == |trace|
    && (forall k | 0 <= k < |trace| :: Followed(web, trace, links, k))
    && (forall k | 0 <= k < |trace| :: LinksRecorded(web, trace, links, g, k))
    && (forall e | e in g.edges :: EdgeFollowed(web, trace, links, e))
  }

  lemma EdgeFollowedMono(web: Web, trace: seq<Entry>, links: seq<seq<Url>>, trace': seq<Entry>, links': seq<seq<Url>>,
                         e: (Url, Url))
    requires trace <= trace' && links <= links' && EdgeFollowed(web, trace, links, e)
    ensures EdgeFollowed(web, trace', links', e)
  {
    var k :| 0 <= k < |trace| && k < |links| && NodeOf(web, trace[k].url) == Some(e.0) && e.1 in links[k];
    assert trace'[k] == trace[k] && links'[k] == links[k];
  }

  /** The followed links of the entries fetched before stay as they were. */
  lemma FollowedSnoc(web: Web, trace: seq<Entry>, links: seq<seq<Url>>, g: Graph, g': Graph, e: Entry, ls: seq<Url>)
    requires |links| == |trace| && g.edges <= g'.edges
    requires forall k | 0 <= k < |trace| :: Followed(web, trace, links, k)
    requires forall k | 0 <= k < |trace| :: LinksRecorded(web, trace, links, g, k)
    ensures forall k | 0 <= k < |trace| :: Followed(web, trace + [e], links + [ls], k)
    ensures forall k | 0 <= k < |trace| :: LinksRecorded(web, trace + [e], links + [ls], g', k)
  {
    forall k | 0 <= k < |trace|
      ensures Followed(web, trace + [e], links + [ls], k) && LinksRecorded(web, trace + [e], links + [ls], g', k)
    {
      assert Followed(web, trace, links, k) && LinksRecorded(web, trace, links, g, k);
      assert (trace + [e])[k] == trace[k] && (links + [ls])[k] == links[k];
    }
  }

  /** A failed fetch follows no link and adds no edge. */
  lemma LinksFail(web: Web, trace: seq<Entry>, links: seq<seq<Url>>, g: Graph, e: Entry)
    requires LinksOf(web, trace, links, g) && web.fetch(e.url).None?
    ensures LinksOf(web, trace + [e], links + [[]], g)
  {
    var trace', links' := trace + [e], links + [[]];
    FollowedSnoc(web, trace, links, g, g, e, []);
    assert trace'[|trace|] == e && links'[|trace|] == [];
    assert Followed(web, trace', links', |trace|) && LinksRecorded(web, trace', links', g, |trace|);
    forall d | d in g.edges ensures EdgeFollowed(web, trace', links', d) {
      EdgeFollowedMono(web, trace, links, trace', links', d);
    }
  }

  /** A fetched page follows the outlinks it expanded, and its new edges are
      exactly those links. */
  lemma LinksFetch(web: Web, trace: seq<Entry>, links: seq<seq<Url>>, g: Graph, g': Graph,
                   frontier: seq<Entry>, frontier': seq<Entry>, visited: set<Url>, e: Entry, page: Page, outlinks: seq<Url>)
    requires LinksOf(web, trace, links, g) && web.fetch(e.url) == Some(page)
    requires Expanded(web, g, g', frontier, frontier', visited, e.url, e.depth, page, outlinks)
    ensures LinksOf(web, trace + [e], links + [outlinks], g')
  {
    var trace', links' := trace + [e], links + [outlinks];
    var src := NormalizeUrl(page.finalUrl);
    assert g.edges <= g'.edges;
    FollowedSnoc(web, trace, links, g, g', e, outlinks);
    assert trace'[|trace|] == e && links'[|trace|] == outlinks;
    assert Followed(web, trace', links', |trace|);
    assert LinksRecorded(web, trace', links', g', |trace|);
    forall d | d in g'.edges ensures EdgeFollowed(web, trace', links', d) {
      if d in g.edges {
        EdgeFollowedMono(web, trace, links, trace', links', d);
      } else {
        assert NodeOf(web, trace'[|trace|].url) == Some(d.0) && d.1 in links'[|trace|];
      }
    }
  }

  lemma UrlsSnoc(trace: seq<Entry>, e: Entry)
    ensures UrlsOf(trace + [e]) == UrlsOf(trace) + {e.url}
  {
    var trace' := trace + [e];
    assert forall k | 0 <= k < |trace| :: trace'[k] == trace[k];
    assert trace'[|trace|] == e;
  }

  /** `u`, owed at depth `d`, is fetched already or still queued no deeper
      than `d`. */
  ghost predicate Covered(trace: seq<Entry>, frontier: seq<Entry>, u: Url, d: nat) {
    || u in UrlsOf(trace)
    || exists j | 0 <= j < |frontier| :: frontier[j].url == u && frontier[j].depth <= d
  }

  /** The links followed from the `k`-th fetched entry, when it is above the
      depth bound, are fetched or queued one level below it. */
  ghost predicate LinksCovered(maxDepth: int, trace: seq<Entry>, links: seq<seq<Url>>, frontier: seq<Entry>, k: int) {
    && 0 <= k < |trace| && k < |links|
    && (trace[k].depth < maxDepth ==> forall l | l in links[k] :: Covered(trace, frontier, l, trace[k].depth + 1))
  }

  /** Nothing the crawl still owes is lost: every kept seed (when depth 0 is
      within the bound) is fetched or queued at depth 0, and every link
      followed from a page above the depth bound is fetched or queued one
      level below that page. */
  ghost predicate CoverInv(seeds: seq<Url>, maxDepth: int, trace: seq<Entry>, links: seq<seq<Url>>, frontier: seq<Entry>) {
    && (0 <= maxDepth ==> forall u | u in Seeds(seeds) :: Covered(trace, frontier, u, 0))
    && (forall k | 0 <= k < |trace| :: LinksCovered(maxDepth, trace, links, frontier, k))
  }

  lemma InitCovered(seeds: seq<Url>, maxDepth: int)
    ensures CoverInv(seeds, maxDepth, [], [], InitialFrontier(seeds))
  {
    var frontier := InitialFrontier(seeds);
    if 0 <= maxDepth {
      forall u | u in Seeds(seeds) ensures Covered([], frontier, u, 0) {
        var j :| 0 <= j < |Seeds(seeds)| && Seeds(seeds)[j] == u;
        assert frontier[j].url == u && frontier[j].depth <= 0;
      }
    }
  }

  /** Popping the front entry keeps `u` covered at a depth within the bound
      when the entry, if within the bound, is fetched by now. */
  lemma CoveredAfterPop(maxDepth: int, trace: seq<Entry>, frontier: seq<Entry>, trace': seq<Entry>, frontier': seq<Entry>,
                        u: Url, d: nat)
    requires frontier != [] && d <= maxDepth && Covered(trace, frontier, u, d)
    requires UrlsOf(trace) <= UrlsOf(trace') && frontier[1..] <= frontier'
    requires frontier[0].depth <= maxDepth ==> frontier[0].url in UrlsOf(trace')
    ensures Covered(trace', frontier', u, d)
  {
    if u !in UrlsOf(trace) {
      var j :| 0 <= j < |frontier| && frontier[j].url == u && frontier[j].depth <= d;
      if j > 0 {
        assert frontier'[j - 1] == frontier[j];
      }
    }
  }

  /** Everything covered before a pop stays covered after it. */
  lemma CoverAfterPop(seeds: seq<Url>, maxDepth: int, trace: seq<Entry>, links: seq<seq<Url>>, frontier: seq<Entry>,
                      trace': seq<Entry>, links': seq<seq<Url>>, frontier': seq<Entry>)
    requires frontier != [] && CoverInv(seeds, maxDepth, trace, links, frontier)
    requires trace <= trace' && links <= links' && UrlsOf(trace) <= UrlsOf(trace') && frontier[1..] <= frontier'
    requires frontier[0].depth <= maxDepth ==> frontier[0].url in UrlsOf(trace')
    ensures 0 <= maxDepth ==> forall u | u in Seeds(seeds) :: Covered(trace', frontier', u, 0)
    ensures forall k | 0 <= k < |trace| :: LinksCovered(maxDepth, trace', links', frontier', k)
  {
    if 0 <= maxDepth {
      forall u | u in Seeds(seeds) ensures Covered(trace', frontier', u, 0) {
        CoveredAfterPop(maxDepth, trace, frontier, trace', frontier', u, 0);
      }
    }
    forall k | 0 <= k < |trace| ensures LinksCovered(maxDepth, trace', links', frontier', k) {
      assert LinksCovered(maxDepth, trace, links, frontier, k);
      assert trace'[k] == trace[k] && links'[k] == links[k];
      if trace[k].depth < maxDepth {
        forall l | l in links[k] ensures Covered(trace', frontier', l, trace[k].depth + 1) {
          CoveredAfterPop(maxDepth, trace, frontier, trace', frontier', l, trace[k].depth + 1);
        }
      }
    }
  }

  /** A skipped entry was visited already or is too deep: nothing owed is lost. */
  lemma CoverSkip(seeds: seq<Url>, maxDepth: int, trace: seq<Entry>, links: seq<seq<Url>>, frontier: seq<Entry>)
    requires frontier != [] && CoverInv(seeds, maxDepth, trace, links, frontier)
    requires frontier[0].url in UrlsOf(trace) || frontier[0].depth > maxDepth
    ensures CoverInv(seeds, maxDepth, trace, links, frontier[1..])
  {
    CoverAfterPop(seeds, maxDepth, trace, links, frontier, trace, links, frontier[1..]);
  }

  /** A fetched entry is visited, and the unvisited links it followed are
      queued one level deeper: nothing owed is lost, and its own links are
      covered. */
  lemma CoverFetch(seeds: seq<Url>, maxDepth: int, trace: seq<Entry>, links: seq<seq<Url>>, frontier: seq<Entry>,
                   outlinks: seq<Url>, frontier': seq<Entry>)
    requires frontier != [] && |links| == |trace| && CoverInv(seeds, maxDepth, trace, links, frontier)
    requires frontier' == frontier[1..] + Enqueued(outlinks, UrlsOf(trace) + {frontier[0].url}, frontier[0].depth + 1)
    ensures CoverInv(seeds, maxDepth, trace + [frontier[0]], links + [outlinks], frontier')
  {
    var f := frontier[0];
    var trace', links' := trace + [f], links + [outlinks];
    UrlsSnoc(trace, f);
    CoverAfterPop(seeds, maxDepth, trace, links, frontier, trace', links', frontier');
    QueuedCovered(trace', frontier[1..], outlinks, f.depth + 1);
    assert trace'[|trace|] == f && links'[|trace|] == outlinks;
    assert LinksCovered(maxDepth, trace', links', frontier', |trace|);
  }

  /** The outlinks not yet visited are queued at `depth`, so all of them are
      covered at that depth. */
  lemma QueuedCovered(trace: seq<Entry>, rest: seq<Entry>, outlinks: seq<Url>, depth: nat)
    ensures forall l | l in outlinks :: Covered(trace, rest + Enqueued(outlinks, UrlsOf(trace), depth), l, depth)
  {
    var added := Enqueued(outlinks, UrlsOf(trace), depth);
    var frontier := rest + added;
    forall l | l in outlinks ensures Covered(trace, frontier, l, depth) {
      if l !in UrlsOf(trace) {
        var j :| 0 <= j < |added| && added[j] == Entry(l, depth);
        assert frontier[|rest| + j] == added[j];
      }
    }
  }

  /** Breadth-first order: `last` is the depth of the entry popped last. The
      fetched entries are in non-decreasing depth, none deeper than `last`;
      the frontier is in non-decreasing depth, between `last` and one more. */
  ghost predicate BreadthFirst(trace: seq<Entry>, frontier: seq<Entry>, last: nat) {
    && (forall i, j | 0 <= i < j < |trace| :: trace[i].depth <= trace[j].depth)
    && (forall k | 0 <= k < |trace| :: trace[k].depth <= last)
    && (forall i, j | 0 <= i < j < |frontier| :: frontier[i].depth <= frontier[j].depth)
    && (forall j | 0 <= j < |frontier| :: last <= frontier[j].depth <= last + 1)
  }

  /** Popping the front entry, fetched or not, and queueing entries one level
      below it keeps the breadth-first order. */
  lemma BreadthFirstStep(trace: seq<Entry>, frontier: seq<Entry>, last: nat, trace': seq<Entry>, frontier': seq<Entry>,
                         added: seq<Entry>)
    requires frontier != [] && BreadthFirst(trace, frontier, last)
    requires forall j | 0 <= j < |added| :: added[j].depth == frontier[0].depth + 1
    requires frontier' == frontier[1..] + added
    requires trace' == trace || trace' == trace + [frontier[0]]
    ensures BreadthFirst(trace', frontier', frontier[0].depth)
  {
    assert forall j | 0 <= j < |frontier| - 1 :: frontier'[j] == frontier[j + 1];
    assert forall j | |frontier| - 1 <= j < |frontier'| :: frontier'[j] == added[j - (|frontier| - 1)];
    assert forall k | 0 <= k < |trace| :: trace'[k] == trace[k];
  }

  /** Every kept seed is among the first `k` fetched entries. */
  ghost predicate SeedsBefore(seeds: seq<Url>, trace: seq<Entry>, k: int) {
    0 <= k <= |trace| && forall u | u in Seeds(seeds) :: u in UrlsOf(trace[..k])
  }

  /** Every link followed from the `i`-th fetched entry is among the first
      `k` fetched entries. */
  ghost predicate LinksBefore(trace: seq<Entry>, links: seq<seq<Url>>, i: int, k: int) {
    0 <= i < |links| && 0 <= k <= |trace| && forall l | l in links[i] :: l in UrlsOf(trace[..k])
  }

  /** The order across levels that the FIFO frontier gives: an entry below
      the seeds is fetched only after every kept seed, and an entry two or
      more levels below a fetched entry only after every link that entry's
      page followed. */
  ghost predicate LevelOrder(seeds: seq<Url>, trace: seq<Entry>, links: seq<seq<Url>>) {
    && (forall k | 0 <= k < |trace| && trace[k].depth > 0 :: SeedsBefore(seeds, trace, k))
    && (forall i, k | 0 <= i < |trace| && 0 <= k < |trace| && trace[i].depth + 1 < trace[k].depth :: LinksBefore(trace, links, i, k))
  }

  /** What is owed at a depth above the front entry's is fetched already:
      the frontier holds nothing that shallow. */
  lemma CoveredBeforeFront(trace: seq<Entry>, frontier: seq<Entry>, last: nat, u: Url, d: nat)
    requires frontier != [] && BreadthFirst(trace, frontier, last)
    requires Covered(trace, frontier, u, d) && d < frontier[0].depth
    ensures u in UrlsOf(trace)
  {
    forall j | 0 <= j < |frontier| ensures frontier[j].depth > d {
      if j > 0 {
        assert frontier[0].depth <= frontier[j].depth;
      }
    }
  }

  /** Fetching the front entry keeps the order across levels: when it is
      below the seeds, every kept seed is fetched already, and every link
      followed from an entry two or more levels above it is fetched already. */
  lemma OrderStep(seeds: seq<Url>, maxDepth: int, trace: seq<Entry>, links: seq<seq<Url>>, frontier: seq<Entry>, last: nat,
                  ls: seq<Url>)
    requires frontier != [] && frontier[0].depth <= maxDepth && |links| == |trace|
    requires CoverInv(seeds, maxDepth, trace, links, frontier) && BreadthFirst(trace, frontier, last)
    requires LevelOrder(seeds, trace, links)
    ensures LevelOrder(seeds, trace + [frontier[0]], links + [ls])
  {
    SeedsOrderStep(seeds, maxDepth, trace, links, frontier, last);
    LinksOrderStep(maxDepth, trace, links, frontier, last, ls);
  }

  lemma SeedsOrderStep(seeds: seq<Url>, maxDepth: int, trace: seq<Entry>, links: seq<seq<Url>>, frontier: seq<Entry>, last: nat)
    requires frontier != [] && frontier[0].depth <= maxDepth
    requires CoverInv(seeds, maxDepth, trace, links, frontier) && BreadthFirst(trace, frontier, last)
    requires forall k | 0 <= k < |trace| && trace[k].depth > 0 :: SeedsBefore(seeds, trace, k)
    ensures var trace' := trace + [frontier[0]];
      forall k | 0 <= k < |trace'| && trace'[k].depth > 0 :: SeedsBefore(seeds, trace', k)
  {
    var trace' := trace + [frontier[0]];
    forall k | 0 <= k < |trace'| && trace'[k].depth > 0 ensures SeedsBefore(seeds, trace', k) {
      if k < |trace| {
        assert trace'[k] == trace[k] && trace'[..k] == trace[..k];
        assert SeedsBefore(seeds, trace, k);
      } else {
        assert trace'[..k] == trace;
        forall u | u in Seeds(seeds) ensures u in UrlsOf(trace) {
          CoveredBeforeFront(trace, frontier, last, u, 0);
        }
      }
    }
  }

  lemma LinksOrderStep(maxDepth: int, trace: seq<Entry>, links: seq<seq<Url>>, frontier: seq<Entry>, last: nat, ls: seq<Url>)
    requires frontier != [] && frontier[0].depth <= maxDepth && |links| == |trace|
    requires forall k | 0 <= k < |trace| :: LinksCovered(maxDepth, trace, links, frontier, k)
    requires BreadthFirst(trace, frontier, last)
    requires forall i, k | 0 <= i < |trace| && 0 <= k < |trace| && trace[i].depth + 1 < trace[k].depth :: LinksBefore(trace, links, i, k)
    ensures var trace', links' := trace + [frontier[0]], links + [ls];
      forall i, k | 0 <= i < |trace'| && 0 <= k < |trace'| && trace'[i].depth + 1 < trace'[k].depth :: LinksBefore(trace', links', i, k)
  {
    var e := frontier[0];
    var trace', links' := trace + [e], links + [ls];
    forall i, k | 0 <= i < |trace'| && 0 <= k < |trace'| && trace'[i].depth + 1 < trace'[k].depth
      ensures LinksBefore(trace', links', i, k)
    {
      // no fetched entry is deeper than the one fetched now
      assert trace'[k].depth <= e.depth;
      assert i < |trace| && trace'[i] == trace[i] && links'[i] == links[i];
      if k < |trace| {
        assert trace'[k] == trace[k] && trace'[..k] == trace[..k];
        assert LinksBefore(trace, links, i, k);
      } else {
        assert trace'[..k] == trace;
        assert LinksCovered(maxDepth, trace, links, frontier, i);
        forall l | l in links[i] ensures l in UrlsOf(trace) {
          CoveredBeforeFront(trace, frontier, last, l, trace[i].depth + 1);
        }
      }
    }
  }

  /** When the loop stops, what it has established gives `Crawl`'s contract. */
  lemma CrawlEnds(web: Web, seeds: seq<Url>, maxPages: int, maxDepth: int, trace: seq<Entry>, links: seq<seq<Url>>,
                  visited: set<Url>, frontier: seq<Entry>, g: Graph, last: nat)
    requires LoopInv(web, seeds, maxPages, maxDepth, trace, links, visited, frontier, g, last)
    requires frontier == [] || |visited| >= maxPages
    ensures Crawled(web, seeds, maxPages, maxDepth, g, trace, links, frontier)
  {
    forall k | 0 <= k < |trace| ensures trace[k].depth <= maxDepth && Derived(seeds, trace, links, trace[k], k) {
      assert FetchedInOrder(seeds, maxDepth, trace, links, k);
    }
    forall j | 0 <= j < |frontier| ensures Derived(seeds, trace, links, frontier[j], |trace|) {
      assert QueuedDerived(seeds, trace, links, frontier, j);
    }
    forall k, l | 0 <= k < |trace| && l in links[k]
      ensures NodeOf(web, trace[k].url).Some? && (NodeOf(web, trace[k].url).value, l) in g.edges
    {
      assert LinksRecorded(web, trace, links, g, k);
    }
    forall k, u | 0 <= k < |trace| && trace[k].depth > 0 && u in Seeds(seeds) ensures u in UrlsOf(trace[..k]) {
      assert SeedsBefore(seeds, trace, k);
    }
    forall i, k, l | 0 <= i < |trace| && 0 <= k < |trace| && trace[i].depth + 1 < trace[k].depth && l in links[i]
      ensures l in UrlsOf(trace[..k])
    {
      assert LinksBefore(trace, links, i, k);
    }
    if |trace| < maxPages {
      assert frontier == [];
      forall k, l | 0 <= k < |trace| && trace[k].depth < maxDepth && l in links[k] ensures l in UrlsOf(trace) {
        assert LinksCovered(maxDepth, trace, links, frontier, k);
      }
    }
  }
}
