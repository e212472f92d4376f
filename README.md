# Crawl, filter and rank: a Dafny model of the search demo's core

The application crawls the web breadth-first from a list of seed URLs and
builds a directed page graph. Nodes are URLs, carrying the page body and a
registrable domain; edges are links. It then keeps the pages whose body
contains every word of the query and ranks them. This project models that
pipeline and proves what it guarantees:

- `basics.dfy` (`Basics`): `Option`, `Min`/`Max` and small sequence and set facts.
- `text.dfy` (`Text`): the parts of Python's `str` the code relies on:
  - `isspace` with Python's full whitespace set;
  - `strip`, `split()` and `lower`;
  - the substring test `t in s`.
- `urls.dfy` (`Urls`): `normalize_url`, `looks_like_webpage` and the href filter of `extract_links`.
  - The extension regular expression is modelled position by position: an alternative, then `(\?|$)`, with `re.I` case-insensitivity.
  - Python's `$` also matches before a final newline, and the model includes that.
- `graph.dfy` (`PageGraph`): the DiGraph as a value. It holds:
  - a node set;
  - `html` and `domain` attribute maps;
  - an edge set.
  It also provides the `add_node`/`add_edge`/`subgraph` operations the code uses.
- `crawler.dfy` (`Crawler`): `crawl_and_build_graph`.
  - It is a `while` loop over a FIFO frontier of `(url, depth)` entries and a visited set.
  - One turn of the loop is `Step`. A fetched page is handled by `ExpandPage`, and its outlinks by the `for` loop in `AddOutlinks`.
  - The network and the parsers are oracles in a `Web` value: `fetch`, `hrefs` (the anchors' href attributes), `join` (urljoin) and `domainOf`.
  - A ghost `trace` records the entries that were not skipped, that is, the fetched ones. A ghost `links` records, for each of them, the outlinks its page followed.
  - The loop invariant `LoopInv` ties the visited set, the frontier and the graph to them. It has five parts:
    - `CrawlInv`: every entry was queued by a seed or by a fetched page;
    - `LinksOf`: the edges are exactly the followed links;
    - `CoverInv`: nothing the crawl owes is lost from the frontier;
    - `BreadthFirst`: entries are fetched in non-decreasing depth;
    - `LevelOrder`: an entry below the seeds is fetched after every kept seed, and an entry two or more levels below a fetched page after every link that page followed.
  - `Crawled` states what `Crawl` promises, besides a well-formed graph, for any budget and depth limit.
- `relevance.dfy` (`Relevance`): `filter_graph_by_query`.
  - `Filtered` is the specification.
  - `FilterGraphByQuery` is the loop over the nodes, proved equal to it.
- `ranking.dfy` (`Ranking`): `sorted(items, key=score, reverse=True)[:K]` in the search route.
  - It is modelled as a stable insertion sort on `(url, score)` pairs.

The code is followed as written:
- the visited set holds the queued URL, not the final one;
- links are resolved against the queued URL;
- the webpage test runs on the resolved URL before its fragment is dropped;
- relevance is decided after the crawl, on the lower-cased raw HTML, and needs every term.

## Model

| member | source | states |
|---|---|---|
| Urls.NormalizeUrl | app.py:25-28 | the result has no '#', is a prefix of the URL, and ends only where the URL's first '#' starts |
| Urls.NormalizeKeepsFragmentFree | app.py:25-28 | a URL without a fragment is left unchanged |
| Urls.NormalizeCutsFragment | app.py:25-28 | `u#f` normalises to `u` for a fragment-free `u` |
| Urls.NormalizeKeepsQuery | app.py:27 | the query between '?' and '#' is kept, and only the fragment is removed |
| Urls.NormalizeIdempotent | app.py:25-28 | normalising twice is normalising once |
| Urls.MatchesAnyIff | app.py:32 | the alternation matches at a position exactly when one of the extensions matches there |
| Urls.SearchFromIff | app.py:32 | `re.search` succeeds exactly when some start position and some extension match |
| Urls.SearchFromPrefixIff | app.py:32 | the search for any list of alternatives succeeds exactly when a prefix ending before a '?', at the end or before a final newline ends, ignoring ASCII case, with '.' and one of them |
| Urls.LooksLikeWebpage | app.py:31-32 | a URL is rejected exactly when a prefix of it that ends at the end, before a '?' or before a final newline ends, ignoring ASCII case, with '.' and one of the eleven extensions |
| Urls.PlainUrlIff | app.py:31-32 | without '?' and newline, a URL passes exactly when it does not end with a non-page extension |
| Urls.RejectsUpperCaseDocument | app.py:32 | `re.I`: `.../report.PDF` is rejected |
| Urls.RejectsImageWithQuery | app.py:32 | the extension may be followed by a query: `.../logo.png?v=2` is rejected |
| Urls.RejectsDocument | app.py:32 | `.../f.pdf` is rejected |
| Urls.LinkOf | app.py:39-44 | an href contributes nothing exactly when, stripped, it starts with '#', 'mailto:' or 'javascript:', or its resolved URL fails the webpage test. Otherwise it contributes its resolved URL cut at the first '#': no '#', a prefix of the resolved URL, followed there by '#' when shorter |
| Urls.LinkSet | app.py:37-45 | a link is collected exactly when some href contributes it, and no collected link has a fragment |
| Urls.LinkSetMembership | app.py:38-45 | a link is collected exactly when some stripped href is not a '#', 'mailto:' or 'javascript:' link, its resolved URL passes the webpage test, and the link is that URL normalised; every collected link is fragment-free |
| Urls.KeepsDocumentWithFragment | app.py:42-44 | the webpage test does not see the extension of `.../f.pdf#p2`, so that URL passes it |
| Urls.FragmentHidesExtension | app.py:43-44 | that URL is kept as `.../f.pdf`, a link the webpage test on its own rejects |
| Urls.ExtractLinks | app.py:35-45 | the loop returns the collected link set as a list without duplicates |
| Urls.ListOf | app.py:45 | `list(set)` holds every element once |
| Text.Strip | app.py:108 | `strip` returns a middle piece of the string: what it cuts off at both ends is all whitespace, and the result neither starts nor ends with whitespace |
| Text.Lower | app.py:108 | `lower` keeps the length and lower-cases each character on its own |
| Text.StripEmptyIff | app.py:108-109 | `strip` leaves nothing exactly when the string is all whitespace; otherwise the result neither starts nor ends with whitespace |
| Text.SplitIsWords | app.py:113 | the words of `split()` are exactly the maximal runs of non-whitespace characters: non-empty, free of whitespace, and preceded and followed by whitespace or an end of the string |
| Text.SplitFromSound | app.py:113 | every word `split()` yields from a position between runs is a maximal run at or after that position |
| Text.SplitFromComplete | app.py:113 | every maximal run at or after a position between runs is yielded by `split()` from there |
| Text.SplitWords | app.py:113 | every word of `split()` is non-empty and holds no whitespace |
| Text.SplitEmptyIff | app.py:113 | `split()` is empty exactly when the string is all whitespace |
| PageGraph.Graph.AddPage | app.py:85 | `add_node` with both attributes adds the node, sets its attributes, keeps the edges and keeps the graph well formed |
| PageGraph.Graph.AddLink | app.py:89 | `add_node` with a domain keeps an existing `html` attribute and keeps the graph well formed |
| PageGraph.Graph.AddEdge | app.py:90 | `add_edge` adds the edge and its endpoints and keeps the graph well formed |
| PageGraph.Graph.Induced | app.py:125 | the subgraph holds the kept nodes that exist, their attributes, and exactly the edges between them |
| Crawler.Seeds | app.py:66 | exactly min(#seeds, MAX_SEEDS) seeds, a prefix of the input, so all of them when there are few enough |
| Crawler.InitialFrontier | app.py:66 | the first frontier has min(#seeds, MAX_SEEDS) entries, each a seed at depth 0 in seed order |
| Crawler.NodeOf | app.py:80-81 | a queued URL has a node exactly when its fetch succeeds. The node is the final URL cut at its first '#': it has no '#', it is a prefix of the final URL, and when it is shorter the final URL goes on with '#' |
| Crawler.Enqueued | app.py:91-92 | the entries queued for a page's outlinks are exactly the unvisited outlinks, at the given depth |
| Crawler.EnqueuedInOrder | app.py:88-92 | the queued entries follow the order of the outlinks |
| Crawler.InOrderSnoc | app.py:88-92 | entries queued in the order of the outlinks, then one for the next outlink, follow the order of the longer outlink list |
| Crawler.AddOutlink | app.py:88-92 | one outlink becomes a node with its domain and an edge target from the page; it is queued one level deeper exactly when it is unvisited |
| Crawler.AddOutlinks | app.py:88-92 | the graph grows by exactly the outlinks and the edges to them, by at most one edge per outlink, and the frontier grows by the queued entries |
| Crawler.GrownByLink | app.py:89-90 | adding an outlink keeps the graph well formed and adds exactly that node and edge |
| Crawler.ExpandPage | app.py:80-92 | the page becomes a node under its normalised final URL with its body. At most MAX_OUTLINKS_PER_PAGE distinct links become nodes and edge targets, all from that node, with at most that many new edges. The unvisited links are queued at depth + 1 |
| Crawler.Step | app.py:69-92 | an entry is skipped exactly when its URL was visited or it is too deep, and then nothing else changes. Otherwise its URL is marked visited. A failed fetch changes nothing else. A successful fetch expands the page |
| Crawler.Crawl | app.py:63-93 | the graph is well formed. The loop stops only when the frontier is empty or max_pages URLs were visited. At most max_pages entries are fetched, no URL twice, none deeper than max_depth. Every fetched and every still-queued entry is a kept seed at depth 0, or a link followed from the page of an earlier fetched entry one level up. Each node's content is the body of the last fetched page that normalises to it, and every node is fragment-free with its domain. Each fetched page followed min(#links, MAX_OUTLINKS_PER_PAGE) distinct links of its page, none for a failed fetch. The edges are exactly the links followed, from the page's node. Pages are fetched in non-decreasing depth, the first seed first. A page below the seeds is fetched after every kept seed. A page two or more levels below a fetched page is fetched after every link that page followed. When the budget was not spent, every kept seed and every link followed from a page above max_depth was fetched |
| Crawler.CrawlWithDefaults | app.py:63-93 | with the default arguments, everything Crawl promises for MAX_PAGES and CRAWL_DEPTH holds, and every kept seed is fetched, whether or not the budget ran out |
| Crawler.DefaultsVisitSeeds | app.py:63-72 | since MAX_SEEDS (15) < MAX_PAGES (50), a crawl with the default budget fetches every kept seed: a crawl that spent its budget has fetched a non-seed, and that page came after all the seeds |
| Crawler.Turn | app.py:68-92 | one turn of the loop keeps the loop invariant, and either visits one more URL or shrinks the frontier |
| Crawler.SkipTurn | app.py:69-71 | a skipped entry keeps the loop invariant |
| Crawler.FailTurn | app.py:72-78 | a failed fetch keeps the loop invariant, recording the entry with no followed links |
| Crawler.FetchTurn | app.py:72-92 | a successful fetch keeps the loop invariant, recording the entry with the links its page followed |
| Crawler.FetchKeepsGraph | app.py:80-92 | after a successful fetch, the graph still agrees with the fetched entries and the links they followed |
| Crawler.FetchKeepsOrder | app.py:69-92 | after a fetch, nothing owed is lost, the order stays breadth-first, and the first fetched entry is the first seed |
| Crawler.FirstSeedFirst | app.py:66-69 | the first entry fetched is the first seed |
| Crawler.LinksFail | app.py:77-78 | a failed fetch follows no link and adds no edge |
| Crawler.LinksFetch | app.py:87-90 | a fetched page follows the outlinks it expanded, and the new edges are exactly those links from its node |
| Crawler.InitCovered | app.py:66 | every kept seed starts in the frontier at depth 0 |
| Crawler.CoverSkip | app.py:70-71 | skipping a visited or too-deep entry loses nothing the crawl owes |
| Crawler.CoverFetch | app.py:72-92 | visiting an entry and queueing its unvisited outlinks one level deeper loses nothing owed and covers the entry's own links |
| Crawler.QueuedCovered | app.py:91-92 | every outlink of a page within the depth bound is visited or queued |
| Crawler.BreadthFirstStep | app.py:69-92 | popping the front entry and appending entries one level below it keeps the fetched entries and the FIFO frontier in non-decreasing depth |
| Crawler.OrderStep | app.py:66-92 | fetching the front entry of the FIFO frontier keeps the order across levels |
| Crawler.SeedsOrderStep | app.py:66-72 | an entry below the seeds is popped only when every kept seed was fetched already |
| Crawler.LinksOrderStep | app.py:69-92 | an entry two or more levels below a fetched page is popped only when every link that page followed was fetched already |
| Crawler.CoveredBeforeFront | app.py:69-92 | a URL owed at a depth above the front entry's is fetched already, since the FIFO frontier holds nothing that shallow |
| Crawler.CrawlEnds | app.py:68-93 | when the loop stops, the loop invariant gives the crawl's contract |
| Crawler.InitPreserves | app.py:64-66 | the empty graph, the empty visited set and the seed frontier satisfy the crawl invariant |
| Crawler.SkipPreserves | app.py:69-71 | popping a skipped entry keeps the invariant |
| Crawler.VisitPreserves | app.py:70-72 | marking an unvisited URL visited keeps the visited set equal to the fetched URLs, all distinct |
| Crawler.FailPreserves | app.py:72-78 | a failed fetch keeps the invariant with the graph unchanged |
| Crawler.BuiltFromFail | app.py:77-78 | a failed fetch leaves what the graph records about the fetched pages valid |
| Crawler.FetchPreserves | app.py:80-92 | a successful fetch keeps the invariant |
| Crawler.BuiltFromFetch | app.py:81-90 | after a successful fetch, the page is the content of its node, the new nodes are fragment-free with their domain, and the new edges leave that page |
| Crawler.ContentAfterFetch | app.py:81-85 | the fetched body becomes the content of the page's node, overwriting what an earlier page with that node left; every other node keeps its content |
| Crawler.ContentSnoc | app.py:77-85 | a fetch whose page does not become node n leaves n's content the body of the last page fetched as n |
| Crawler.FrontierDerived | app.py:87-92 | after a fetch, every queued entry is a seed or the outlink of a fetched page one level up |
| Relevance.QueryText | app.py:108 | the query text is the lower-cased middle of the query: what `strip` cuts off is all whitespace, it is empty exactly when the query is all whitespace, and otherwise neither starts nor ends with whitespace |
| Relevance.Terms | app.py:113 | the query terms are exactly the maximal runs of non-whitespace characters of the query text, each non-empty and free of whitespace |
| Relevance.MatchesEveryWord | app.py:113-122 | a body matches exactly when its lower-cased form contains every maximal run of non-whitespace characters of the query text |
| Relevance.Kept | app.py:125-130 | the result is a well-formed subgraph of the graph |
| Relevance.Filtered | app.py:96-130 | the result is a subgraph of the graph, well formed when the graph is |
| Relevance.FilterGraphByQuery | app.py:96-130 | the loop over the nodes computes `Filtered` |
| Relevance.BlankIff | app.py:108-113 | the lower-cased stripped query is empty exactly when the query is all whitespace, and exactly when it has no terms |
| Relevance.BlankQueryKeepsGraph | app.py:108-110 | a blank query returns the graph unchanged |
| Relevance.FilteredIsInducedSubgraph | app.py:113-130 | a non-blank query keeps exactly the nodes whose body contains every term, with their attributes, and exactly the edges between kept nodes |
| Relevance.KeptIsInduced | app.py:125-130 | returning a fresh empty graph when nothing is relevant agrees with the induced subgraph |
| Relevance.NoneRelevantGivesEmpty | app.py:125-128 | when no node qualifies, the result is the empty graph |
| Relevance.KeptIdempotent | app.py:113-130 | keeping the relevant part twice is keeping it once |
| Relevance.FilterIdempotent | app.py:96-130 | filtering twice by the same query is filtering once |
| Ranking.Insert | app.py:169 | inserting one item gives a permutation of the items plus it |
| Ranking.SortDesc | app.py:169 | the sort returns a permutation of its input |
| Ranking.InsertDescending | app.py:169 | inserting into a non-increasing sequence keeps it non-increasing |
| Ranking.SortDescending | app.py:169 | `sorted(..., reverse=True)` is in non-increasing score order |
| Ranking.InsertStable | app.py:169 | an inserted item goes ahead of the items with its score, and the items of other scores keep their order |
| Ranking.SortStable | app.py:169 | the sort is stable: for every score, the items with that score keep their input order |
| Ranking.TopK | app.py:169 | `[:K]` keeps min(n, K) items |
| Ranking.TopKIsTop | app.py:169 | the top K are in non-increasing order and come from the input (all of it when there are at most K). No item left out scores more than an item kept |

## Left out

- HTTP fetching (`fetch`, `is_probable_html`, headers, timeout): modelled by the oracle `Web.fetch`. It gives the final URL and body of a 200 HTML response, or None.
- `time.sleep` between requests: a timing side effect.
- BeautifulSoup parsing is the oracle `Web.hrefs`. `urljoin` is the oracle `Web.join`. `tldextract` (`domain`) is the oracle `Web.domainOf`.
- Urls.NormalizeUrl: models `urlparse(...)._replace(fragment="").geturl()` as cutting the URL at its first '#'. Among the other canonicalisations of `urlparse`/`geturl` that are not modelled are:
  - an empty query's '?' is dropped;
  - the scheme is lower-cased;
  - tabs and newlines are removed;
  - leading control characters are stripped;
  - an empty ';' parameter is dropped.
- Urls.NormalizeUrl and the oracle `Web.join`: both are total. `urlparse` and `urljoin` go through `urlsplit`, which raises `ValueError` ("Invalid IPv6 URL") when the network location has an unbalanced '[' or ']'. That can happen at app.py:42, 44 and 81, outside the only `try` (app.py:54-60), so `crawl_and_build_graph` can end with that exception. The model does not capture it.
- Urls.LooksLikeWebpage: `re.I` is modelled on ASCII letters only. Non-ASCII characters that Python's case-insensitive matching equates with an ASCII letter (such as 'ſ' for 's') are not modelled.
- Text.Lower: lower-cases ASCII letters only. Python's `str.lower` also lower-cases other letters, so non-ASCII query terms and bodies can match differently.
- The order of `list(links)` (the set's hash order) is left open. Any outlinks within the `[:MAX_OUTLINKS_PER_PAGE]` slice can therefore be the ones kept. The order in which `filter_graph_by_query` visits `G.nodes` is also left open; it does not affect the result.
- The `html is not None` test (app.py:118): in the model an `html` attribute is always a string, because the crawler only stores fetched bodies.
- Node attributes other than `html` and `domain`: the code sets no others.
- Crawler.Crawl: the contract states the order across levels: depths never decrease; seeds come before deeper pages; a page's links come before pages two levels below it. It does not state the FIFO order among entries of the same depth, for example that the seeds are fetched in the order given.
- The ghost outputs `trace`, `links` and `pending` of `Crawl` exist only for its contract: the Python function returns only the graph.
- `compute_pagerank` and `compute_hits` (floating-point iterations in NetworkX): the scores are an input to `Ranking`, as reals. NaN scores are not modelled.
- The Flask route: form handling, `flash`, `render_template`, the error-message call, and HITS being computed on `G` rather than `G_prime` (app.py:180).
