/**
 * The URL helpers of the crawler (app.py): `normalize_url`, `looks_like_webpage`
 * and the href filtering of `extract_links`.
 */
module Urls {
  import opened Basics
  import opened Text

  // ---------------------------------------------------------------- normalize_url

  /** Index of the first '#' of `url`, or |url| when there is none: where
      `urlparse` splits off the fragment. */
  function FragmentStart(url: string): (i: nat)
    ensures i <= |url|
    ensures forall j | 0 <= j < i :: url[j] != '#'
    ensures i < |url| ==> url[i] == '#'
  {
    if url == [] || url[0] == '#' then 0 else 1 + FragmentStart(url[1..])
  }

  /** `normalize_url`: the URL with its fragment removed; everything before the
      first '#' (scheme, host, path, query) is kept as it is. */
  function NormalizeUrl(url: string): (r: string)
    ensures '#' !in r
    ensures r <= url
    ensures |r| < |url| ==> url[|r|] == '#'
  {
    url[..FragmentStart(url)]
  }

  /** A URL without a fragment is its own normal form: the query survives. */
  lemma NormalizeKeepsFragmentFree(url: string)
    requires '#' !in url
    ensures NormalizeUrl(url) == url
  {
  }

  /** The query string, everything between '?' and '#', is preserved. */
  lemma NormalizeKeepsQuery(base: string, query: string, fragment: string)
    requires '#' !in base && '#' !in query
    ensures NormalizeUrl(base + "?" + query + "#" + fragment) == base + "?" + query
  {
    var u := base + "?" + query + "#" + fragment;
    var p := base + "?" + query;
    assert u == p + "#" + fragment;
    assert u[|p|] == '#';
  }

  /** The fragment, from the first '#' on, is what normalisation removes. */
  lemma NormalizeCutsFragment(url: string, fragment: string)
    requires '#' !in url
    ensures NormalizeUrl(url + "#" + fragment) == url
  {
    var u := url + "#" + fragment;
    assert u[|url|] == '#';
  }

  /** Normalising twice is normalising once. */
  lemma NormalizeIdempotent(url: string)
    ensures NormalizeUrl(NormalizeUrl(url)) == NormalizeUrl(url)
  {
    NormalizeKeepsFragmentFree(NormalizeUrl(url));
  }

  // ----------------------------------------------------------- looks_like_webpage

  /** The alternatives of the pattern `\.(pdf|png|...|mp3)(\?|$)`. */
  const NonPageExtensions: seq<string> :=
    ["pdf", "png", "jpg", "jpeg", "gif", "svg", "zip", "rar", "tar", "mp4", "mp3"]

  /** Where `(\?|$)` can match at index k: before a '?', at the end of the
      string, or (Python's `$` without MULTILINE) just before a final newline. */
  predicate ExtensionEndsAt(url: string, k: nat) {
    || k == |url|
    || (k < |url| && url[k] == '?')
    || (k + 1 == |url| && url[k] == '\n')
  }

  /** The pattern matches at index i with the alternative `ext`; re.I makes the
      letters case-insensitive. */
  predicate ExtensionAt(url: string, i: nat, ext: string) {
    && i + 1 + |ext| <= |url|
    && url[i] == '.'
    && Lower(url[i + 1..i + 1 + |ext|]) == ext
    && ExtensionEndsAt(url, i + 1 + |ext|)
  }

  /** The alternatives `exts` tried in order at index i. */
  predicate MatchesAny(url: string, i: nat, exts: seq<string>)
    decreases |exts|
  {
    exts != [] && (ExtensionAt(url, i, exts[0]) || MatchesAny(url, i, exts[1..]))
  }

  lemma {:induction false} MatchesAnyIff(url: string, i: nat, exts: seq<string>)
    ensures MatchesAny(url, i, exts) <==> exists ext | ext in exts :: ExtensionAt(url, i, ext)
    decreases |exts|
  {
    if exts != [] {
      MatchesAnyIff(url, i, exts[1..]);
      assert forall ext :: ext in exts <==> ext == exts[0] || ext in exts[1..];
    }
  }

  /** `re.search` from index i with the alternatives `exts`: try every start
      position in turn. */
  function SearchFrom(url: string, i: nat, exts: seq<string>): bool
    requires i <= |url|
    decreases |url| - i
  {
    MatchesAny(url, i, exts) || (i < |url| && SearchFrom(url, i + 1, exts))
  }

  lemma {:induction false} SearchFromIff(url: string, i: nat, exts: seq<string>)
    requires i <= |url|
    ensures SearchFrom(url, i, exts) <==> exists j, ext | i <= j <= |url| && ext in exts :: ExtensionAt(url, j, ext)
    decreases |url| - i
  {
    MatchesAnyIff(url, i, exts);
    if i < |url| {
      SearchFromIff(url, i + 1, exts);
    }
  }

  /** `looks_like_webpage`: a URL is rejected exactly when some prefix of it
      that ends before a '?', at the end, or before a final newline ends with
      a non-page extension. */
  function LooksLikeWebpage(url: string): (r: bool)
    ensures !r <==> exists k | 0 <= k <= |url| :: ExtensionEndsAt(url, k) && EndsWithNonPageExtension(url[..k])
  {
    SearchFromPrefixIff(url, NonPageExtensions);
    !SearchFrom(url, 0, NonPageExtensions)
  }

  /** `p` ends, ignoring ASCII case, with '.' followed by one of `exts`. */
  ghost predicate EndsWithAny(p: string, exts: seq<string>) {
    exists ext | ext in exts :: EndsWithDotExtension(p, ext)
  }

  /** `p` ends, ignoring ASCII case, with '.' followed by a non-page extension. */
  ghost predicate EndsWithNonPageExtension(p: string) {
    EndsWithAny(p, NonPageExtensions)
  }

  /** The dot and the extension matched separately are the dot-extension
      suffix matched as one piece. */
  lemma LowerDotExtension(url: string, j: nat, ext: string)
    requires j + 1 + |ext| <= |url|
    ensures (url[j] == '.' && Lower(url[j + 1..j + 1 + |ext|]) == ext) <==> Lower(url[j..j + 1 + |ext|]) == ['.'] + ext
  {
    var whole := Lower(url[j..j + 1 + |ext|]);
    var tail := Lower(url[j + 1..j + 1 + |ext|]);
    assert whole[0] == LowerChar(url[j]);
    assert forall m | 0 <= m < |ext| :: whole[m + 1] == tail[m];
    if whole == ['.'] + ext {
      assert forall m | 0 <= m < |ext| :: tail[m] == ext[m];
    }
  }

  /** `p` ends, ignoring ASCII case, with '.' followed by `ext`. */
  predicate EndsWithDotExtension(p: string, ext: string) {
    |ext| + 1 <= |p| && Lower(p[|p| - |ext| - 1..]) == ['.'] + ext
  }

  /** The pattern matching at index j with `ext` is the prefix ending after the
      extension ending with it. */
  lemma ExtensionAtIff(url: string, j: nat, ext: string)
    requires j + 1 + |ext| <= |url|
    ensures ExtensionAt(url, j, ext) <==>
      ExtensionEndsAt(url, j + 1 + |ext|) && EndsWithDotExtension(url[..j + 1 + |ext|], ext)
  {
    var k := j + 1 + |ext|;
    assert url[..k][k - |ext| - 1..] == url[j..k];
    LowerDotExtension(url, j, ext);
  }

  /** A successful search has a prefix, ending where `(\?|$)` matches, that
      ends with one of the extensions. */
  lemma FoundHasExtensionPrefix(url: string, exts: seq<string>)
    requires SearchFrom(url, 0, exts)
    ensures exists k | 0 <= k <= |url| :: ExtensionEndsAt(url, k) && EndsWithAny(url[..k], exts)
  {
    SearchFromIff(url, 0, exts);
    var j, ext :| 0 <= j <= |url| && ext in exts && ExtensionAt(url, j, ext);
    ExtensionAtIff(url, j, ext);
    var k := j + 1 + |ext|;
    assert ExtensionEndsAt(url, k) && EndsWithAny(url[..k], exts);
  }

  /** A URL with such a prefix is found by the search. */
  lemma ExtensionPrefixFound(url: string, exts: seq<string>, k: nat)
    requires k <= |url| && ExtensionEndsAt(url, k) && EndsWithAny(url[..k], exts)
    ensures SearchFrom(url, 0, exts)
  {
    var ext :| ext in exts && EndsWithDotExtension(url[..k], ext);
    var j := k - |ext| - 1;
    ExtensionAtIff(url, j, ext);
    SearchFromIff(url, 0, exts);
  }

  /** The search succeeds exactly when some prefix of the URL, ending where
      `(\?|$)` can match, ends with one of the extensions. */
  lemma SearchFromPrefixIff(url: string, exts: seq<string>)
    ensures SearchFrom(url, 0, exts) <==>
      exists k | 0 <= k <= |url| :: ExtensionEndsAt(url, k) && EndsWithAny(url[..k], exts)
  {
    if SearchFrom(url, 0, exts) {
      FoundHasExtensionPrefix(url, exts);
    }
    if exists k | 0 <= k <= |url| :: ExtensionEndsAt(url, k) && EndsWithAny(url[..k], exts) {
      var k :| 0 <= k <= |url| && ExtensionEndsAt(url, k) && EndsWithAny(url[..k], exts);
      ExtensionPrefixFound(url, exts, k);
    }
  }

  /** Without a '?' and without a final newline the pattern can only end at
      the end of the URL: the URL is rejected exactly when it ends with a
      non-page extension. */
  lemma PlainUrlIff(url: string)
    requires '?' !in url && '\n' !in url
    ensures LooksLikeWebpage(url) <==> !EndsWithNonPageExtension(url)
  {
    assert url[..|url|] == url;
  }

  /** The test ignores case: a PDF link in capitals is rejected. */
  lemma RejectsUpperCaseDocument()
    ensures !LooksLikeWebpage("http://a.test/report.PDF")
  {
    var u := "http://a.test/report.PDF";
    assert "pdf" in NonPageExtensions;
    assert ExtensionAt(u, 20, "pdf") by {
      assert u[21..24] == "PDF";
    }
    SearchFromIff(u, 0, NonPageExtensions);
  }

  /** The test stops at the query: an image link with a query is rejected. */
  lemma RejectsImageWithQuery()
    ensures !LooksLikeWebpage("http://a.test/logo.png?v=2")
  {
    var u := "http://a.test/logo.png?v=2";
    assert "png" in NonPageExtensions;
    assert ExtensionAt(u, 18, "png") by {
      assert u[19..22] == "png";
    }
    SearchFromIff(u, 0, NonPageExtensions);
  }

  lemma RejectsDocument()
    ensures !LooksLikeWebpage("http://a.test/f.pdf")
  {
    var u := "http://a.test/f.pdf";
    assert "pdf" in NonPageExtensions;
    assert ExtensionAt(u, 15, "pdf") by {
      assert u[16..19] == "pdf";
    }
    SearchFromIff(u, 0, NonPageExtensions);
  }

  // ------------------------------------------------------ extract_links (filter)

  /** The hrefs that extract_links skips before resolving them (case-sensitive
      prefixes of the stripped attribute). */
  predicate IsSkippedHref(href: string) {
    "#" <= href || "mailto:" <= href || "javascript:" <= href
  }

  /** What one anchor's raw href contributes to the link set: it is stripped,
      skipped if it is a fragment, mail or script link, resolved against the
      base URL (`join` is urljoin), kept if the absolute URL looks like a
      webpage and then normalised. */
  function LinkOf(baseUrl: string, raw: string, join: (string, string) -> string): (o: Option<string>)
    ensures o.None? <==> IsSkippedHref(Strip(raw)) || !LooksLikeWebpage(join(baseUrl, Strip(raw)))
    ensures o.Some? ==> '#' !in o.value && o.value <= join(baseUrl, Strip(raw))
    ensures o.Some? && |o.value| < |join(baseUrl, Strip(raw))| ==> join(baseUrl, Strip(raw))[|o.value|] == '#'
  {
    var href := Strip(raw);
    if IsSkippedHref(href) then None
    else
      var absolute := join(baseUrl, href);
      if LooksLikeWebpage(absolute) then Some(NormalizeUrl(absolute)) else None
  }

  /** The link an href contributes, as a set of at most one element. */
  function Contributed(o: Option<string>): set<string> {
    match o
    case Some(l) => {l}
    case None => {}
  }

  /** The set of what `f` gives for the elements of `xs`, one at a time. */
  function Collected(xs: seq<string>, f: string -> Option<string>): set<string>
    decreases |xs|
  {
    if xs == [] then {}
    else Collected(xs[..|xs| - 1], f) + Contributed(f(xs[|xs| - 1]))
  }

  lemma {:induction false} CollectedHas(xs: seq<string>, f: string -> Option<string>, y: string)
    ensures y in Collected(xs, f) <==> exists i | 0 <= i < |xs| :: f(xs[i]) == Some(y)
    decreases |xs|
  {
    if xs != [] {
      var n := |xs| - 1;
      var init := xs[..n];
      CollectedHas(init, f, y);
      assert forall i | 0 <= i < n :: init[i] == xs[i];
      if y in Contributed(f(xs[n])) {
        assert f(xs[n]) == Some(y);
      }
    }
  }

  lemma CollectedIff(xs: seq<string>, f: string -> Option<string>)
    ensures forall y :: y in Collected(xs, f) <==> exists i | 0 <= i < |xs| :: f(xs[i]) == Some(y)
  {
    forall y ensures y in Collected(xs, f) <==> exists i | 0 <= i < |xs| :: f(xs[i]) == Some(y) {
      CollectedHas(xs, f, y);
    }
  }

  /** The set of links extract_links collects from the given hrefs: exactly
      the links the hrefs contribute, none of them with a fragment. */
  function LinkSet(baseUrl: string, hrefs: seq<string>, join: (string, string) -> string): (links: set<string>)
    ensures forall l :: l in links <==> exists i | 0 <= i < |hrefs| :: LinkOf(baseUrl, hrefs[i], join) == Some(l)
    ensures forall l | l in links :: '#' !in l
  {
    CollectedIff(hrefs, raw => LinkOf(baseUrl, raw, join));
    Collected(hrefs, raw => LinkOf(baseUrl, raw, join))
  }

  /** Taking one more href adds at most its own link. */
  lemma LinkSetSnoc(baseUrl: string, hrefs: seq<string>, i: nat, join: (string, string) -> string)
    requires i < |hrefs|
    ensures LinkSet(baseUrl, hrefs[..i + 1], join) == LinkSet(baseUrl, hrefs[..i], join) + Contributed(LinkOf(baseUrl, hrefs[i], join))
  {
    assert hrefs[..i + 1][..i] == hrefs[..i];
  }

  /** Every collected link comes from an href that is not a fragment, mail or
      script link, whose resolved URL passed the webpage test, and it has no
      fragment; conversely every such href contributes its link. */
  lemma LinkSetMembership(baseUrl: string, hrefs: seq<string>, join: (string, string) -> string, link: string)
    ensures link in LinkSet(baseUrl, hrefs, join) <==>
      exists i | 0 <= i < |hrefs| ::
        && !IsSkippedHref(Strip(hrefs[i]))
        && LooksLikeWebpage(join(baseUrl, Strip(hrefs[i])))
        && link == NormalizeUrl(join(baseUrl, Strip(hrefs[i])))
    ensures link in LinkSet(baseUrl, hrefs, join) ==> '#' !in link
  {
    CollectedHas(hrefs, raw => LinkOf(baseUrl, raw, join), link);
  }

  /** The webpage test looks for the extension only before a '?' or at the
      end, so a document URL carrying a fragment passes it. */
  lemma KeepsDocumentWithFragment()
    ensures LooksLikeWebpage("http://a.test/f.pdf#p2")
  {
    var u := "http://a.test/f.pdf#p2";
    PlainUrlIff(u);
    forall ext | ext in NonPageExtensions ensures !EndsWithDotExtension(u, ext) {
      var d := |u| - |ext| - 1;
      assert d == 18 || d == 17;
      assert Lower(u[d..])[0] == LowerChar(u[d]) != '.';
    }
  }

  /** extract_links runs the webpage test on the resolved URL before dropping
      its fragment: the document URL kept above normalises to a link that the
      test on its own rejects. */
  lemma FragmentHidesExtension()
    ensures NormalizeUrl("http://a.test/f.pdf#p2") == "http://a.test/f.pdf"
    ensures !LooksLikeWebpage("http://a.test/f.pdf")
  {
    var n := "http://a.test/f.pdf";
    assert '#' !in n;
    NormalizeCutsFragment(n, "p2");
    assert n + "#" + "p2" == "http://a.test/f.pdf#p2";
    RejectsDocument();
  }

  /** `extract_links` (app.py): the distinct links, in some order (Python
      builds them in a set and returns `list(links)`, whose order is the set's
      hash order). `hrefs` are the href attributes of the page's anchors, as
      the HTML parser returns them; `join` is urljoin. */
  method ExtractLinks(baseUrl: string, hrefs: seq<string>, join: (string, string) -> string)
    returns (links: seq<string>)
    ensures NoDuplicates(links)
    ensures Elems(links) == LinkSet(baseUrl, hrefs, join)
    ensures |links| == |LinkSet(baseUrl, hrefs, join)|
  {
    var found: set<string> := {};
    for i := 0 to |hrefs|
      invariant found == LinkSet(baseUrl, hrefs[..i], join)
    {
      LinkSetSnoc(baseUrl, hrefs, i, join);
      var href := Strip(hrefs[i]);
      if IsSkippedHref(href) {
        continue;
      }
      var absolute := join(baseUrl, href);
      if LooksLikeWebpage(absolute) {
        found := found + {NormalizeUrl(absolute)};
      }
    }
    assert hrefs[..|hrefs|] == hrefs;
    links := ListOf(found);
  }

  /** Python's `list(s)` for a set of strings: every element once, in an order
      this model leaves open (CPython's hash order). */
  method ListOf(s: set<string>) returns (xs: seq<string>)
    ensures NoDuplicates(xs)
    ensures Elems(xs) == s
    ensures |xs| == |s|
  {
    xs := [];
    var rest := s;
    while rest != {}
      invariant Elems(xs) + rest == s && Elems(xs) !! rest
      invariant NoDuplicates(xs)
      invariant |xs| + |rest| == |s|
      decreases |rest|
    {
      var x :| x in rest;
      xs := xs + [x];
      rest := rest - {x};
    }
  }
}
