/** The crawl frontier of scraper.py: `crawl`, `process_page`,
    `download_file`, `fetch_html` and `main`.

    The global `visited` set and the two output directories become fields of
    a `Crawler` object.  The network is a pair of fixed maps: what a page
    GET answers with status 200, and what the GET of `download_file`
    answers.  Parsing a fetched page is part of the first map's answer. */
module Crawl {
  import opened Wrappers
  import opened Strings
  import opened Blocks
  import opened Links

  /** MAX_DEPTH, MAX_PAGES and START_URLS as the program sets them. */
  const MaxDepth: nat := 2
  const MaxPages: nat := 30
  const StartUrls: seq<string> := ["https://apidocs.geoapify.com/docs/geocoding/reverse-geocoding/"]

  /** A page answered with status 200: its body, and what parsing the body
      gives: the content elements left after noise removal, the anchors of
      the sidebar selectors, those of the main-content region, and those
      inside header and nav elements. */
  datatype Page = Page(
    html: string,
    content: seq<Element>,
    sidebar: seq<Anchor>,
    main: seq<Anchor>,
    nav: seq<Anchor>)

  /** The status and body `download_file`'s GET receives. */
  datatype Response = Response(status: int, content: seq<bv8>)

  /** A file in the block-data directory: a page's block JSON or a
      downloaded specification. */
  datatype BlockFile = BlocksJson(page: PageBlocks) | SpecFile(content: seq<bv8>)

  class Crawler {
    const maxDepth: nat
    const maxPages: nat
    /** `urlparse`, applied to the URL being crawled. */
    const parse: string -> Url
    /** The URLs whose GET answers with status 200, and their pages; any
        other URL makes `fetch_html` return None. */
    const web: map<string, Page>
    /** The answers to `download_file`'s GET; a URL absent from this map
        makes `requests.get` raise. */
    const downloads: map<string, Response>

    var visited: set<string>
    /** The URLs in the order `crawl` marked them visited. */
    ghost var history: seq<string>
    /** The URLs `process_page` ran for. */
    ghost var processed: set<string>
    /** block_data/ and cleaned_data/, by file name. */
    var blockDir: map<string, BlockFile>
    var cleanedDir: map<string, seq<Element>>

    /** The page cap holds, and `visited` is the set of a repetition-free
        history. */
    ghost predicate Frontier()
      reads this
    {
      && |visited| <= maxPages
      && (forall u :: u in visited <==> u in history)
      && (forall i, j :: 0 <= i < j < |history| ==> history[i] != history[j])
    }

    /** Both output files named after the slug of `url` exist. */
    ghost predicate Written(url: string)
      reads this
    {
      Slug(url) + ".json" in blockDir && Slug(url) + ".html" in cleanedDir
    }

    /** Moreover the pages processed are exactly the visited URLs whose
        fetch succeeded, and each of them has its two output files. */
    ghost predicate Valid()
      reads this
    {
      && Frontier()
      && (forall u :: u in processed <==> u in visited && Fetched(u))
      && (forall u :: u in processed ==> Written(u))
    }

    /** The links `crawl` follows from a fetched page: its in-page links,
        then its top-bar links. */
    function Discovered(url: string): set<string> {
      InPageLinksOf(url) + TopbarLinksOf(url)
    }

    /** What `extract_internal_links` gives for a fetched page. */
    function InPageLinksOf(url: string): set<string> {
      if url in web then
        LinksOf(Sidebar, parse(url), web[url].sidebar) + LinksOf(MainContent, parse(url), web[url].main)
      else {}
    }

    /** What `extract_topbar_links` gives for a fetched page. */
    function TopbarLinksOf(url: string): set<string> {
      if url in web then LinksOf(Topbar, parse(url), web[url].nav) else {}
    }

    /** `u` joined `v1` since `v0`. */
    ghost predicate Added(u: string, v0: set<string>, v1: set<string>) {
      u in v1 && u !in v0
    }

    /** `u` is a link of `p`, a page processed in `p1` but not in `p0`. */
    ghost predicate LinkedFrom(u: string, p: string, p0: set<string>, p1: set<string>) {
      p in p1 && p !in p0 && u in Discovered(p)
    }

    /** Every URL in `v1` but not in `v0` is one of `roots` or a link of a
        page in `p1` but not in `p0`. */
    ghost predicate Traced(v0: set<string>, p0: set<string>, v1: set<string>, p1: set<string>, roots: set<string>) {
      forall u {:trigger Added(u, v0, v1)} :: Added(u, v0, v1) ==>
        u in roots || exists p {:trigger LinkedFrom(u, p, p0, p1)} :: LinkedFrom(u, p, p0, p1)
    }

    /** The URL a step marks first is one of its roots. */
    lemma TracedMark(v0: set<string>, url: string, p0: set<string>, v1: set<string>, p1: set<string>)
      requires Traced(v0 + {url}, p0, v1, p1, {})
      ensures Traced(v0, p0, v1, p1, {url})
    {
      forall u | Added(u, v0, v1)
        ensures u in {url} || exists p {:trigger LinkedFrom(u, p, p0, p1)} :: LinkedFrom(u, p, p0, p1)
      {
        if u != url {
          assert Added(u, v0 + {url}, v1);
        }
      }
    }

    /** Two traced steps make one, with the roots of both. */
    lemma TracedTrans(v0: set<string>, p0: set<string>, v1: set<string>, p1: set<string>,
                      v2: set<string>, p2: set<string>, r1: set<string>, r2: set<string>, roots: set<string>)
      requires Traced(v0, p0, v1, p1, r1) && Traced(v1, p1, v2, p2, r2)
      requires v0 <= v1 && p0 <= p1 <= p2 && r1 <= roots && r2 <= roots
      ensures Traced(v0, p0, v2, p2, roots)
    {
      forall u | Added(u, v0, v2)
        ensures u in roots || exists p {:trigger LinkedFrom(u, p, p0, p2)} :: LinkedFrom(u, p, p0, p2)
      {
        if u in v1 {
          assert Added(u, v0, v1);
          if u !in r1 {
            var p :| LinkedFrom(u, p, p0, p1);
            assert LinkedFrom(u, p, p0, p2);
          }
        } else {
          assert Added(u, v1, v2);
          if u !in r2 {
            var p :| LinkedFrom(u, p, p1, p2);
            assert LinkedFrom(u, p, p0, p2);
          }
        }
      }
    }

    /** Roots that are all links of a page processed within the step can be
        traced to that page instead. */
    lemma TracedAbsorb(v0: set<string>, p0: set<string>, q: string, v1: set<string>, p1: set<string>, roots: set<string>)
      requires Traced(v0, p0 + {q}, v1, p1, roots)
      requires roots <= Discovered(q) && q !in p0 && p0 + {q} <= p1
      ensures Traced(v0, p0, v1, p1, {})
    {
      forall u | Added(u, v0, v1)
        ensures exists p {:trigger LinkedFrom(u, p, p0, p1)} :: LinkedFrom(u, p, p0, p1)
      {
        if u in roots {
          assert LinkedFrom(u, q, p0, p1);
        } else {
          var p :| LinkedFrom(u, p, p0 + {q}, p1);
          assert LinkedFrom(u, p, p0, p1);
        }
      }
    }

    constructor (maxDepth: nat, maxPages: nat, parse: string -> Url,
                 web: map<string, Page>, downloads: map<string, Response>)
      ensures Valid()
      ensures this.maxDepth == maxDepth && this.maxPages == maxPages && this.parse == parse
      ensures this.web == web && this.downloads == downloads
      ensures visited == {} && history == [] && processed == {}
      ensures blockDir == map[] && cleanedDir == map[]
    {
      this.maxDepth := maxDepth;
      this.maxPages := maxPages;
      this.parse := parse;
      this.web := web;
      this.downloads := downloads;
      visited := {};
      history := [];
      processed := {};
      blockDir := map[];
      cleanedDir := map[];
    }

    /** Whether `crawl` goes on past `if not html`: `fetch_html` returns
        the body of a status-200 answer, and that body is non-empty. */
    predicate Fetched(url: string) {
      url in web && web[url].html != ""
    }

    /** Whether `crawl` would mark `url` visited now. */
    predicate Admits(url: string, depth: nat)
      reads this
    {
      depth <= maxDepth && url !in visited && |visited| < maxPages
    }

    /** Nesting measure of `crawl`: the depth levels still allowed. */
    function Budget(depth: nat): nat {
      if depth <= maxDepth then maxDepth + 1 - depth else 0
    }

    /** `process_page`: writes the block JSON and the cleaned HTML of a page
        under the URL's slug, replacing whatever had that name. */
    method ProcessPage(url: string, page: Page)
      requires url !in processed
      modifies this`blockDir, this`cleanedDir, this`processed
      ensures blockDir == old(blockDir)[Slug(url) + ".json" := BlocksJson(PageBlocks(url, BlocksOf(FindAll(page.content))))]
      ensures cleanedDir == old(cleanedDir)[Slug(url) + ".html" := Kept(FindAll(page.content))]
      ensures processed == old(processed) + {url}
    {
      processed := processed + {url};
      var blocks := ExtractBlocks(page.content);
      var blockObj := PageBlocks(url, blocks);
      var fnameBase := Slug(url);
      blockDir := blockDir[fnameBase + ".json" := BlocksJson(blockObj)];
      var cleaned := CleanHtml(page.content);
      cleanedDir := cleanedDir[fnameBase + ".html" := cleaned];
    }

    /** `download_file`: a fresh GET; on status 200 the body is stored under
        the URL's last path segment.  `raised` says the GET raised, which
        nothing in the program catches. */
    method DownloadFile(url: string) returns (raised: bool)
      modifies this`blockDir
      ensures raised <==> url !in downloads
      ensures blockDir ==
        if url in downloads && downloads[url].status == 200
        then old(blockDir)[LastSegment(url) := SpecFile(downloads[url].content)]
        else old(blockDir)
    {
      if url !in downloads {
        return true;
      }
      var r := downloads[url];
      if r.status == 200 {
        var fname := LastSegment(url);
        blockDir := blockDir[fname := SpecFile(r.content)];
      }
      return false;
    }

    /** The branch of `crawl` taken when the fetch fails: a URL that looks
        like a binary specification is downloaded instead, and no link is
        followed. */
    method Fallback(url: string) returns (raised: bool)
      requires Valid()
      modifies this`blockDir
      ensures Valid()
      ensures raised <==> IsBinarySpec(url) && url !in downloads
      ensures blockDir ==
        if IsBinarySpec(url) && url in downloads && downloads[url].status == 200
        then old(blockDir)[LastSegment(url) := SpecFile(downloads[url].content)]
        else old(blockDir)
    {
      raised := false;
      if IsBinarySpec(url) {
        raised := DownloadFile(url);
      }
    }

    /** `crawl(url, depth)`.  `raised` says an exception escaped from
        `download_file` somewhere below, which ends the whole run. */
    method Crawl(url: string, depth: nat) returns (raised: bool)
      requires Valid()
      modifies this
      decreases Budget(depth), 2
      ensures Valid()
      ensures old(visited) <= visited
      ensures old(history) <= history && old(processed) <= processed
      // A URL beyond the depth bound, already visited, or past the page
      // cap changes nothing.
      ensures !old(Admits(url, depth)) ==>
        && !raised
        && visited == old(visited) && history == old(history) && processed == old(processed)
        && blockDir == old(blockDir) && cleanedDir == old(cleanedDir)
      // Otherwise the URL is marked visited before anything else happens.
      ensures old(Admits(url, depth)) ==> |history| > |old(history)| && history[|old(history)|] == url
      ensures old(Admits(url, depth)) ==> url in visited
      // A failed fetch visits the URL and nothing else; only a binary spec
      // URL then leads to a download.
      ensures old(Admits(url, depth)) && !Fetched(url) ==>
        && visited == old(visited) + {url}
        && history == old(history) + [url]
        && processed == old(processed)
        && cleanedDir == old(cleanedDir)
        && (raised <==> IsBinarySpec(url) && url !in downloads)
        && blockDir ==
             if IsBinarySpec(url) && url in downloads && downloads[url].status == 200
             then old(blockDir)[LastSegment(url) := SpecFile(downloads[url].content)]
             else old(blockDir)
      // A successful fetch processes the page first, then follows every
      // link it yields, unless the run was aborted or the cap was reached.
      ensures old(Admits(url, depth)) && Fetched(url) ==> url !in old(processed) && url in processed
      ensures old(Admits(url, depth)) && Fetched(url) && !raised && depth < maxDepth ==>
        Discovered(url) <= visited || |visited| >= maxPages
      // Nothing but the URL and the links of pages processed meanwhile is visited.
      ensures Traced(old(visited), old(processed), visited, processed, {url})
      // At the last allowed depth no link is followed.
      ensures depth >= maxDepth ==> visited <= old(visited) + {url}
      ensures raised ==>
        exists u :: u in visited && u !in old(visited) && !Fetched(u) && IsBinarySpec(u) && u !in downloads
    {
      if depth > maxDepth {
        return false;
      }
      if url in visited || |visited| >= maxPages {
        return false;
      }
      visited := visited + {url};
      history := history + [url];
      assert blockDir == old(blockDir) && cleanedDir == old(cleanedDir) && processed == old(processed);
      raised := Expand(url, depth);
      TracedMark(old(visited), url, old(processed), visited, processed);
    }

    /** The part of `crawl` after `visited.add(url)`: fetch, then either the
        binary-spec fallback, or processing the page and crawling its
        in-page links and then its top-bar links one level deeper. */
    method Expand(url: string, depth: nat) returns (raised: bool)
      requires Frontier() && depth <= maxDepth && url in visited
      requires forall u :: u in processed <==> u in visited && u != url && Fetched(u)
      requires forall u :: u in processed ==> Written(u)
      modifies this
      decreases Budget(depth), 1
      ensures Valid()
      ensures old(visited) <= visited
      ensures old(history) <= history && old(processed) <= processed
      ensures !Fetched(url) ==>
        && visited == old(visited) && history == old(history) && processed == old(processed)
        && cleanedDir == old(cleanedDir)
        && (raised <==> IsBinarySpec(url) && url !in downloads)
        && blockDir ==
             if IsBinarySpec(url) && url in downloads && downloads[url].status == 200
             then old(blockDir)[LastSegment(url) := SpecFile(downloads[url].content)]
             else old(blockDir)
      ensures Fetched(url) ==> url in processed
      ensures Fetched(url) && !raised && depth < maxDepth ==>
        Discovered(url) <= visited || |visited| >= maxPages
      ensures Traced(old(visited), old(processed), visited, processed, {})
      ensures depth >= maxDepth ==> visited == old(visited)
      ensures raised ==>
        (!Fetched(url) && IsBinarySpec(url) && url !in downloads) ||
        exists u :: u in visited && u !in old(visited) && !Fetched(u) && IsBinarySpec(u) && u !in downloads
    {
      if !Fetched(url) {
        raised := Fallback(url);
        return;
      }
      var page := web[url];
      ProcessPage(url, page);
      ghost var mid, midProcessed;
      raised, mid, midProcessed := Follow(url, page, depth);
      TracedAbsorb(old(visited), old(processed), url, visited, processed, Discovered(url));
    }

    /** The end of `crawl` once the page is processed: its in-page links,
        then its top-bar links, one level deeper. */
    method Follow(url: string, page: Page, depth: nat)
      returns (raised: bool, ghost mid: set<string>, ghost midProcessed: set<string>)
      requires Valid() && url in web && page == web[url] && depth <= maxDepth
      modifies this
      decreases Budget(depth), 0
      ensures Valid()
      ensures old(visited) <= visited
      ensures old(history) <= history && old(processed) <= processed
      ensures !raised && depth < maxDepth ==>
        Discovered(url) <= visited || |visited| >= maxPages
      ensures Traced(old(visited), old(processed), visited, processed, Discovered(url))
      // The in-page links come first: up to `mid` only they and the links of
      // pages processed meanwhile are visited, and, unless the run aborted
      // there, all of them are by then; the top-bar links follow.
      ensures old(visited) <= mid <= visited && old(processed) <= midProcessed <= processed
      ensures Traced(old(visited), old(processed), mid, midProcessed, InPageLinksOf(url))
      ensures Traced(mid, midProcessed, visited, processed, TopbarLinksOf(url))
      ensures depth < maxDepth && (!raised || mid != visited) ==>
        InPageLinksOf(url) <= mid || |mid| >= maxPages
      ensures depth >= maxDepth ==> visited == old(visited)
      ensures raised ==>
        exists u :: u in visited && u !in old(visited) && !Fetched(u) && IsBinarySpec(u) && u !in downloads
    {
      var base := parse(url);
      var internal := ExtractInternalLinks(base, page.sidebar, page.main);
      var topbar := ExtractTopbarLinks(base, page.nav);
      raised := CrawlEach(internal, depth + 1);
      mid, midProcessed := visited, processed;
      if raised {
        return;
      }
      raised := CrawlEach(topbar, depth + 1);
      SubsetCard(mid, visited);
      TracedTrans(old(visited), old(processed), mid, midProcessed, visited, processed, internal, topbar, Discovered(url));
    }

    /** `for link in links: crawl(link, depth)`, in the set's own iteration
        order, which the program leaves unspecified. */
    method CrawlEach(links: set<string>, depth: nat) returns (raised: bool)
      requires Valid()
      modifies this
      decreases Budget(depth), 3
      ensures Valid()
      ensures old(visited) <= visited
      ensures old(history) <= history && old(processed) <= processed
      ensures depth > maxDepth ==>
        && !raised
        && visited == old(visited) && history == old(history) && processed == old(processed)
        && blockDir == old(blockDir) && cleanedDir == old(cleanedDir)
      // Unless the run was aborted, every link was visited now or before,
      // or the page cap was reached.
      ensures !raised && depth <= maxDepth ==>
        links <= visited || |visited| >= maxPages
      // Nothing but the links and the links of pages processed meanwhile is visited.
      ensures Traced(old(visited), old(processed), visited, processed, links)
      ensures raised ==>
        exists u :: u in visited && u !in old(visited) && !Fetched(u) && IsBinarySpec(u) && u !in downloads
    {
      var remaining := links;
      raised := false;
      while remaining != {}
        invariant Valid()
        invariant old(visited) <= visited
        invariant old(history) <= history && old(processed) <= processed
        invariant remaining <= links
        invariant depth > maxDepth ==>
          && visited == old(visited) && history == old(history) && processed == old(processed)
          && blockDir == old(blockDir) && cleanedDir == old(cleanedDir)
        invariant depth <= maxDepth ==>
          links - remaining <= visited || |visited| >= maxPages
        invariant Traced(old(visited), old(processed), visited, processed, links)
        decreases remaining
      {
        var link :| link in remaining;
        remaining := remaining - {link};
        ghost var v0, p0 := visited, processed;
        raised := Crawl(link, depth);
        SubsetCard(v0, visited);
        TracedTrans(old(visited), old(processed), v0, p0, visited, processed, links, {link}, links);
        if raised {
          return;
        }
      }
    }

    /** `main`: crawls each seed at depth 0, in order. */
    method Run(seeds: seq<string>) returns (raised: bool)
      requires Valid()
      modifies this
      ensures Valid()
      ensures old(visited) <= visited
      ensures old(history) <= history && old(processed) <= processed
      // With no link expansion allowed, only seeds are visited.
      ensures maxDepth == 0 ==> forall u :: u in visited ==> u in old(visited) || u in seeds
      // Unless the run was aborted, every seed was visited or the page cap reached.
      ensures !raised ==> forall u :: u in seeds ==> u in visited || |visited| >= maxPages
      // Every URL visited is a seed or a link of a page processed meanwhile.
      ensures Traced(old(visited), old(processed), visited, processed, set u | u in seeds)
      // The first seed is crawled whatever happens later.
      ensures |seeds| > 0 && old(Admits(seeds[0], 0)) ==> seeds[0] in visited
    {
      ghost var roots := set u | u in seeds;
      raised := false;
      var i := 0;
      while i < |seeds| && !raised
        invariant i <= |seeds|
        invariant i == 0 ==> !raised && visited == old(visited)
        invariant i > 0 && old(Admits(seeds[0], 0)) ==> seeds[0] in visited
        invariant Valid()
        invariant old(visited) <= visited
        invariant old(history) <= history && old(processed) <= processed
        invariant maxDepth == 0 ==> forall u :: u in visited ==> u in old(visited) || u in seeds[..i]
        invariant forall j :: 0 <= j < i ==> seeds[j] in visited || |visited| >= maxPages
        invariant Traced(old(visited), old(processed), visited, processed, roots)
      {
        ghost var v0, p0 := visited, processed;
        raised := Crawl(seeds[i], 0);
        SubsetCard(v0, visited);
        assert seeds[i] in roots;
        TracedTrans(old(visited), old(processed), v0, p0, visited, processed, roots, {seeds[i]}, roots);
        i := i + 1;
      }
    }
  }

  /** `main()` with the program's own settings: a fresh crawler with
      MAX_DEPTH and MAX_PAGES crawls START_URLS. */
  method Scrape(parse: string -> Url, web: map<string, Page>, downloads: map<string, Response>)
    returns (crawler: Crawler, raised: bool)
    ensures fresh(crawler) && crawler.Valid()
    ensures crawler.maxDepth == MaxDepth && crawler.maxPages == MaxPages
    ensures |crawler.visited| <= MaxPages
    ensures StartUrls[0] in crawler.visited
    ensures !raised ==> forall u :: u in StartUrls ==> u in crawler.visited || |crawler.visited| >= MaxPages
    ensures crawler.Traced({}, {}, crawler.visited, crawler.processed, set u | u in StartUrls)
  {
    crawler := new Crawler(MaxDepth, MaxPages, parse, web, downloads);
    raised := crawler.Run(StartUrls);
  }

  lemma SubsetCard<T>(a: set<T>, b: set<T>)
    requires a <= b
    ensures |a| <= |b|
  {
    assert b == a + (b - a);
  }
}
