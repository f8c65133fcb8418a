/** URL predicates, link discovery and output file names of scraper.py:
    `is_binary_spec`, `looks_like_docs_url`, `extract_internal_links`,
    `extract_topbar_links`, the file-name slug of `process_page` and the file
    name `download_file` writes under.

    `urljoin` and `urlparse` are not modelled: a URL is the triple `urlparse`
    returns the parts of, and each link candidate arrives already resolved
    against the page's own URL. */
module Links {
  import opened Strings

  /** A parsed URL: its scheme, its network location and the whole string. */
  datatype Url = Url(scheme: string, netloc: string, full: string)

  /** An `<a href>` matched by a selector: the raw `href` value, and
      `urlparse(urljoin(base_url, href.strip()))`. */
  datatype Anchor = Anchor(href: string, resolved: Url)

  /** DOC_KEYWORDS. */
  const DocKeywords: seq<string> := [
    "docs", "documentation", "api", "reference", "guide",
    "manual", "developer", "sdk",
    "pricing", "plans", "billing", "cost", "subscription"
  ]

  /** The suffixes `is_binary_spec` tests for. */
  const BinaryExtensions: seq<string> := [".yaml", ".yml", ".json", ".zip"]

  // ---------------------------------------------------------------------
  // URL predicates
  // ---------------------------------------------------------------------

  /** `s.endswith(tuple(suffixes))`. */
  predicate EndsWithAny(s: string, suffixes: seq<string>) {
    suffixes != [] && (EndsWith(s, suffixes[0]) || EndsWithAny(s, suffixes[1..]))
  }

  /** `any(k in s for k in keywords)`. */
  predicate ContainsAny(s: string, keywords: seq<string>) {
    keywords != [] && (Contains(s, keywords[0]) || ContainsAny(s, keywords[1..]))
  }

  lemma {:induction false} EndsWithAnyIff(s: string, suffixes: seq<string>)
    ensures EndsWithAny(s, suffixes) <==> exists x :: x in suffixes && EndsWith(s, x)
  {
    if suffixes != [] {
      EndsWithAnyIff(s, suffixes[1..]);
      assert forall x :: x in suffixes <==> x == suffixes[0] || x in suffixes[1..];
    }
  }

  lemma {:induction false} ContainsAnyIff(s: string, keywords: seq<string>)
    ensures ContainsAny(s, keywords) <==> exists k :: k in keywords && Contains(s, k)
  {
    if keywords != [] {
      ContainsAnyIff(s, keywords[1..]);
      assert forall x :: x in keywords <==> x == keywords[0] || x in keywords[1..];
      if Contains(s, keywords[0]) {
        assert keywords[0] in keywords;
      }
    }
  }

  /** Containing any one keyword of the list is enough. */
  lemma {:induction false} ContainsAnyAt(s: string, keywords: seq<string>, j: nat)
    requires j < |keywords| && Contains(s, keywords[j])
    ensures ContainsAny(s, keywords)
  {
    if j > 0 {
      assert keywords[1..][j - 1] == keywords[j];
      ContainsAnyAt(s, keywords[1..], j - 1);
    }
  }

  /** `is_binary_spec`. */
  predicate IsBinarySpec(url: string) {
    EndsWithAny(Lower(url), BinaryExtensions)
  }

  /** `looks_like_docs_url`. */
  predicate LooksLikeDocsUrl(url: string) {
    ContainsAny(Lower(url), DocKeywords)
  }

  /** A URL is a binary spec exactly when its lower-cased form ends with
      one of the four extensions. */
  lemma IsBinarySpecIff(url: string)
    ensures IsBinarySpec(url) <==> exists ext :: ext in BinaryExtensions && EndsWith(Lower(url), ext)
  {
    EndsWithAnyIff(Lower(url), BinaryExtensions);
  }

  /** A URL looks like documentation exactly when its lower-cased form
      contains one of the keywords. */
  lemma LooksLikeDocsUrlIff(url: string)
    ensures LooksLikeDocsUrl(url) <==> exists k :: k in DocKeywords && Contains(Lower(url), k)
  {
    ContainsAnyIff(Lower(url), DocKeywords);
  }

  /** Both predicates ignore letter case. */
  lemma PredicatesIgnoreCase(url: string)
    ensures IsBinarySpec(Lower(url)) == IsBinarySpec(url)
    ensures LooksLikeDocsUrl(Lower(url)) == LooksLikeDocsUrl(url)
  {
    LowerIdempotent(url);
  }

  // ---------------------------------------------------------------------
  // Link filters
  // ---------------------------------------------------------------------

  /** `full.split("#")[0]`: everything before the first `#`. */
  function DropFragment(s: string): (r: string)
    ensures '#' !in r
    ensures StartsWith(s, r)
    ensures |r| < |s| ==> s[|r|] == '#'
  {
    if s == [] || s[0] == '#' then [] else [s[0]] + DropFragment(s[1..])
  }

  /** A URL without `#` is left as it is. */
  lemma {:induction false} DropFragmentNoHash(s: string)
    requires '#' !in s
    ensures DropFragment(s) == s
  {
    if s != [] {
      assert s[0] in s;
      assert forall c :: c in s[1..] ==> c in s;
      DropFragmentNoHash(s[1..]);
    }
  }

  /** The scheme and domain test both link extractors apply. */
  predicate SameSiteHttp(base: Url, u: Url) {
    (u.scheme == "http" || u.scheme == "https") && u.netloc == base.netloc
  }

  /** The three selector groups, each with its own filter. */
  datatype Rule = Sidebar | MainContent | Topbar

  /** Whether an anchor found under `rule` yields a link. */
  predicate Keeps(rule: Rule, base: Url, a: Anchor) {
    match rule
    case Sidebar => SameSiteHttp(base, a.resolved)
    case MainContent => !StartsWith(Strip(a.href), "#") && SameSiteHttp(base, a.resolved)
    case Topbar => SameSiteHttp(base, a.resolved) && LooksLikeDocsUrl(DropFragment(a.resolved.full))
  }

  /** The links an anchor sequence yields under `rule`. */
  function LinksOf(rule: Rule, base: Url, anchors: seq<Anchor>): set<string> {
    if anchors == [] then {}
    else
      var a := anchors[|anchors| - 1];
      LinksOf(rule, base, anchors[..|anchors| - 1]) +
        (if Keeps(rule, base, a) then {DropFragment(a.resolved.full)} else {})
  }

  /** Taking one more anchor adds at most its own link. */
  lemma LinksOfSnoc(rule: Rule, base: Url, anchors: seq<Anchor>, i: nat)
    requires i < |anchors|
    ensures LinksOf(rule, base, anchors[..i + 1]) ==
      LinksOf(rule, base, anchors[..i]) +
        (if Keeps(rule, base, anchors[i]) then {DropFragment(anchors[i].resolved.full)} else {})
  {
    assert anchors[..i + 1][..i] == anchors[..i];
  }

  /** Every link of `anchors` comes from a kept anchor. */
  lemma {:induction false} LinkHasSource(rule: Rule, base: Url, anchors: seq<Anchor>, l: string)
    requires l in LinksOf(rule, base, anchors)
    ensures exists i :: 0 <= i < |anchors| && Keeps(rule, base, anchors[i]) && l == DropFragment(anchors[i].resolved.full)
  {
    var n := |anchors| - 1;
    var pre := anchors[..n];
    if l in LinksOf(rule, base, pre) {
      LinkHasSource(rule, base, pre, l);
      var i :| 0 <= i < |pre| && Keeps(rule, base, pre[i]) && l == DropFragment(pre[i].resolved.full);
      assert pre[i] == anchors[i];
    } else {
      assert Keeps(rule, base, anchors[n]) && l == DropFragment(anchors[n].resolved.full);
    }
  }

  /** Every kept anchor contributes its link. */
  lemma {:induction false} SourceHasLink(rule: Rule, base: Url, anchors: seq<Anchor>, i: nat)
    requires i < |anchors| && Keeps(rule, base, anchors[i])
    ensures DropFragment(anchors[i].resolved.full) in LinksOf(rule, base, anchors)
  {
    var n := |anchors| - 1;
    if i < n {
      var pre := anchors[..n];
      assert pre[i] == anchors[i];
      SourceHasLink(rule, base, pre, i);
    }
  }

  /** A string is a link of `anchors` exactly when some kept anchor resolves
      to it once its fragment is dropped. */
  lemma LinksOfMembers(rule: Rule, base: Url, anchors: seq<Anchor>)
    ensures forall l :: l in LinksOf(rule, base, anchors) <==>
      exists i :: 0 <= i < |anchors| && Keeps(rule, base, anchors[i]) && l == DropFragment(anchors[i].resolved.full)
  {
    forall l | l in LinksOf(rule, base, anchors)
      ensures exists i :: 0 <= i < |anchors| && Keeps(rule, base, anchors[i]) && l == DropFragment(anchors[i].resolved.full)
    {
      LinkHasSource(rule, base, anchors, l);
    }
    forall i | 0 <= i < |anchors| && Keeps(rule, base, anchors[i])
      ensures DropFragment(anchors[i].resolved.full) in LinksOf(rule, base, anchors)
    {
      SourceHasLink(rule, base, anchors, i);
    }
  }

  /** `extract_internal_links`, given the anchors of the sidebar selectors
      and those of the main-content region. */
  method ExtractInternalLinks(base: Url, sidebar: seq<Anchor>, main: seq<Anchor>) returns (links: set<string>)
    ensures links == LinksOf(Sidebar, base, sidebar) + LinksOf(MainContent, base, main)
  {
    links := {};
    for i := 0 to |sidebar|
      invariant links == LinksOf(Sidebar, base, sidebar[..i])
    {
      var a := sidebar[i];
      LinksOfSnoc(Sidebar, base, sidebar, i);
      var parsed := a.resolved;
      if (parsed.scheme == "http" || parsed.scheme == "https") && parsed.netloc == base.netloc {
        links := links + {DropFragment(parsed.full)};
      }
    }
    assert sidebar[..|sidebar|] == sidebar;
    ghost var fromSidebar := links;
    for i := 0 to |main|
      invariant links == fromSidebar + LinksOf(MainContent, base, main[..i])
    {
      var a := main[i];
      LinksOfSnoc(MainContent, base, main, i);
      var href := Strip(a.href);
      if StartsWith(href, "#") {
        continue;
      }
      var parsed := a.resolved;
      if (parsed.scheme == "http" || parsed.scheme == "https") && parsed.netloc == base.netloc {
        links := links + {DropFragment(parsed.full)};
      }
    }
    assert main[..|main|] == main;
  }

  /** `extract_topbar_links`, given the anchors inside header and nav elements. */
  method ExtractTopbarLinks(base: Url, nav: seq<Anchor>) returns (links: set<string>)
    ensures links == LinksOf(Topbar, base, nav)
  {
    links := {};
    for i := 0 to |nav|
      invariant links == LinksOf(Topbar, base, nav[..i])
    {
      var a := nav[i];
      LinksOfSnoc(Topbar, base, nav, i);
      var parsed := a.resolved;
      if parsed.scheme != "http" && parsed.scheme != "https" {
        continue;
      }
      if parsed.netloc != base.netloc {
        continue;
      }
      var full := DropFragment(parsed.full);
      if LooksLikeDocsUrl(full) {
        links := links + {full};
      }
    }
    assert nav[..|nav|] == nav;
  }

  /** Every in-page link is an http(s) URL of the page's own domain with its
      fragment dropped, taken from a sidebar anchor or from a main-content
      anchor whose href is not a bare fragment; and every such anchor
      contributes its link. */
  lemma InternalLinksFiltered(base: Url, sidebar: seq<Anchor>, main: seq<Anchor>)
    ensures forall l :: l in LinksOf(Sidebar, base, sidebar) + LinksOf(MainContent, base, main) <==>
      (exists i :: 0 <= i < |sidebar| && SameSiteHttp(base, sidebar[i].resolved) &&
         l == DropFragment(sidebar[i].resolved.full)) ||
      (exists i :: 0 <= i < |main| && !StartsWith(Strip(main[i].href), "#") &&
         SameSiteHttp(base, main[i].resolved) && l == DropFragment(main[i].resolved.full))
    ensures forall l :: l in LinksOf(Sidebar, base, sidebar) + LinksOf(MainContent, base, main) ==> '#' !in l
  {
    LinksOfMembers(Sidebar, base, sidebar);
    LinksOfMembers(MainContent, base, main);
  }

  /** Every top-bar link is an http(s) URL of the page's own domain, has no
      fragment and looks like a documentation URL; and every such anchor
      contributes its link. */
  lemma TopbarLinksFiltered(base: Url, nav: seq<Anchor>)
    ensures forall l :: l in LinksOf(Topbar, base, nav) <==>
      exists i :: 0 <= i < |nav| && SameSiteHttp(base, nav[i].resolved) &&
        l == DropFragment(nav[i].resolved.full) && LooksLikeDocsUrl(l)
    ensures forall l :: l in LinksOf(Topbar, base, nav) ==> '#' !in l && LooksLikeDocsUrl(l)
  {
    LinksOfMembers(Topbar, base, nav);
  }

  /** The keyword filter at work: any URL with an `/api/` path segment looks
      like documentation, whatever its site and the rest of its path. */
  lemma ApiPathLooksLikeDocs(site: string, rest: string)
    ensures LooksLikeDocsUrl(site + "/api/" + rest)
  {
    var u := site + "/api/" + rest;
    var i := |site| + 1;
    var l := Lower(u);
    assert u[i] == 'a' && u[i + 1] == 'p' && u[i + 2] == 'i';
    assert l[i..][..3] == "api";
    assert StartsWith(l[i..], "api");
    ContainsAt(l, "api");
    assert DocKeywords[2] == "api";
    ContainsAnyAt(l, DocKeywords, 2);
  }

  /** A link to another domain is dropped by every rule, whatever its path. */
  lemma CrossDomainDropped(rule: Rule, base: Url, anchors: seq<Anchor>, i: nat)
    requires i < |anchors| && anchors[i].resolved.netloc != base.netloc
    ensures !Keeps(rule, base, anchors[i])
    ensures LinksOf(rule, base, anchors) == LinksOf(rule, base, anchors[..i] + anchors[i + 1..])
  {
    UnkeptOmitted(rule, base, anchors, i);
    UnkeptRestored(rule, base, anchors, i);
  }

  /** Leaving out an anchor the rule drops loses no link. */
  lemma UnkeptOmitted(rule: Rule, base: Url, anchors: seq<Anchor>, i: nat)
    requires i < |anchors| && !Keeps(rule, base, anchors[i])
    ensures LinksOf(rule, base, anchors) <= LinksOf(rule, base, anchors[..i] + anchors[i + 1..])
  {
    var rest := anchors[..i] + anchors[i + 1..];
    forall l | l in LinksOf(rule, base, anchors) ensures l in LinksOf(rule, base, rest) {
      LinkHasSource(rule, base, anchors, l);
      var j :| 0 <= j < |anchors| && Keeps(rule, base, anchors[j]) && l == DropFragment(anchors[j].resolved.full);
      KeptSurvives(rule, base, anchors, i, j);
    }
  }

  /** A kept anchor other than the `i`-th still yields its link once the
      `i`-th is left out. */
  lemma KeptSurvives(rule: Rule, base: Url, anchors: seq<Anchor>, i: nat, j: nat)
    requires i < |anchors| && j < |anchors| && i != j && Keeps(rule, base, anchors[j])
    ensures DropFragment(anchors[j].resolved.full) in LinksOf(rule, base, anchors[..i] + anchors[i + 1..])
  {
    var rest := anchors[..i] + anchors[i + 1..];
    var k := if j < i then j else j - 1;
    assert rest[k] == anchors[j];
    SourceHasLink(rule, base, rest, k);
  }

  /** Leaving out an anchor adds no link. */
  lemma UnkeptRestored(rule: Rule, base: Url, anchors: seq<Anchor>, i: nat)
    requires i < |anchors|
    ensures LinksOf(rule, base, anchors[..i] + anchors[i + 1..]) <= LinksOf(rule, base, anchors)
  {
    var rest := anchors[..i] + anchors[i + 1..];
    forall l | l in LinksOf(rule, base, rest) ensures l in LinksOf(rule, base, anchors) {
      LinkHasSource(rule, base, rest, l);
      var k :| 0 <= k < |rest| && Keeps(rule, base, rest[k]) && l == DropFragment(rest[k].resolved.full);
      var j := if k < i then k else k + 1;
      assert rest[k] == anchors[j];
      SourceHasLink(rule, base, anchors, j);
    }
  }

  // ---------------------------------------------------------------------
  // File names
  // ---------------------------------------------------------------------

  /** A character `\w` matches, on ASCII. */
  predicate IsWordChar(c: char) {
    'a' <= c <= 'z' || 'A' <= c <= 'Z' || '0' <= c <= '9' || c == '_'
  }

  predicate IsSlugChar(c: char) {
    IsWordChar(c) || c == '-'
  }

  const SlugLength: nat := 80

  /** `re.sub(r"[^\w\-]", "_", url)[:80]`. */
  function Slug(url: string): (r: string)
    ensures |r| == if |url| <= SlugLength then |url| else SlugLength
    ensures forall i :: 0 <= i < |r| ==> IsSlugChar(r[i])
  {
    var replaced := seq(|url|, i requires 0 <= i < |url| => if IsSlugChar(url[i]) then url[i] else '_');
    if |replaced| <= SlugLength then replaced else replaced[..SlugLength]
  }

  /** The slug keeps the URL's word characters and hyphens where they are
      and puts `_` in place of every other character. */
  lemma SlugPositions(url: string, i: nat)
    requires i < |Slug(url)|
    ensures IsSlugChar(url[i]) ==> Slug(url)[i] == url[i]
    ensures !IsSlugChar(url[i]) ==> Slug(url)[i] == '_'
  {
  }

  /** A slug is its own slug. */
  lemma SlugIdempotent(url: string)
    ensures Slug(Slug(url)) == Slug(url)
  {
    var s := Slug(url);
    assert forall i :: 0 <= i < |s| ==> Slug(s)[i] == s[i];
  }

  /** Distinct URLs can share a slug, so one page's files can overwrite
      another's. */
  lemma SlugCollides()
    ensures Slug("https://a.io/x?y") == Slug("https://a.io/x_y")
  {
  }

  /** `url.split("/")[-1]`: everything after the last `/`. */
  function LastSegment(url: string): (r: string)
    ensures '/' !in r
    ensures EndsWith(url, r)
    ensures |r| < |url| ==> url[|url| - |r| - 1] == '/'
  {
    if url == [] || url[|url| - 1] == '/' then []
    else LastSegment(url[..|url| - 1]) + [url[|url| - 1]]
  }

  lemma {:induction false} LastSegmentCovers(url: string, n: nat)
    requires n <= |url|
    requires forall i :: |url| - n <= i < |url| ==> url[i] != '/'
    ensures |LastSegment(url)| >= n
  {
    if n > 0 {
      LastSegmentCovers(url[..|url| - 1], n - 1);
    }
  }

  /** A URL whose lower-cased form ends in a slash-free suffix ends in as
      many characters that are not slashes. */
  lemma NoSlashAtEnd(url: string, ext: string)
    requires EndsWith(Lower(url), ext)
    requires forall j :: 0 <= j < |ext| ==> ext[j] != '/'
    ensures forall i :: |url| - |ext| <= i < |url| ==> url[i] != '/'
  {
    var low := Lower(url);
    var start := |url| - |ext|;
    forall i | start <= i < |url|
      ensures url[i] != '/'
    {
      assert low[start..][i - start] == ext[i - start];
    }
  }

  lemma BinaryExtensionsShape(ext: string)
    requires ext in BinaryExtensions
    ensures 4 <= |ext| && forall j :: 0 <= j < |ext| ==> ext[j] != '/'
  {
  }

  /** A binary spec URL always names a file: its last path segment holds at
      least the extension. */
  lemma DownloadNameNonEmpty(url: string)
    requires IsBinarySpec(url)
    ensures |LastSegment(url)| >= 4
  {
    IsBinarySpecIff(url);
    var ext :| ext in BinaryExtensions && EndsWith(Lower(url), ext);
    BinaryExtensionsShape(ext);
    NoSlashAtEnd(url, ext);
    LastSegmentCovers(url, |ext|);
  }
}
