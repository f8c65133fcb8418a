# Documentation crawler and prompt builder, modelled in Dafny

This project models the core of a documentation scraper and of the prompt
builder that feeds its output to a language model.

- **Block extraction** (`extract_blocks`). Walks the content elements left after noise removal, in
  document order. Elements with empty text are skipped. The rest are numbered 1, 2, 3, …, each
  tagged with the last heading seen as its section, and classified by tag.
- **Cleaned HTML** (`clean_html`). The same walk, emitting one `tag`/`text` element per kept element.
- **Link discovery** (`extract_internal_links`, `extract_topbar_links`). Keeps http(s) links of the
  page's own domain, with the fragment dropped. Main-content links that are bare fragments are
  skipped. Header and nav links must also contain a documentation keyword.
- **URL predicates and file names.** `is_binary_spec`, `looks_like_docs_url`, the output slug of
  `process_page`, and the file name `download_file` writes.
- **The crawl frontier** (`crawl`, `main`). A depth-first recursion over a global `visited` set,
  bounded by MAX_DEPTH (2) and MAX_PAGES (30). A URL is marked visited before it is fetched. A
  failed fetch falls back to a binary download for spec-like URLs and follows no links.
- **Prompt composition** (`compose_prompt`). Validates the configuration, chooses its template,
  checks the files and the placeholder, then substitutes the input text.

Files:

- `wrappers.dfy`: `Option` and `Result`.
- `strings.dfy`: Python's `startswith`, `endswith`, `in`, `lower`, `upper`, `strip` and `replace`,
  plus decimal rendering.
- `blocks.dfy`: `extract_blocks` and `clean_html`, both as methods with loops, proved against the
  functions `BlocksOf` and `Kept`.
- `links.dfy`: the URL predicates and the two link extractors (methods with loops, proved against
  `LinksOf`), the slug and the last path segment.
- `crawl.dfy`: a `Crawler` class. It holds `visited`, the two output directories as maps, and the
  network as fixed maps of answers.
- `prompt.dfy`: `compose_prompt` as a function returning a `Result`.

Points where the code behaves in a way that is easy to misread:

- `download_file` (scraper.py:50-56) has no exception handler, and `crawl` calls it unguarded at
  line 257. A network error during the fallback download therefore propagates out of `crawl` and
  `main` and ends the run. `Crawl`, `Expand`, `Follow`, `CrawlEach` and `Run` return this as
  `raised`, and every caller stops at once.
- `is_binary_spec` (line 47) tests the whole URL string, query and fragment included, not only its
  path.
- The link filters (lines 179, 189 and 205-207) accept any http or https link and compare only its
  network location with the base URL's. An `http` link to an `https` page of the same host is kept.
- The test after the fetch is `if not html` (line 255). An empty body is handled like no answer:
  the URL stays visited, the binary-spec fallback may run, and no link is followed.

## Model

| member | source | states |
|---|---|---|
| Blocks.ExtractBlocks | scraper.py:83-130 | the blocks equal `BlocksOf` of the whitelisted elements: the loop's order counter and current section track the kept prefix |
| Blocks.CleanHtml | scraper.py:137-153 | the cleaned body is exactly the whitelisted elements with non-empty text, in order, with tag and text |
| Blocks.FindAllMembers | scraper.py:68-71 | specifies `FindAll`, the `soup.find_all(CONTENT_TAGS)` walk: it yields exactly the elements whose tag is in CONTENT_TAGS |
| Blocks.KeptMembers | scraper.py:92-94 | specifies `Kept`, the `if not text: continue` filter: it keeps exactly the walked elements with non-empty text |
| Blocks.NumberedAt | scraper.py:96-128 | specifies `Numbered`, the numbering inside `BlocksOf`: the k-th kept element becomes the block numbered k, built from the elements up to it |
| Blocks.BlockAt | scraper.py:96-128 | specifies `BlocksOf`: block i has order i+1, id "b" + (i+1), the i-th kept element's tag and text, and the section current at that element |
| Blocks.OrdersConsecutive | scraper.py:88-102 | orders are 1, 2, 3, … in document order, strictly increasing, one per kept element; `block_id` is "b" followed by the order |
| Blocks.BlockIdsUnique | scraper.py:101 | no two blocks of a page share a `block_id` |
| Blocks.BlocksFollowElements | scraper.py:91-96 | blocks correspond one-to-one, in order, to the elements with non-empty text; every block's text is non-empty |
| Blocks.BlockTypes | scraper.py:98-128 | a heading block is a `section_header` whose section is its own text; any other block's type depends on its tag alone |
| Blocks.ClassifyTags | scraper.py:110-119 | specifies `Classify`: pre/code → code_example, li → list_item, table → table_block, blockquote → inline_note, anything else → paragraph; never section_header |
| Blocks.WhitelistedHeadings | scraper.py:98 | among the whitelisted tags, exactly h1..h5 count as headings, and only `p` becomes a paragraph |
| Blocks.CurrentSectionIsLastHeading | scraper.py:89-99 | the current section is the text of the last heading seen, and None exactly when no heading has been seen |
| Blocks.SectionInheritance | scraper.py:121-125 | a block's section is the text of the nearest section header at or before it, and None exactly when there is none |
| Blocks.CleanedMatchesBlocks | scraper.py:144-151 | `clean_html` and `extract_blocks` on one page agree element by element on tag and text, so their tag sequences are equal |
| Links.IsBinarySpecIff | scraper.py:46-47 | specifies `IsBinarySpec`: a URL is a binary spec exactly when its lower-cased form ends with .yaml, .yml, .json or .zip |
| Links.EndsWithAnyIff | scraper.py:47 | the tuple form of `endswith` holds exactly when one of the suffixes ends the string |
| Links.LooksLikeDocsUrlIff | scraper.py:160-162 | specifies `LooksLikeDocsUrl`: a URL looks like documentation exactly when its lower-cased form contains one of DOC_KEYWORDS |
| Links.ContainsAnyIff | scraper.py:162 | `any(k in u for k in keywords)` holds exactly when one of the keywords occurs in the string |
| Links.PredicatesIgnoreCase | scraper.py:160-162 | both URL predicates give the same answer for a URL and its lower-cased form |
| Links.ApiPathLooksLikeDocs | scraper.py:26-30 | every URL with an `/api/` path segment passes the keyword filter, whatever its site and the rest of its path |
| Links.ContainsAnyAt | scraper.py:160-162 | containing any single keyword of the list is enough for the `any(...)` test to hold |
| Links.DropFragment | scraper.py:180 | the result has no `#`, is a prefix of the URL, and stops exactly at the first `#` |
| Links.DropFragmentNoHash | scraper.py:210 | a URL without `#` is left unchanged |
| Links.LinksOfSnoc | scraper.py:175-190 | taking one more anchor adds exactly that anchor's link when the rule keeps it, and nothing otherwise |
| Links.LinkHasSource | scraper.py:175-190 | every collected link comes from an anchor the rule keeps, with its fragment dropped |
| Links.SourceHasLink | scraper.py:175-190 | every anchor the rule keeps contributes its fragment-free URL |
| Links.LinksOfMembers | scraper.py:175-213 | specifies `LinksOf`: a string is a link exactly when some anchor kept by the rule (`Keeps`) resolves to it once its fragment is dropped |
| Links.ExtractInternalLinks | scraper.py:165-192 | the result is the sidebar links plus the main-content links, each filtered by its own rule |
| Links.ExtractTopbarLinks | scraper.py:195-215 | the result is the header/nav links under the top-bar rule |
| Links.InternalLinksFiltered | scraper.py:179-190 | specifies `Keeps` for the sidebar and main-content rules: every in-page link comes from an http(s) anchor of the base domain and has no `#`; main-content hrefs starting with `#` contribute nothing; every qualifying anchor contributes |
| Links.TopbarLinksFiltered | scraper.py:205-213 | specifies `Keeps` for the top-bar rule: every top-bar link comes from an http(s) anchor of the base domain, has no `#`, and looks like a documentation URL; and conversely |
| Links.CrossDomainDropped | scraper.py:179-208 | an anchor on another domain is kept by no rule: removing it from any anchor list leaves the links unchanged |
| Links.Slug | scraper.py:230 | the slug has length min(len(url), 80) and holds only word characters and `-` |
| Links.SlugPositions | scraper.py:230 | the slug keeps each word character or hyphen of the URL in place and puts `_` for every other character |
| Links.SlugIdempotent | scraper.py:230 | the slug of a slug is itself |
| Links.SlugCollides | scraper.py:230-232 | two distinct URLs can share a slug, so one page's output files can replace another's |
| Links.LastSegment | scraper.py:53 | the file name has no `/`, ends the URL, and follows its last `/` |
| Links.DownloadNameNonEmpty | scraper.py:256-257 | the download fallback only runs for binary-spec URLs, whose last path segment is never empty |
| Crawl.Crawler.constructor | scraper.py:13-24 | a crawler starts with an empty visited set and empty output directories |
| Crawl.Crawler.ProcessPage | scraper.py:222-238 | writes `BlocksOf` of the page as `<slug>.json` and its cleaned elements as `<slug>.html`, replacing any file of that name, and records the URL among the pages processed |
| Crawl.Crawler.DownloadFile | scraper.py:50-56 | a status-200 answer is stored under the URL's last segment; other statuses change nothing; a missing answer raises |
| Crawl.Crawler.Crawl | scraper.py:245-266 | keeps the invariants: visited only grows, never exceeds MAX_PAGES, no URL is visited twice, the pages processed are exactly the visited URLs whose fetch succeeded, and each of them has its `.json` block file and `.html` cleaned file. A call past the depth bound, on a visited URL or at the page cap changes nothing. Otherwise the URL is marked visited first. A failed fetch adds only that URL and follows no link. A successful fetch processes the page, and unless the run aborted or this is the last depth, every link it yields ends up visited or the page cap is reached. Every URL newly visited is this URL or a link of a page processed during the call. At the last depth no link is followed |
| Crawl.Crawler.Expand | scraper.py:254-266 | a failed fetch changes only the block directory, and only for a binary spec; a successful one processes the page, so its two output files exist, and, unless aborted or at the last depth, visits every link it yields or reaches the page cap; every URL newly visited is a link of a page processed during the call; at the last depth the children change nothing |
| Crawl.Crawler.Fallback | scraper.py:255-258 | a failed fetch of a binary-spec URL downloads it (raising when the GET does), any other URL changes nothing, and the crawler invariants hold afterwards |
| Crawl.Crawler.Follow | scraper.py:262-266 | the in-page links are crawled first, then the top-bar links, one level deeper: there is a midpoint up to which only in-page links and links of pages processed meanwhile are visited, and by which, unless the run aborted there, every in-page link is visited or the cap reached; after it only top-bar links and links of pages processed meanwhile are visited; unless aborted, all links end up visited or the cap is reached |
| Crawl.Crawler.CrawlEach | scraper.py:262-266 | unless the run aborted, every link was visited or the page cap was reached; every URL newly visited is one of the links or a link of a page processed meanwhile; past the depth bound nothing changes |
| Crawl.Crawler.TracedTrans | scraper.py:262-266 | two consecutive stretches of crawling, each visiting only its roots and links of pages it processed, make one stretch with the roots of both |
| Crawl.Crawler.TracedMark | scraper.py:252 | a URL marked visited at the start of a stretch counts as that stretch's root |
| Crawl.Crawler.TracedAbsorb | scraper.py:260-266 | roots that are links of a page processed within the stretch need no longer be counted as roots |
| Crawl.Crawler.Run | scraper.py:273-275 | with MAX_DEPTH 0 only seeds are visited; the first seed is visited whenever the crawler could take it, aborted or not; unless aborted, every seed is visited or the page cap reached; every URL visited is a seed or a link of a page processed during the run |
| Crawl.Scrape | scraper.py:13-22 | `main` with MAX_DEPTH 2, MAX_PAGES 30 and START_URLS: at most 30 pages are visited, the start URL is always visited, and every URL visited is the start URL or a link of a processed page |
| Prompt.ComposePrompt | td_generation/prompt_creation.py:3-42 | takes `prompt_dir` "../prompts", no `input_file` and `placeholder` "{input}" by default; succeeds exactly when the upper-cased configuration is accepted, both files exist and the template contains the placeholder; the prompt then contains the input text |
| Prompt.DefaultInputFileFails | td_generation/prompt_creation.py:3-31 | with `input_file` left at its default the call always fails, with the missing-input error once the configuration and its template check out |
| Prompt.ConfigurationChecked | td_generation/prompt_creation.py:19-21 | a ValueError naming the upper-cased configuration is raised exactly when it is neither BASELINE nor GUIDED |
| Prompt.ConfigurationIgnoresCase | td_generation/prompt_creation.py:19 | the letter case of the configuration does not change the outcome |
| Prompt.TemplateChoice | td_generation/prompt_creation.py:23-26 | BASELINE selects baseline_prompt.txt and GUIDED selects guided_prompt.txt, two distinct files |
| Prompt.CheckOrder | td_generation/prompt_creation.py:28-40 | the template file is checked before the input file, and both before the placeholder |
| Prompt.Substitution | td_generation/prompt_creation.py:37-42 | the prompt is the template with every placeholder replaced by the input text; an input equal to the placeholder leaves the template unchanged |
| Strings.ContainsAt | td_generation/prompt_creation.py:37 | specifies `Contains`: `p in s` holds exactly when `p` starts at some position of `s` |
| Strings.LowerIdempotent | scraper.py:161 | specifies `Lower` (`str.lower()`): lower-casing twice is lower-casing once |
| Strings.UpperIdempotent | td_generation/prompt_creation.py:19 | specifies `Upper` (`str.upper()`): upper-casing twice is upper-casing once |
| Strings.CaseFolding | td_generation/prompt_creation.py:19 | `lower` undoes an earlier `upper` and the other way round, and neither leaves a letter of the other case behind |
| Strings.ReplacePresent | td_generation/prompt_creation.py:42 | about `ReplaceAll`: when the placeholder occurs, the replacement text occurs in the result |
| Strings.ReplaceAbsent | td_generation/prompt_creation.py:42 | about `ReplaceAll`: replacing a pattern that does not occur changes nothing |
| Strings.ReplaceBySelf | td_generation/prompt_creation.py:42 | about `ReplaceAll`: replacing a pattern by itself changes nothing, including the empty pattern |
| Strings.DecimalRoundTrip | scraper.py:101 | parsing the decimal rendering of the order gives the order back |
| Strings.DecimalInjective | scraper.py:101 | distinct orders render as distinct strings |
| Strings.Strip | scraper.py:176 | the stripped href is a slice of the href; what was cut from either end is all white space, and the result neither starts nor ends with white space |

## Left out

- HTML parsing is not modelled. This covers BeautifulSoup with lxml, `remove_noise`/`decompose`,
  the tree walk of `find_all`, `get_text` and the CSS selectors. A page is the element sequence left
  after noise removal, plus the anchor lists the selectors return. So the model does not state that
  text inside a noise element never reaches the output; that is the parser's job. Elements nested in
  other content elements (`code` inside `pre`) are listed separately in that sequence, as the walk
  visits them.
- Choosing the main-content region (`main`, else `article`, else `body`) is left to the parser model.
  A page with no body would make `main.find_all` raise; that case is not modelled.
- `urljoin` and `urlparse` are not modelled. An anchor carries its resolved URL already split into
  scheme and network location. `urlparse` of the crawled URL is a function fixed for the crawler.
- Network I/O is not modelled. The GET of `fetch_html` and that of `download_file` are fixed maps of
  answers. Headers and timeouts are left out.
- File system effects are modelled only as maps from file name to content. Directory creation,
  JSON and HTML serialisation, write failures and file encodings are left out.
- `compose_prompt`'s file checks and reads are modelled as a map from path to text. `read_text`
  errors and pathlib's path normalisation are left out; `prompt_dir / name` is `dir + "/" + name`.
- `print` calls, the unused `sent_tokenize` import and `__main__` are left out.
- The language-model scripts (`td_generation/azure.py`, `groq.py`, `openrouter.py`) are one-shot
  API calls and are not part of this model.
- Case mapping, white space and `\w` are modelled on ASCII only. Python applies Unicode rules to
  `lower`, `upper`, `strip` and `re`, so a non-ASCII character that upper-cases to an ASCII letter
  is not covered.
- The history of visited URLs and the set of processed pages are ghost fields. They exist only to
  state that no URL is visited twice, in which order URLs are marked, and which pages were
  processed.
- Crawl.Crawler.Crawl: the crawler invariant states that every processed page has its two output
  files, not which page's content each file holds. `ProcessPage` states the content it writes, but
  two URLs with the same slug overwrite each other's files, and the invariant does not follow
  which one wrote last.
