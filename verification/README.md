# Minnesota fire code scraper: a Dafny model of its core

The scraper builds one markdown document of the Minnesota fire code rules
(`scrape_mn_fire_code.py`). It has three parts:

- **Index resolver.** It reads the index page's anchors and extracts one rule link from each anchor whose text says `Minn. Rules <number>`.
- **Rule-page extractor.** For each link, it renders the rule's title, its source URL and one block per `div.section` container whose id starts with a rule number. Any fault replaces the whole page with a single error line.
- **Document assembly.** It concatenates the pages' outputs in link order.

This project models those three parts as pure functions over already-parsed pages. It proves what they compute against independent descriptions: the declarative meaning of each regular expression, Python's string operations, and round trips between the URLs that are built and the numbers read back from them.

Modules, in dependency order:

- `Optional` (`optional.dfy`) — `Option`, with `GetOr` for `dict.get(key, default)`.
- `Text` (`text.dfy`) — the `\d`/`\s` classes and their greedy runs, `str.strip()`, `needle in haystack`, `str.split('/')` and its inverse `'/'.join`.
- `Pattern` (`pattern.dfy`) — the anchored matcher for `(\d+\.\d+)` and the leftmost-first searcher for `Minn\.\s+Rules\s+(\d+\.\d+)`. Each is proved equal to a positional description of what the pattern denotes.
- `Urls` (`urls.dfy`) — the index-built detail URL `https://www.revisor.mn.gov/rules/<n>/`, the fallback section URL `.../rules/<n>`, and `url.split('/')[-2]`.
- `Html` (`html.dfy`) — a parsed page is its elements in document order. Each element carries its tag, classes, `id`, `href`, visible text and first inner link.
- `IndexResolver` (`index_resolver.dfy`) — the rule links of an index page.
- `RulePageExtractor` (`rule_page.dfy`) — the functions below, plus the page loop as the source runs it:
  - `Extract` gives a page's title, sections, or fault;
  - `Render` gives its markdown.
- `Scraper` (`scraper.dfy`) — the driver loops and the properties of the whole document.

Faults are modelled explicitly. The browser hands over a `PageSource` for the `k`-th visit, which is one of two things:

- `Unreachable(message)`: loading the page failed.
- `Rendered(elements, fault)`: the page loaded. `fault`, if present, says how many elements the section loop had scanned when the exception was raised, and what its message is.

Python's `IndexError` on a URL without `/` is modelled as the concrete message `list index out of range`.

## Model

| member | source | states |
|---|---|---|
| Text.RunEnd | scrape_mn_fire_code.py:96 | a greedy `\d*`/`\s*` run from `i` is all of the class and cannot be extended at its end |
| Text.RunEndUnique | scrape_mn_fire_code.py:96 | any run that is all of the class and cannot be extended is the one the greedy matcher finds |
| Text.Strip | scrape_mn_fire_code.py:83 | `strip()` yields a result with no whitespace at either end, found inside the input between all-whitespace edges |
| Text.StripCharacterization | scrape_mn_fire_code.py:109 | whitespace + trimmed middle + whitespace strips to exactly the middle |
| Text.StripIdempotent | scrape_mn_fire_code.py:109 | stripping twice is stripping once |
| Text.ContainsAt | scrape_mn_fire_code.py:78 | `number in text` holds iff the number occurs at some position of the text |
| Text.SplitPieces | scrape_mn_fire_code.py:75 | `split('/')` gives at least two pieces iff the string has a `/`, and no piece contains `/` |
| Text.SplitJoin | scrape_mn_fire_code.py:75 | joining the pieces of a split with the separator gives the string back |
| Text.JoinSplit | scrape_mn_fire_code.py:75 | splitting a join of separator-free pieces gives the pieces back |
| Text.SplitAppend | scrape_mn_fire_code.py:75 | a separator splits a string into the pieces before it followed by those after it |
| Pattern.RuleNumberHasNoSlash | scrape_mn_fire_code.py:29-30 | a matched rule number never contains `/`, so it is a single path segment of the URL built from it |
| Pattern.NumberAtExact | scrape_mn_fire_code.py:96 | `re.match(r'(\d+\.\d+)', id)` gives `n` iff `n` is digits.digits, is a prefix of the id, and is not followed by a digit |
| Pattern.SubpartIdReadsPartNumber | scrape_mn_fire_code.py:96-98 | an id that is a rule number followed by a non-digit (`.1`, `-note`, ...) reads as that rule number |
| Pattern.SubpartIdsShareNumber | scrape_mn_fire_code.py:96-98 | the ids `7511.0020.0` and `7511.0020.1` both read as `7511.0020` |
| Pattern.MentionAtExact | scrape_mn_fire_code.py:27 | the matcher tried at one position succeeds with group `n` iff `Minn.`, whitespace, `Rules`, whitespace and a maximal `n` lie there |
| Pattern.SearchLeftmost | scrape_mn_fire_code.py:27-29 | `re.search(...).group(1)` is `n` iff a match with group `n` starts at some position and no match starts earlier |
| Pattern.SearchNone | scrape_mn_fire_code.py:27-28 | the search finds nothing iff the pattern matches at no position |
| Urls.SecondToLastSegment | scrape_mn_fire_code.py:75 | `url.split('/')[-2]` exists iff the URL has a `/`, and it contains no `/` |
| Urls.IndexUrlRoundTrip | scrape_mn_fire_code.py:75 | the second-to-last segment of `https://www.revisor.mn.gov/rules/<n>/` is `n` |
| Urls.IndexUrlInjective | scrape_mn_fire_code.py:30 | different rule numbers give different index-built URLs |
| Urls.IndexAndFallbackDiffer | scrape_mn_fire_code.py:105 | a fallback section URL (no trailing slash) never equals an index-built URL |
| IndexResolver.RuleLinks | scrape_mn_fire_code.py:25-31 | no more links than elements, and every link is the index-built URL of a rule number that reads back from it |
| IndexResolver.RuleLinksAppend | scrape_mn_fire_code.py:26 | the links of two stretches of a page are the first's followed by the second's: order is kept and duplicates too |
| IndexResolver.AnchorLink | scrape_mn_fire_code.py:26-31 | an element yields the link of rule `n` iff it is an `a` with an `href` and the leftmost mention in its text has group `n` |
| IndexResolver.AnchorNoLink | scrape_mn_fire_code.py:26-28 | an element yields at most one link, and none iff it is not an `a` with an `href` or its text has no mention |
| IndexResolver.NoRuleLinks | scrape_mn_fire_code.py:34 | an index page yields no links iff none of its elements is an `a` with an `href` and a mention in its text |
| RulePageExtractor.SectionOf | scrape_mn_fire_code.py:94-109 | a contributing container is a `div.section` whose id starts with its number; its body is the stripped text; its URL is the inner link or else the fallback URL |
| RulePageExtractor.SectionOfQualifies | scrape_mn_fire_code.py:94-97 | a container contributes iff it is a `div.section` whose id (default `""`) starts with a rule number |
| RulePageExtractor.SectionsAppend | scrape_mn_fire_code.py:94 | the sections of two stretches of a page are the first's followed by the second's |
| RulePageExtractor.SectionNumbersAreRuleNumbers | scrape_mn_fire_code.py:96-98 | every section number is of the form digits.digits |
| RulePageExtractor.TitleFromFirstHeading | scrape_mn_fire_code.py:77-84 | the title is the stripped text of the first h1-h6, in document order, whose text contains the rule number |
| RulePageExtractor.TitleFallsBackToNumber | scrape_mn_fire_code.py:86-89 | with no such heading the title is the bare rule number |
| RulePageExtractor.FindTitle | scrape_mn_fire_code.py:77-89 | the heading loop with its `break` computes that title |
| RulePageExtractor.ErrorUrlIsLastSection | scrape_mn_fire_code.py:98-105 | the URL an error line reports is the page URL before any section, and otherwise the URL of the last section handled |
| RulePageExtractor.ErrorIsOneLine | scrape_mn_fire_code.py:112-114 | a faulted page leaves exactly one line, ending in a line break, when its URL and message have none |
| RulePageExtractor.IndexLinkPage | scrape_mn_fire_code.py:75 | a page reached through an index-built link looks its title up under the number the link was built from |
| RulePageExtractor.OutputIgnoresSectionLinks | scrape_mn_fire_code.py:99-109 | without a fault the output is the same whatever the sections link to |
| RulePageExtractor.SectionTurn | scrape_mn_fire_code.py:95-109 | one turn of the section loop extends the output by that element's block and moves `rule_url` to its URL |
| RulePageExtractor.ScrapeRulePage | scrape_mn_fire_code.py:66-116 | the page loop produces the rendering of what the page comes to: heading, source line and sections, or the one error line |
| Scraper.CollectRuleLinks | scrape_mn_fire_code.py:25-31 | the anchor loop collects exactly the rule links of the index page |
| Scraper.AssemblePages | scrape_mn_fire_code.py:52-53 | the page loop's document is one page output per link, concatenated in link order |
| Scraper.ScrapeFireCodeRules | scrape_mn_fire_code.py:25-53 | no links gives exactly the fixed error document; otherwise the document is the pages' outputs in link order |
| Scraper.DocumentAround | scrape_mn_fire_code.py:52-53 | the document is the pages before the `k`-th, then its output, then the pages after it |
| Scraper.PageFaultIsContained | scrape_mn_fire_code.py:112-114 | two runs that differ only in what one visit hands over give documents that differ only in that page's part |
| Scraper.VisitedPageTitle | scrape_mn_fire_code.py:30 | every visited link is the index-built URL of a rule number, and that number titles the page when it loads without a fault |

## Subpart section ids

`re.match(r'(\d+\.\d+)', id)` stops before the second dot, so ids `7511.0020.0` and `7511.0020.1` both give sections numbered `7511.0020`, and subparts are not told apart by number (`Pattern.SubpartIdReadsPartNumber`, `Pattern.SubpartIdsShareNumber`).

Inside the section loop, the code rebinds `rule_url` to each section's URL. So a fault after a section has been handled reports that section's URL rather than the page's. `Extract` and `ErrorUrlIsLastSection` state this behaviour as written.

## Left out

- Fetching the index page is not modelled; the index arrives as its parsed elements. This covers `requests.get`, `raise_for_status` and the `Error fetching index page` return (lines 20-22, 56-57). These are network I/O.
- Selenium is not modelled. This covers the options, driver creation and its `Could not initialize ChromeDriver` return (lines 37-49), and `driver.quit` (lines 58-60): they are browser lifecycle outside the program's logic. `driver.get` and `page_source` (lines 70-72) become the `Browser` parameter.
- HTML parsing and `get_text()` are not modelled: each element's text, attributes and first inner link are given.
- The `urljoin` of an arbitrary section `href` (line 102) is not modelled: `Element.link` is the already-resolved URL. The two joins of the base URL with an absolute path (lines 30 and 105) are modelled as concatenation.
- Exception text `{e}` is an opaque string (`Fault.message`, `Unreachable.message`). Where an exception strikes is a parameter. A fault inside the title search has the same output as a fault before the first element of the section loop, because `rule_url` is still the page URL at that point.
- `time.sleep`, `print`, the `__main__` block and the file write (lines 54, 67, 71, 85, 87, 106, 110, 113, 118-125) have no effect on the returned text.
- Text.InClass: `\d`, `\s` and `str.strip()` are ASCII only. `\d` is `0`-`9` and whitespace is the six characters space, `\t`, `\n`, `\r`, `\x0b` and `\x0c`. Python's `\s` and `strip()` also count `\x1c`-`\x1f`, `\x85`, `\xa0` and other Unicode spaces, and its `\d` accepts other Unicode digits. In particular `get_text()` turns `&nbsp;` into `\xa0`, so an anchor reading `Minn.&nbsp;Rules&nbsp;7511.0020` yields a link in Python but none in the model.
