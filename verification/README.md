# LA Times news scraper, modelled in Dafny

This project models the core of a small news-scraping robot: the LA Times
scraper's `find` (`classes/NewsScraper/latimes.py`) and the article record it
produces (`classes/New.py`, class `New`).

`find` builds a search URL from the phrase and opens it. It waits for the
results section to show the word "result". Then it walks the result items of
each page in document order:

- an item whose date element is missing or whose timestamp does not parse is
  skipped;
- the first item whose date the staleness test flags ends the whole scrape;
- an item without a title is skipped;
- an item without a description is kept;
- each kept item gets a search-phrase count and an image filename.

After a page it follows the next-page anchor, until a page is empty or has no
anchor. A page whose results never load aborts the scrape with an exception.

The browser is replaced by a `Site`: a finite sequence of `Page`s. Each page
has a readiness flag, its items in document order (every field an `Option`, or
a `DateField` for the timestamp), and whether a next-page anchor exists. The
anchor of page i leads to page i + 1. Following an anchor past the last page
lands on a page whose results never load. `Find` receives `serve`, the map from
URL to the pages that URL serves, so the assembled URL is what the browser
opens.

Files:

- `wrappers.dfy`: `Option` and `Result`.
- `text.dfy`: Python's `str.split`, `str.join` and `str.count`, with their round trips and counting facts.
- `news.dfy`: the record `Article` and its constructor `NewArticle`.
- `latimes.dfy`: the scraper as written. It holds the URL, the readiness wait, the item step, the page scan and the page loop. The page loop appears twice: once as a recursive function and once as the source's `while`/`for` loops with a `done` flag (`FindLoop`).
- `stream.dfy`: a second description of the page walk, sharing the item step `ProcessItem` with the first. The site is flattened into one stream of events (every item of every page reached, then how the stream ends), and a single left-to-right pass consumes it. `FindFromIsRun` proves that the page loop is exactly this pass.
- `properties.dfy`: the scrape's guarantees over all sites: where the records come from and in what order, when it raises, early termination, and distinct filenames.
- `scenarios.dfy`: single-item facts and small concrete sites.

Behaviour worth knowing, all modelled as written:

- The phrase count is taken over `title + "." + description`. A phrase that contains '.' can therefore match across the joint (`Scenarios.PhraseSpansJoint`). For phrases without '.', the count is the title's count plus the description's (`Latimes.PhraseCount`).
- The code catches only `TypeError` and `ValueError` around the timestamp conversion. An integer timestamp that `date.fromtimestamp` rejects with `OverflowError` or `OSError` therefore escapes `find`. The model has this as a fatal `TimestampOverflow` error. By contrast, a missing date element (the lookup at `classes/NewsScraper/latimes.py:73`) and an unparsable or out-of-range value (the conversion at `classes/NewsScraper/latimes.py:76`) are caught and the item is discarded (`classes/NewsScraper/latimes.py:77-84`). The model follows the code.
- The record's money flag is `True` whatever the text says: the constructor assigns the constant `True` with a `# TODO` beside it (`classes/New.py:20`), so the money check is unwritten. The model follows the code.
- The section argument is ignored, and `months` goes unchanged to the staleness test.

## Model

| member | source | states |
|---|---|---|
| `Latimes.AssembleUrl` | classes/NewsScraper/latimes.py:39-42 | The URL is the fixed prefix, then the phrase with every single space turned into '+' and every other character kept, then "&s=1". Consecutive spaces give consecutive '+'. The length is prefix + phrase + suffix. |
| `Latimes.Find` | classes/NewsScraper/latimes.py:53-60 | `find` opens the assembled URL and waits on page 0: when that page is missing or never ready it raises for page 0, and an empty first page gives no records. Any not-loaded error names a missing or unready page, and any overflow error names a real item whose timestamp is unrepresentable. Where the records come from and when it raises are stated over all sites by `ScrapeProperties.FindOrigins` and `ScrapeProperties.FindOutcome`. |
| `Latimes.FindIgnoresSection` | classes/NewsScraper/latimes.py:53-57 | The section argument has no influence on the result. |
| `Latimes.WaitResultsLoad` | classes/NewsScraper/latimes.py:44-51 | The wait succeeds exactly when the page exists and its results load, giving that page. Otherwise it raises the not-loaded error for that page. |
| `Latimes.PathJoin` | classes/NewsScraper/latimes.py:127-129 | `os.path.join` on POSIX: an absolute name replaces the directory. A relative name under an empty directory is the path itself; under a non-empty one, the path is the directory, then a '/' only if the directory does not already end in one, then the name, so exactly one '/' stands between them. The result always ends with the name. |
| `Latimes.PathJoinInjective` | classes/NewsScraper/latimes.py:127-129 | For one directory, distinct relative names give distinct paths. |
| `Latimes.PicFilename` | classes/NewsScraper/latimes.py:117-135 | The filename is "" exactly when no image element was found. Otherwise it ends in `<uuid>.png`, and for a relative uuid it is that name joined under the image directory with a '/' between them (or the name alone when the directory is empty). The outcome of the file write plays no part. |
| `Latimes.PhraseCount` | classes/NewsScraper/latimes.py:113-115 | For a non-empty phrase without '.', the count over `title.description` equals the count in the title plus the count in the description (or in "" when there is none). |
| `Latimes.ProcessItem` | classes/NewsScraper/latimes.py:72-140 | Per-item policy, each case stated as an if-and-only-if. A missing or unparsable date skips the item. An uncaught conversion error crashes the scrape. A stale parsed date stops it whatever the title. A missing title skips the item. Otherwise a record is kept, carrying the item's date, title, description (possibly none), phrase count and image-dependent filename. |
| `Latimes.ScanItems` | classes/NewsScraper/latimes.py:71-140 | Scanning a page only appends records, at most one per item. It draws at most one uuid per record. An overflow end names a real item of the page whose timestamp overflowed. |
| `Latimes.FindFrom` | classes/NewsScraper/latimes.py:60-154 | The page loop only extends the records carried in. A not-loaded error names a page at or after the start that is missing or not ready. An overflow error names a real item on a real page. |
| `Latimes.FindLoop` | classes/NewsScraper/latimes.py:53-154 | The loop version (`done` flag, `break`s, readiness wait after each navigation) computes exactly the same result as the recursive model, on every input. |
| `News.NewArticle` | classes/New.py:7-20 | The constructor stores title, publish date, picture filename, phrase count and description unchanged. The money flag is set to true. |
| `News.PropertiesRebuild` | classes/New.py:22-44 | Passing the values read from the properties back to the constructor rebuilds the same record, so the properties expose all stored state unchanged. |
| `News.NewArticleInjective` | classes/New.py:15-19 | Equal records come only from equal constructor arguments. |
| `News.DescriptionDefaultsToNone` | classes/New.py:13 | Omitting the description gives a record whose description is `None`. |
| `News.MoneyFlagIgnoresText` | classes/New.py:20 | `contains_money_amount` does not depend on title or description. |
| `Text.Split` | classes/NewsScraper/latimes.py:41 | `split(' ')` yields one more piece than there are separators, and no piece contains the separator. |
| `Text.Join` | classes/NewsScraper/latimes.py:41 | `'+'.join`: no pieces give ""; otherwise the result starts with the first piece and ends with the last. |
| `Text.JoinLength` | classes/NewsScraper/latimes.py:41 | The joined string is as long as all pieces together plus one separator between each two. |
| `Text.JoinSplitIsReplace` | classes/NewsScraper/latimes.py:41 | Joining the pieces of `split(from)` with `to` is the character-wise replacement of `from` by `to`. |
| `Text.JoinSplitRoundTrip` | classes/NewsScraper/latimes.py:41 | Splitting and re-joining with the same character gives the input back. |
| `Text.SplitJoinRoundTrip` | classes/NewsScraper/latimes.py:41 | Pieces without the separator come back unchanged after joining and splitting. |
| `Text.Count` | classes/NewsScraper/latimes.py:113-115 | Non-overlapping `str.count`: a non-empty phrase is found at most \|s\| / \|p\| times. An empty phrase counts \|s\| + 1. |
| `Text.CountMatches` | classes/NewsScraper/latimes.py:113-115 | For a non-empty phrase, the count is exactly the number of left-to-right, non-overlapping leftmost matches: each returned position is an occurrence, each starts at or after the previous one's end, and every occurrence starts at or inside a match, so none is skipped before, between or after them. |
| `Text.CountPositiveIffOccurs` | classes/NewsScraper/latimes.py:113-115 | A non-empty phrase is counted at least once exactly when it occurs in the text. |
| `Text.CountAcrossSeparator` | classes/NewsScraper/latimes.py:113-115 | A phrase that cannot contain the joining character is counted in `a + c + b` as in `a` plus in `b`. |
| `Stream.Walk` | classes/NewsScraper/latimes.py:60-151 | The stream of a site ends with exactly one non-item event (end of results or a page that did not load). Every item event names a real item of a page reached. Item events come in page order, then item order. |
| `Stream.FindFromIsRun` | classes/NewsScraper/latimes.py:60-154 | The page-by-page loop equals the single pass over the site's flat event stream, from every page and carried-over state. |
| `Stream.FindIsRun` | classes/NewsScraper/latimes.py:53-154 | `find` is the single pass over the stream of the site its URL serves. |
| `Stream.RunIsHarvestThenClose` | classes/NewsScraper/latimes.py:71-154 | The pass returns the records of every kept item before the first terminal event (end, unloaded page, stale item, overflowing timestamp). That event alone decides between returning and raising. |
| `Stream.RunCut` | classes/NewsScraper/latimes.py:86-91 | Nothing after a terminal event can change the outcome of the pass. |
| `Stream.FirstTerminal` | classes/NewsScraper/latimes.py:72-91 | Gives the index of the first event that ends the pass, or the stream length when there is none. |
| `ScrapeProperties.FindOrigins` | classes/NewsScraper/latimes.py:71-140 | Every record of a successful `find` is paired with a real (page, item) position. That item had a parsed, non-stale date and a title, and its fields, phrase count and image presence match the record. Positions strictly increase in page order, then item order. |
| `ScrapeProperties.FindOutcome` | classes/NewsScraper/latimes.py:44-154 | `find` raises exactly when its stream first meets an unloaded page or an overflowing timestamp. An unloaded page gives the not-loaded error for that page. On success the records are all those kept before the first terminal event. |
| `ScrapeProperties.StaleItemEndsScrape` | classes/NewsScraper/latimes.py:86-91 | Two sites that agree up to and including a stale item give the same outcome. Later items on that page, its anchor and all later pages (even unloadable ones) play no part. |
| `ScrapeProperties.LastPageEndsScrape` | classes/NewsScraper/latimes.py:64-69 | After an empty page, or a page without a next-page anchor, no further page is reached: sites agreeing up to that page have the same stream and the same outcome. |
| `ScrapeProperties.FindFilenamesDistinct` | classes/NewsScraper/latimes.py:124-129 | When the uuid source never repeats and gives relative names, no two records of one call share an image filename. |
| `ScrapeProperties.HarvestOrigins` | classes/NewsScraper/latimes.py:71-140 | Each kept record comes from an item event, and records follow stream order. |
| `Scenarios.CatCountedTwice` | classes/NewsScraper/latimes.py:113-115 | "cat" is counted twice in the title "cat and cat" with no description. |
| `Scenarios.PhraseSpansJoint` | classes/NewsScraper/latimes.py:113-115 | "end." occurs in neither "the end" nor the missing description, yet is counted once across the '.' joint. |
| `Scenarios.StaleUntitledItemStops` | classes/NewsScraper/latimes.py:86-100 | A stale item without a title stops the scrape instead of being skipped. |
| `Scenarios.UndescribedItemKept` | classes/NewsScraper/latimes.py:102-111 | A current, titled item without a description is kept with description `None`. |
| `Scenarios.UnreadableDateSkipped` | classes/NewsScraper/latimes.py:72-84 | An item with a missing or unparsable date is passed over and the scan continues with the next item of the same page. |
| `Scenarios.TwoPagesScenario` | classes/NewsScraper/latimes.py:64-151 | With three current items and an anchor on page one and two stale items on page two, `find` returns the three page-one records in order. |
| `Scenarios.UnloadedSecondPageRaises` | classes/NewsScraper/latimes.py:142-151 | When the followed anchor leads to a page that never loads, `find` raises instead of returning the records collected so far. |

## Left out

- Browser calls (`get`, `find_element(s)`, `get_attribute`, `screenshot_as_png`) and the 10-second `WebDriverWait`. These are foreign browser I/O. Readiness is a flag per page, element lookups are `Option` fields, and an anchor's `href` always leads to the next page of the site.
- Link graphs other than a chain: an `href` leading back to an earlier page would make the source loop for ever. The model's site is a finite chain of pages.
- `date.fromtimestamp(int(ts) / 1000)`. It uses float division and the local timezone, so each item carries the outcome directly as a `DateField`: missing element, unparsable, unrepresentable, or a parsed date.
- `_is_older_than_limit_date`. It is not defined in the scraper or its base class, so it is an uninterpreted parameter `isOlder(date, months)`. No month-window formula is assumed, and `months` is neither validated nor clamped, as in the code.
- `uuid4()` and the file write. The k-th uuid drawn in one call is `uuid(k)`, an oracle. The write outcome is not modelled because the filename is kept either way.
- Logging, which has no effect on results.
- The `innerText` attribute reading as `None`. The title and description texts are taken to be strings whenever their elements exist.
- A money-amount pattern for `contains_money_amount`: the class has only a TODO and sets `True`.
- Section validation and section routes: the scraper ignores the section, and its base class mentions validation only in a comment.
- `classes/NewsScraper/reuters.py` (a stub returning two fixed records), `classes/NewsScraper/abstract.py` (stores its constructor arguments and declares `find`) and `tasks.py` (work-item and spreadsheet glue; `NewsSpreadsheet` is not part of this model).
