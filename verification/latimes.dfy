/** The LA Times scraper's `find` as the code is written: the search URL, the
    readiness wait, the per-item extraction policy, the scan of one results
    page and the page-to-page loop. The browser is replaced by a finite
    sequence of pages; the staleness test, timestamp parsing and the uuid
    generator are parameters. */
module Latimes {
  import opened Wrappers
  import opened Text
  import opened News

  const SearchPrefix: string := "https://www.latimes.com/search?q="
  const SearchSuffix: string := "&s=1"

  /** `_assemble_url`: the phrase is split on single spaces and re-joined with
      '+', between a fixed prefix and suffix. */
  function AssembleUrl(phrase: string): (url: string)
    ensures url == SearchPrefix + ReplaceChar(phrase, ' ', '+') + SearchSuffix
    ensures |url| == |SearchPrefix| + |phrase| + |SearchSuffix|
    ensures forall k :: 0 <= k < |phrase| ==>
              url[|SearchPrefix| + k] == (if phrase[k] == ' ' then '+' else phrase[k])
  {
    JoinSplitIsReplace(phrase, ' ', '+');
    SearchPrefix + Join("+", Split(phrase, ' ')) + SearchSuffix
  }

  /** What reading an item's date gives. `Missing`: no timestamp element.
      `Unparsable`: the `TypeError`/`ValueError` the code catches, raised when
      the `data-timestamp` attribute is absent or not an integer, or when it is
      an integer whose date falls outside years 1..9999 (say 10^15 ms); the item
      is skipped. `Unrepresentable`: an integer timestamp the date conversion
      rejects with an exception the code does not catch (`OverflowError`,
      `OSError`); the scrape aborts. `Parsed`: the local date of the
      timestamp. */
  datatype DateField = Missing | Unparsable | Unrepresentable | Parsed(date: Date)

  /** One result item as the locators see it: each lookup may find nothing. */
  datatype Item = Item(date: DateField, title: Option<string>, description: Option<string>, hasImage: bool)

  /** One results page: whether the results section ever shows the word
      "result", the items in document order, and whether a next-page anchor
      exists. */
  datatype Page = Page(ready: bool, items: seq<Item>, hasNextAnchor: bool)

  /** The pages served for one search, in the order the next-page anchors
      lead: the anchor of page i leads to page i + 1, and following an anchor
      past the last page lands on a page whose results never load. */
  type Site = seq<Page>

  /** The scraper's surroundings. `isOlder` is `_is_older_than_limit_date`,
      defined outside the scraper; `uuid(k)` is the text of the k-th `uuid4()`
      drawn during one call of `find`. */
  datatype Config = Config(
    imageDir: string,
    months: int,
    isOlder: (Date, int) -> bool,
    uuid: nat -> string)

  /** The two ways `find` raises instead of returning a list. */
  datatype ScrapeError =
    | ResultsNotLoaded(page: nat)          // `_wait_results_load` gave up on this page
    | TimestampOverflow(page: nat, item: nat)  // an uncaught conversion error on this item

  /** `_wait_results_load` for page `i`: the page's results must become ready;
      otherwise the scrape is aborted. */
  function WaitResultsLoad(site: Site, i: nat): (r: Result<Page, ScrapeError>)
    ensures r.Success? <==> i < |site| && site[i].ready
    ensures r.Success? ==> r.value == site[i]
    ensures r.Failure? ==> r.error == ResultsNotLoaded(i)
  {
    if i < |site| && site[i].ready then Success(site[i]) else Failure(ResultsNotLoaded(i))
  }

  /** `os.path.join(dir, name)` on POSIX: an absolute `name` replaces `dir`;
      otherwise a '/' is inserted unless `dir` is empty or already ends in one. */
  function PathJoin(dir: string, name: string): (path: string)
    ensures |name| > 0 && name[0] == '/' ==> path == name
    ensures !(|name| > 0 && name[0] == '/') ==> dir <= path
    ensures EndsWith(path, name)
    ensures Relative(name) && |dir| == 0 ==> path == name
    ensures Relative(name) && |dir| > 0 ==>
              && |name| < |path|
              && path[|path| - |name| - 1] == '/'
              && (path[..|path| - |name|] == dir || path[..|path| - |name|] == dir + "/")
              && (path[..|path| - |name|] == dir <==> dir[|dir| - 1] == '/')
  {
    if |name| > 0 && name[0] == '/' then name
    else if |dir| == 0 || dir[|dir| - 1] == '/' then dir + name
    else dir + "/" + name
  }

  /** Whether a name is relative (it does not start at the root). */
  predicate Relative(name: string)
  {
    |name| == 0 || name[0] != '/'
  }

  /** For a fixed directory, joining keeps relative names apart. */
  lemma PathJoinInjective(dir: string, n1: string, n2: string)
    requires Relative(n1) && Relative(n2)
    requires PathJoin(dir, n1) == PathJoin(dir, n2)
    ensures n1 == n2
  {
    var p1, p2 := PathJoin(dir, n1), PathJoin(dir, n2);
    var prefix := if |dir| == 0 || dir[|dir| - 1] == '/' then dir else dir + "/";
    assert p1 == prefix + n1 && p2 == prefix + n2;
    assert n1 == p1[|prefix|..] && n2 == p2[|prefix|..];
  }

  /** The `pic_filename` an item gets: "" when no image element was found,
      otherwise `<uuid>.png` under the image directory. Writing the screenshot
      can fail, but the name is kept either way, so the outcome of the write
      plays no part. */
  function PicFilename(hasImage: bool, imageDir: string, uuid: string): (f: string)
    ensures f == "" <==> !hasImage
    ensures hasImage ==> EndsWith(f, uuid + ".png")
    ensures hasImage && Relative(uuid) ==> imageDir <= f
    ensures hasImage && Relative(uuid) && |imageDir| == 0 ==> f == uuid + ".png"
    ensures hasImage && Relative(uuid) && |imageDir| > 0 ==>
              && |uuid| + 4 < |f|
              && f[|f| - |uuid| - 5] == '/'
              && (f[..|f| - |uuid| - 4] == imageDir || f[..|f| - |uuid| - 4] == imageDir + "/")
              && (f[..|f| - |uuid| - 4] == imageDir <==> imageDir[|imageDir| - 1] == '/')
  {
    assert Relative(uuid) ==> Relative(uuid + ".png");
    if hasImage then PathJoin(imageDir, uuid + ".png") else ""
  }

  /** The uuid counter after an item that reached the image step. */
  function AfterImage(drawn: nat, hasImage: bool): nat
  {
    if hasImage then drawn + 1 else drawn
  }

  /** `search_phrase_count`: the phrase counted in title, '.', description
      (or "" when there is none). For a non-empty phrase without '.', that is
      the count in the title plus the count in the description. */
  function PhraseCount(title: string, description: Option<string>, phrase: string): (n: nat)
    ensures |phrase| > 0 && '.' !in phrase ==>
              n == Count(title, phrase) + Count(description.GetOr(""), phrase)
  {
    var text := title + "." + description.GetOr("");
    assert |phrase| > 0 && '.' !in phrase ==>
             Count(text, phrase) == Count(title, phrase) + Count(description.GetOr(""), phrase) by {
      if |phrase| > 0 && '.' !in phrase {
        CountAcrossSeparator(title, '.', description.GetOr(""), phrase);
      }
    }
    Count(text, phrase)
  }

  /** What the loop body does with one item. */
  datatype Step =
    | Skip              // `continue`: no record, go on with the next item
    | Stop              // `done = True; break`: the whole scrape ends
    | Crash             // an exception escapes `find`
    | Keep(record: Article)

  /** The body of the item loop. The date is read first: an unreadable date
      skips the item, a stale date stops the scrape before the title is even
      looked at. Then a missing title skips the item, a missing description is
      tolerated, and the record is built. `drawn` uuids have been used so far. */
  function ProcessItem(item: Item, phrase: string, cfg: Config, drawn: nat): (s: Step)
    ensures s.Crash? <==> item.date.Unrepresentable?
    ensures s.Stop? <==> item.date.Parsed? && cfg.isOlder(item.date.date, cfg.months)
    ensures s.Skip? <==>
              || item.date.Missing? || item.date.Unparsable?
              || (item.date.Parsed? && !cfg.isOlder(item.date.date, cfg.months) && item.title.None?)
    ensures s.Keep? ==>
              && item.date.Parsed? && s.record.publishDate == item.date.date
              && item.title == Some(s.record.title)
              && s.record.description == item.description
              && s.record.searchPhraseCount == PhraseCount(s.record.title, item.description, phrase)
              && (s.record.picFilename == "" <==> !item.hasImage)
              && (item.hasImage ==> s.record.picFilename == PicFilename(true, cfg.imageDir, cfg.uuid(drawn)))
              && s.record.containsMoneyAmount
  {
    match item.date
    case Missing => Skip
    case Unparsable => Skip
    case Unrepresentable => Crash
    case Parsed(d) =>
      if cfg.isOlder(d, cfg.months) then Stop
      else
        match item.title
        case None => Skip
        case Some(title) =>
          var count := PhraseCount(title, item.description, phrase);
          var pic := PicFilename(item.hasImage, cfg.imageDir, cfg.uuid(drawn));
          Keep(NewArticle(title, d, pic, count, item.description))
  }

  /** How the scan of one page ended. */
  datatype PageEnd = Exhausted | StaleReached | Overflowed(item: nat)

  /** The state after scanning a page: the records so far, the uuids used so
      far, and how the scan ended. */
  datatype PageScan = PageScan(news: seq<Article>, drawn: nat, end: PageEnd)

  /** The `for new_element in new_elements` loop, from item `j` on, with the
      records collected so far in `news`. */
  function ScanItems(items: seq<Item>, j: nat, phrase: string, cfg: Config, drawn: nat, news: seq<Article>): (s: PageScan)
    requires j <= |items|
    ensures news <= s.news
    ensures |s.news| - |news| <= |items| - j
    ensures drawn <= s.drawn <= drawn + (|s.news| - |news|)
    ensures s.end.Overflowed? ==> j <= s.end.item < |items| && items[s.end.item].date.Unrepresentable?
    decreases |items| - j
  {
    if j == |items| then PageScan(news, drawn, Exhausted)
    else
      match ProcessItem(items[j], phrase, cfg, drawn)
      case Skip => ScanItems(items, j + 1, phrase, cfg, drawn, news)
      case Stop => PageScan(news, drawn, StaleReached)
      case Crash => PageScan(news, drawn, Overflowed(j))
      case Keep(a) => ScanItems(items, j + 1, phrase, cfg, AfterImage(drawn, items[j].hasImage), news + [a])
  }

  /** The `while not done` loop entered at page `i` (whose readiness is waited
      for first), with the records and uuid count carried over from earlier
      pages. An empty page or a page without a next-page anchor ends the
      scrape; otherwise the anchor is followed. */
  function FindFrom(site: Site, i: nat, phrase: string, cfg: Config, news: seq<Article>, drawn: nat): (r: Result<seq<Article>, ScrapeError>)
    ensures r.Success? ==> news <= r.value
    ensures r.Failure? && r.error.ResultsNotLoaded? ==>
              i <= r.error.page && (r.error.page >= |site| || !site[r.error.page].ready)
    ensures r.Failure? && r.error.TimestampOverflow? ==>
              i <= r.error.page < |site| && r.error.item < |site[r.error.page].items|
              && site[r.error.page].items[r.error.item].date.Unrepresentable?
    decreases |site| - i
  {
    match WaitResultsLoad(site, i)
    case Failure(e) => Failure(e)
    case Success(page) =>
      if |page.items| == 0 then Success(news)
      else
        var scan := ScanItems(page.items, 0, phrase, cfg, drawn, news);
        match scan.end
        case Overflowed(j) => Failure(TimestampOverflow(i, j))
        case StaleReached => Success(scan.news)
        case Exhausted =>
          if !page.hasNextAnchor then Success(scan.news)
          else FindFrom(site, i + 1, phrase, cfg, scan.news, scan.drawn)
  }

  /** `find(search_phrase, section, months)`: the browser opens the search
      URL, which serves `serve(url)`; the section argument is not used. */
  function Find(serve: string -> Site, phrase: string, section: string, cfg: Config): (r: Result<seq<Article>, ScrapeError>)
    ensures var site := serve(AssembleUrl(phrase));
            && (|site| == 0 || !site[0].ready ==> r == Failure(ResultsNotLoaded(0)))
            && (|site| > 0 && site[0].ready && |site[0].items| == 0 ==> r == Success([]))
            && (r.Failure? && r.error.ResultsNotLoaded? ==>
                  r.error.page >= |site| || !site[r.error.page].ready)
            && (r.Failure? && r.error.TimestampOverflow? ==>
                  r.error.page < |site| && r.error.item < |site[r.error.page].items|
                  && site[r.error.page].items[r.error.item].date.Unrepresentable?)
  {
    FindFrom(serve(AssembleUrl(phrase)), 0, phrase, cfg, [], 0)
  }

  /** The section argument has no influence on the outcome. */
  lemma FindIgnoresSection(serve: string -> Site, phrase: string, s1: string, s2: string, cfg: Config)
    ensures Find(serve, phrase, s1, cfg) == Find(serve, phrase, s2, cfg)
  {
  }

  /** `find` written the way the source writes it: a `done` flag, an outer
      `while` over pages with a readiness wait after each navigation, and an
      inner loop over the items of the current page that may break out. */
  method FindLoop(serve: string -> Site, phrase: string, section: string, cfg: Config)
    returns (r: Result<seq<Article>, ScrapeError>)
    ensures r == Find(serve, phrase, section, cfg)
  {
    var site := serve(AssembleUrl(phrase));
    var news: seq<Article> := [];
    var drawn: nat := 0;
    var i: nat := 0;
    var wait := WaitResultsLoad(site, 0);
    if wait.Failure? {
      return Failure(wait.error);
    }
    var done := false;
    while !done
      invariant i < |site| && site[i].ready
      invariant !done ==> FindFrom(site, i, phrase, cfg, news, drawn) == Find(serve, phrase, section, cfg)
      invariant done ==> Find(serve, phrase, section, cfg) == Success(news)
      decreases |site| - i, !done
    {
      var items := site[i].items;
      if |items| == 0 {
        done := true;
        break;
      }
      var pageNews, pageDrawn := news, drawn;
      var j := 0;
      while j < |items|
        invariant j <= |items|
        invariant ScanItems(items, 0, phrase, cfg, pageDrawn, pageNews) == ScanItems(items, j, phrase, cfg, drawn, news)
      {
        var step := ProcessItem(items[j], phrase, cfg, drawn);
        if step.Crash? {
          return Failure(TimestampOverflow(i, j));
        }
        if step.Stop? {
          done := true;
          break;
        }
        if step.Keep? {
          news := news + [step.record];
          drawn := AfterImage(drawn, items[j].hasImage);
        }
        j := j + 1;
      }
      if !site[i].hasNextAnchor {
        done := true;
      }
      if done {
        break;
      }
      i := i + 1;
      wait := WaitResultsLoad(site, i);
      if wait.Failure? {
        return Failure(wait.error);
      }
    }
    return Success(news);
  }
}
