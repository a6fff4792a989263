/** A second, flat description of `find`: the site read as one stream of
    events in document order (every item of every page reached, then how the
    stream ends), consumed by a single left-to-right pass. `FindFromIsRun`
    shows the page-by-page loop computes exactly this pass; the properties of
    the scrape are then stated on the stream. */
module Stream {
  import opened Wrappers
  import opened News
  import opened Latimes

  /** One step of the stream: item `index` of page `page`, the end of the
      results (an empty page or a page without next-page anchor), or a page
      whose results never loaded. */
  datatype Event = ItemAt(page: nat, index: nat, item: Item) | EndOfResults | NotLoaded(page: nat)

  /** The items of page `i`, each tagged with its position. */
  function Tagged(i: nat, items: seq<Item>): (es: seq<Event>)
    ensures |es| == |items|
    ensures forall k :: 0 <= k < |items| ==> es[k] == ItemAt(i, k, items[k])
  {
    seq(|items|, k requires 0 <= k < |items| => ItemAt(i, k, items[k]))
  }

  /** Every event the scrape could meet from page `i` on if no item were
      stale: it ends with exactly one non-item event, and every item event
      names a real item of a page at or after `i`. */
  function Walk(site: Site, i: nat): (es: seq<Event>)
    ensures |es| > 0 && !es[|es| - 1].ItemAt?
    ensures forall x :: 0 <= x < |es| - 1 ==> es[x].ItemAt?
    ensures forall x :: 0 <= x < |es| && es[x].ItemAt? ==>
              i <= es[x].page < |site| && es[x].index < |site[es[x].page].items|
              && es[x].item == site[es[x].page].items[es[x].index]
    ensures forall x, y :: 0 <= x < y < |es| && es[x].ItemAt? && es[y].ItemAt? ==>
              Before(es[x].page, es[x].index, es[y].page, es[y].index)
    decreases |site| - i
  {
    if i >= |site| || !site[i].ready then [NotLoaded(i)]
    else if |site[i].items| == 0 then [EndOfResults]
    else Tagged(i, site[i].items) + (if site[i].hasNextAnchor then Walk(site, i + 1) else [EndOfResults])
  }

  /** Position (p1, j1) comes strictly before (p2, j2): an earlier page, or an
      earlier item of the same page. */
  predicate Before(p1: nat, j1: nat, p2: nat, j2: nat)
  {
    p1 < p2 || (p1 == p2 && j1 < j2)
  }

  /** The single pass: skip, keep, or finish at each event. */
  function Run(es: seq<Event>, phrase: string, cfg: Config, drawn: nat, news: seq<Article>): Result<seq<Article>, ScrapeError>
    decreases |es|
  {
    if |es| == 0 then Success(news)
    else
      match es[0]
      case NotLoaded(p) => Failure(ResultsNotLoaded(p))
      case EndOfResults => Success(news)
      case ItemAt(p, j, it) =>
        match ProcessItem(it, phrase, cfg, drawn)
        case Crash => Failure(TimestampOverflow(p, j))
        case Stop => Success(news)
        case Skip => Run(es[1..], phrase, cfg, drawn, news)
        case Keep(a) => Run(es[1..], phrase, cfg, AfterImage(drawn, it.hasImage), news + [a])
  }

  /** Scanning a page from item `j` and then going on with `rest` is the
      single pass over the page's remaining tagged items followed by `rest`. */
  lemma {:induction false} ScanIsRun(
    i: nat, items: seq<Item>, j: nat, rest: seq<Event>,
    phrase: string, cfg: Config, drawn: nat, news: seq<Article>)
    requires j <= |items|
    ensures var s := ScanItems(items, j, phrase, cfg, drawn, news);
            Run(Tagged(i, items)[j..] + rest, phrase, cfg, drawn, news) ==
              match s.end
              case Overflowed(k) => Failure(TimestampOverflow(i, k))
              case StaleReached => Success(s.news)
              case Exhausted => Run(rest, phrase, cfg, s.drawn, s.news)
    decreases |items| - j
  {
    var es := Tagged(i, items)[j..] + rest;
    if j == |items| {
      assert es == rest;
    } else {
      assert es[0] == ItemAt(i, j, items[j]);
      assert es[1..] == Tagged(i, items)[j + 1..] + rest;
      match ProcessItem(items[j], phrase, cfg, drawn)
      case Skip =>
        ScanIsRun(i, items, j + 1, rest, phrase, cfg, drawn, news);
      case Stop =>
      case Crash =>
      case Keep(a) =>
        ScanIsRun(i, items, j + 1, rest, phrase, cfg, AfterImage(drawn, items[j].hasImage), news + [a]);
    }
  }

  /** The page-by-page loop and the single pass over the stream agree on
      every site, from every page, for every carried-over state. */
  lemma {:induction false} FindFromIsRun(site: Site, i: nat, phrase: string, cfg: Config, news: seq<Article>, drawn: nat)
    ensures FindFrom(site, i, phrase, cfg, news, drawn) == Run(Walk(site, i), phrase, cfg, drawn, news)
    decreases |site| - i
  {
    if i >= |site| || !site[i].ready {
    } else if |site[i].items| == 0 {
    } else {
      var items := site[i].items;
      var rest := if site[i].hasNextAnchor then Walk(site, i + 1) else [EndOfResults];
      ScanIsRun(i, items, 0, rest, phrase, cfg, drawn, news);
      assert Tagged(i, items)[0..] == Tagged(i, items);
      var s := ScanItems(items, 0, phrase, cfg, drawn, news);
      if s.end.Exhausted? && site[i].hasNextAnchor {
        FindFromIsRun(site, i + 1, phrase, cfg, s.news, s.drawn);
      }
    }
  }

  /** `find` is the single pass over the stream of the site its URL serves. */
  lemma FindIsRun(serve: string -> Site, phrase: string, section: string, cfg: Config)
    ensures Find(serve, phrase, section, cfg) == Run(Walk(serve(AssembleUrl(phrase)), 0), phrase, cfg, 0, [])
  {
    FindFromIsRun(serve(AssembleUrl(phrase)), 0, phrase, cfg, [], 0);
  }

  /** An event at which the pass finishes: the end of the results, a page that
      did not load, a stale item or an item whose timestamp overflows. */
  predicate Terminal(e: Event, phrase: string, cfg: Config)
  {
    match e
    case ItemAt(_, _, it) => it.date.Unrepresentable? || (it.date.Parsed? && cfg.isOlder(it.date.date, cfg.months))
    case _ => true
  }

  /** The index of the first terminal event, or |es| when there is none. */
  function FirstTerminal(es: seq<Event>, phrase: string, cfg: Config): (k: nat)
    ensures k <= |es|
    ensures k < |es| ==> Terminal(es[k], phrase, cfg)
    ensures forall x :: 0 <= x < k ==> !Terminal(es[x], phrase, cfg)
    decreases |es|
  {
    if |es| == 0 then 0
    else if Terminal(es[0], phrase, cfg) then 0
    else 1 + FirstTerminal(es[1..], phrase, cfg)
  }

  /** The records a stretch of non-terminal events contributes, in order:
      one per item whose date parsed and whose title was found. */
  function Harvest(es: seq<Event>, phrase: string, cfg: Config, drawn: nat): seq<Article>
    decreases |es|
  {
    if |es| == 0 then []
    else
      match es[0]
      case ItemAt(_, _, it) =>
        (match ProcessItem(it, phrase, cfg, drawn)
         case Keep(a) => [a] + Harvest(es[1..], phrase, cfg, AfterImage(drawn, it.hasImage))
         case _ => Harvest(es[1..], phrase, cfg, drawn))
      case _ => Harvest(es[1..], phrase, cfg, drawn)
  }

  /** How the pass ends at terminal event `e` with records `news`: an error
      for a page that did not load or an overflowing timestamp, the records
      otherwise. */
  function Close(e: Event, phrase: string, cfg: Config, news: seq<Article>): Result<seq<Article>, ScrapeError>
  {
    match e
    case NotLoaded(p) => Failure(ResultsNotLoaded(p))
    case EndOfResults => Success(news)
    case ItemAt(p, j, it) => if it.date.Unrepresentable? then Failure(TimestampOverflow(p, j)) else Success(news)
  }

  /** The outcome `RunIsHarvestThenClose` states for a pass over `es`. */
  ghost predicate HarvestThenClose(es: seq<Event>, phrase: string, cfg: Config, drawn: nat, news: seq<Article>)
  {
    var k := FirstTerminal(es, phrase, cfg);
    Run(es, phrase, cfg, drawn, news) ==
      if k < |es| then Close(es[k], phrase, cfg, news + Harvest(es[..k], phrase, cfg, drawn))
      else Success(news + Harvest(es, phrase, cfg, drawn))
  }

  /** A pass starting at a terminal event closes at once with no new records. */
  lemma HarvestThenCloseAtTerminal(es: seq<Event>, phrase: string, cfg: Config, drawn: nat, news: seq<Article>)
    requires |es| > 0 && Terminal(es[0], phrase, cfg)
    ensures HarvestThenClose(es, phrase, cfg, drawn, news)
  {
    assert es[..0] == [];
    assert news + Harvest([], phrase, cfg, drawn) == news;
    if es[0].ItemAt? {
      var step := ProcessItem(es[0].item, phrase, cfg, drawn);
      assert step.Stop? || step.Crash?;
    }
  }

  /** A non-terminal first event that yields no record passes the outcome of
      the rest through unchanged. */
  lemma HarvestThenCloseSkip(es: seq<Event>, phrase: string, cfg: Config, drawn: nat, news: seq<Article>)
    requires |es| > 0 && !Terminal(es[0], phrase, cfg) && es[0].ItemAt?
    requires ProcessItem(es[0].item, phrase, cfg, drawn).Skip?
    requires HarvestThenClose(es[1..], phrase, cfg, drawn, news)
    ensures HarvestThenClose(es, phrase, cfg, drawn, news)
  {
    var k := FirstTerminal(es, phrase, cfg);
    assert es[..k][1..] == es[1..][..k - 1];
  }

  /** A non-terminal first event that yields record `a` puts it in front of
      the records of the rest. */
  lemma HarvestThenCloseKeep(es: seq<Event>, phrase: string, cfg: Config, drawn: nat, news: seq<Article>, a: Article)
    requires |es| > 0 && !Terminal(es[0], phrase, cfg) && es[0].ItemAt?
    requires ProcessItem(es[0].item, phrase, cfg, drawn) == Keep(a)
    requires HarvestThenClose(es[1..], phrase, cfg, AfterImage(drawn, es[0].item.hasImage), news + [a])
    ensures HarvestThenClose(es, phrase, cfg, drawn, news)
  {
    var k := FirstTerminal(es, phrase, cfg);
    var d' := AfterImage(drawn, es[0].item.hasImage);
    if k < |es| {
      assert es[..k][1..] == es[1..][..k - 1];
      assert news + [a] + Harvest(es[..k][1..], phrase, cfg, d')
          == news + Harvest(es[..k], phrase, cfg, drawn);
    } else {
      assert news + [a] + Harvest(es[1..], phrase, cfg, d')
          == news + Harvest(es, phrase, cfg, drawn);
    }
  }

  /** The pass returns the records harvested before the first terminal event,
      and that event alone decides between returning them and raising. */
  lemma {:induction false} RunIsHarvestThenClose(es: seq<Event>, phrase: string, cfg: Config, drawn: nat, news: seq<Article>)
    ensures var k := FirstTerminal(es, phrase, cfg);
            Run(es, phrase, cfg, drawn, news) ==
              if k < |es| then Close(es[k], phrase, cfg, news + Harvest(es[..k], phrase, cfg, drawn))
              else Success(news + Harvest(es, phrase, cfg, drawn))
    decreases |es|
  {
    if |es| == 0 {
      assert news + Harvest(es, phrase, cfg, drawn) == news;
    } else if Terminal(es[0], phrase, cfg) {
      HarvestThenCloseAtTerminal(es, phrase, cfg, drawn, news);
    } else {
      var it := es[0].item;
      match ProcessItem(it, phrase, cfg, drawn)
      case Skip =>
        RunIsHarvestThenClose(es[1..], phrase, cfg, drawn, news);
        HarvestThenCloseSkip(es, phrase, cfg, drawn, news);
      case Keep(a) =>
        RunIsHarvestThenClose(es[1..], phrase, cfg, AfterImage(drawn, it.hasImage), news + [a]);
        HarvestThenCloseKeep(es, phrase, cfg, drawn, news, a);
    }
  }

  /** Nothing after a terminal event matters: whatever follows it, the pass
      ends the same way. */
  lemma {:induction false} RunCut(pre: seq<Event>, e: Event, post: seq<Event>, phrase: string, cfg: Config, drawn: nat, news: seq<Article>)
    requires Terminal(e, phrase, cfg)
    ensures Run(pre + [e] + post, phrase, cfg, drawn, news) == Run(pre + [e], phrase, cfg, drawn, news)
    decreases |pre|
  {
    if |pre| == 0 {
      assert pre + [e] + post == [e] + post;
      assert pre + [e] == [e];
    } else {
      assert (pre + [e] + post)[1..] == pre[1..] + [e] + post;
      assert (pre + [e])[1..] == pre[1..] + [e];
      assert (pre + [e] + post)[0] == pre[0] == (pre + [e])[0];
      match pre[0]
      case ItemAt(p, j, it) => {
        match ProcessItem(it, phrase, cfg, drawn)
        case Skip => RunCut(pre[1..], e, post, phrase, cfg, drawn, news);
        case Keep(a) => RunCut(pre[1..], e, post, phrase, cfg, AfterImage(drawn, it.hasImage), news + [a]);
        case Stop =>
        case Crash =>
      }
      case EndOfResults =>
      case NotLoaded(p) =>
    }
  }
}
