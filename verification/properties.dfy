/** What `find` promises, proved over every site: where each record comes
    from and in what order, when the scrape raises, what ends it early,
    and that image filenames do not collide. */
module ScrapeProperties {
  import opened Wrappers
  import opened News
  import opened Latimes
  import opened Stream

  /** Record `a` is what item `it` yields: the item's date parsed and is not
      stale, its title was found, and the record carries the item's date,
      title and description, the phrase count of that text, and a filename
      exactly when the item has an image. */
  predicate Origin(it: Item, a: Article, phrase: string, cfg: Config)
  {
    && it.date == Parsed(a.publishDate)
    && !cfg.isOlder(a.publishDate, cfg.months)
    && it.title == Some(a.title)
    && a.description == it.description
    && a.searchPhraseCount == PhraseCount(a.title, it.description, phrase)
    && (a.picFilename == "" <==> !it.hasImage)
    && a.containsMoneyAmount
  }

  /** `xs` gives, for each record of `h`, the position in `es` of the item
      event it comes from; the positions increase with the records. */
  ghost predicate OriginsIn(es: seq<Event>, h: seq<Article>, xs: seq<nat>, phrase: string, cfg: Config)
  {
    && |xs| == |h|
    && (forall x :: 0 <= x < |xs| ==>
          xs[x] < |es| && es[xs[x]].ItemAt? && Origin(es[xs[x]].item, h[x], phrase, cfg))
    && (forall x, y :: 0 <= x < y < |xs| ==> xs[x] < xs[y])
  }

  /** Every position moved one event later. */
  function Shift(xs: seq<nat>): (ys: seq<nat>)
    ensures |ys| == |xs| && forall x :: 0 <= x < |xs| ==> ys[x] == xs[x] + 1
  {
    seq(|xs|, x requires 0 <= x < |xs| => xs[x] + 1)
  }

  /** Origins in the stream's tail are origins in the stream, one later. */
  lemma ShiftOrigins(es: seq<Event>, h: seq<Article>, xs: seq<nat>, phrase: string, cfg: Config)
    requires |es| > 0
    requires OriginsIn(es[1..], h, xs, phrase, cfg)
    ensures OriginsIn(es, h, Shift(xs), phrase, cfg)
  {
    var ys := Shift(xs);
    forall x | 0 <= x < |ys|
      ensures ys[x] < |es| && es[ys[x]].ItemAt? && Origin(es[ys[x]].item, h[x], phrase, cfg)
    {
      assert es[ys[x]] == es[1..][xs[x]];
    }
  }

  /** A record from the first event goes in front of the tail's records. */
  lemma ConsOrigin(es: seq<Event>, a: Article, h: seq<Article>, xs: seq<nat>, phrase: string, cfg: Config)
    requires |es| > 0 && es[0].ItemAt? && Origin(es[0].item, a, phrase, cfg)
    requires OriginsIn(es, h, xs, phrase, cfg)
    requires forall x :: 0 <= x < |xs| ==> 0 < xs[x]
    ensures OriginsIn(es, [a] + h, [0] + xs, phrase, cfg)
  {
    var ys := [0] + xs;
    assert forall x :: 0 < x < |ys| ==> ys[x] == xs[x - 1] && ([a] + h)[x] == h[x - 1];
  }

  /** Each harvested record comes from an item event, and the records follow
      the stream order of their items. */
  lemma {:induction false} HarvestOrigins(es: seq<Event>, phrase: string, cfg: Config, drawn: nat) returns (xs: seq<nat>)
    ensures var h := Harvest(es, phrase, cfg, drawn);
            && |xs| == |h|
            && (forall x :: 0 <= x < |xs| ==>
                  xs[x] < |es| && es[xs[x]].ItemAt? && Origin(es[xs[x]].item, h[x], phrase, cfg))
            && (forall x, y :: 0 <= x < y < |xs| ==> xs[x] < xs[y])
    decreases |es|
  {
    if |es| == 0 {
      xs := [];
    } else {
      HarvestStep(es, phrase, cfg, drawn);
      var kept := es[0].ItemAt? && ProcessItem(es[0].item, phrase, cfg, drawn).Keep?;
      var d' := if kept then AfterImage(drawn, es[0].item.hasImage) else drawn;
      var tail := HarvestOrigins(es[1..], phrase, cfg, d');
      var ht := Harvest(es[1..], phrase, cfg, d');
      assert OriginsIn(es[1..], ht, tail, phrase, cfg);
      ShiftOrigins(es, ht, tail, phrase, cfg);
      if kept {
        var a := ProcessItem(es[0].item, phrase, cfg, drawn).record;
        ConsOrigin(es, a, ht, Shift(tail), phrase, cfg);
        xs := [0] + Shift(tail);
        assert OriginsIn(es, [a] + ht, xs, phrase, cfg);
      } else {
        xs := Shift(tail);
        assert OriginsIn(es, ht, xs, phrase, cfg);
      }
    }
  }

  /** The stream of a site always holds a terminal event: the scrape always
      finishes within the pages it reaches. */
  lemma WalkReachesTerminal(site: Site, phrase: string, cfg: Config)
    ensures FirstTerminal(Walk(site, 0), phrase, cfg) < |Walk(site, 0)|
  {
    var es := Walk(site, 0);
    assert Terminal(es[|es| - 1], phrase, cfg);
  }

  /** A successful scrape returns the records harvested before the stream's
      first terminal event. */
  lemma SuccessIsHarvest(site: Site, phrase: string, cfg: Config)
    requires FindFrom(site, 0, phrase, cfg, [], 0).Success?
    ensures var es := Walk(site, 0);
            FindFrom(site, 0, phrase, cfg, [], 0).value
              == Harvest(es[..FirstTerminal(es, phrase, cfg)], phrase, cfg, 0)
  {
    var es := Walk(site, 0);
    var k := FirstTerminal(es, phrase, cfg);
    WalkReachesTerminal(site, phrase, cfg);
    FindFromIsRun(site, 0, phrase, cfg, [], 0);
    RunIsHarvestThenClose(es, phrase, cfg, 0, []);
    assert [] + Harvest(es[..k], phrase, cfg, 0) == Harvest(es[..k], phrase, cfg, 0);
  }

  /** Positions in the stream of a site, read back as (page, item) pairs. */
  lemma StreamPositions(site: Site, es: seq<Event>, k: nat, xs: seq<nat>) returns (origins: seq<(nat, nat)>)
    requires es == Walk(site, 0) && k <= |es|
    requires forall x :: 0 <= x < |xs| ==> xs[x] < k && es[xs[x]].ItemAt?
    requires forall x, y :: 0 <= x < y < |xs| ==> xs[x] < xs[y]
    ensures |origins| == |xs|
    ensures forall x :: 0 <= x < |xs| ==>
              origins[x].0 < |site| && origins[x].1 < |site[origins[x].0].items|
              && es[xs[x]].item == site[origins[x].0].items[origins[x].1]
    ensures forall x, y :: 0 <= x < y < |xs| ==>
              Before(origins[x].0, origins[x].1, origins[y].0, origins[y].1)
  {
    origins := seq(|xs|, x requires 0 <= x < |xs| => (es[xs[x]].page, es[xs[x]].index));
  }

  /** The records of a successful scrape, paired with the (page, item)
      position each comes from: every record comes from a real item that was
      dated, not stale and titled, and the records keep page order, then item
      order within a page. */
  lemma FindFromOrigins(site: Site, phrase: string, cfg: Config) returns (origins: seq<(nat, nat)>)
    requires FindFrom(site, 0, phrase, cfg, [], 0).Success?
    ensures var rs := FindFrom(site, 0, phrase, cfg, [], 0).value;
            && |origins| == |rs|
            && (forall x :: 0 <= x < |origins| ==>
                  origins[x].0 < |site| && origins[x].1 < |site[origins[x].0].items|
                  && Origin(site[origins[x].0].items[origins[x].1], rs[x], phrase, cfg))
            && (forall x, y :: 0 <= x < y < |origins| ==>
                  Before(origins[x].0, origins[x].1, origins[y].0, origins[y].1))
  {
    var es := Walk(site, 0);
    var k := FirstTerminal(es, phrase, cfg);
    WalkReachesTerminal(site, phrase, cfg);
    SuccessIsHarvest(site, phrase, cfg);
    var pre := es[..k];
    var rs := Harvest(pre, phrase, cfg, 0);
    var xs := HarvestOrigins(pre, phrase, cfg, 0);
    assert forall x :: 0 <= x < |xs| ==> pre[xs[x]] == es[xs[x]];
    origins := StreamPositions(site, es, k, xs);
  }

  /** `FindFromOrigins` for the site the search URL serves. */
  lemma FindOrigins(serve: string -> Site, phrase: string, section: string, cfg: Config)
    returns (origins: seq<(nat, nat)>)
    requires Find(serve, phrase, section, cfg).Success?
    ensures var site := serve(AssembleUrl(phrase));
            var rs := Find(serve, phrase, section, cfg).value;
            && |origins| == |rs|
            && (forall x :: 0 <= x < |origins| ==>
                  origins[x].0 < |site| && origins[x].1 < |site[origins[x].0].items|
                  && Origin(site[origins[x].0].items[origins[x].1], rs[x], phrase, cfg))
            && (forall x, y :: 0 <= x < y < |origins| ==>
                  Before(origins[x].0, origins[x].1, origins[y].0, origins[y].1))
  {
    origins := FindFromOrigins(serve(AssembleUrl(phrase)), phrase, cfg);
  }

  /** `find` returns exactly when the first terminal event of its stream is
      the end of the results or a stale item; it raises for a page that did
      not load or an overflowing timestamp reached before that. The records
      are all those harvested before the terminal event. */
  lemma FindOutcome(serve: string -> Site, phrase: string, section: string, cfg: Config)
    ensures var es := Walk(serve(AssembleUrl(phrase)), 0);
            var k := FirstTerminal(es, phrase, cfg);
            var r := Find(serve, phrase, section, cfg);
            && k < |es|
            && (r.Failure? <==> es[k].NotLoaded? || (es[k].ItemAt? && es[k].item.date.Unrepresentable?))
            && (es[k].NotLoaded? ==> r == Failure(ResultsNotLoaded(es[k].page)))
            && (r.Success? ==> r.value == Harvest(es[..k], phrase, cfg, 0))
  {
    var es := Walk(serve(AssembleUrl(phrase)), 0);
    var k := FirstTerminal(es, phrase, cfg);
    FindIsRun(serve, phrase, section, cfg);
    RunIsHarvestThenClose(es, phrase, cfg, 0, []);
    WalkReachesTerminal(serve(AssembleUrl(phrase)), phrase, cfg);
    assert [] + Harvest(es[..k], phrase, cfg, 0) == Harvest(es[..k], phrase, cfg, 0);
  }

  /** Prefixing the same events to streams the pass cannot tell apart keeps
      them indistinguishable. */
  lemma {:induction false} RunAppendCongruence(t: seq<Event>, w1: seq<Event>, w2: seq<Event>, phrase: string, cfg: Config, drawn: nat, news: seq<Article>)
    requires forall d: nat, n: seq<Article> :: Run(w1, phrase, cfg, d, n) == Run(w2, phrase, cfg, d, n)
    ensures Run(t + w1, phrase, cfg, drawn, news) == Run(t + w2, phrase, cfg, drawn, news)
    decreases |t|
  {
    if |t| == 0 {
      assert t + w1 == w1 && t + w2 == w2;
    } else {
      assert (t + w1)[1..] == t[1..] + w1;
      assert (t + w2)[1..] == t[1..] + w2;
      assert (t + w1)[0] == t[0] == (t + w2)[0];
      match t[0]
      case ItemAt(p, j, it) => {
        match ProcessItem(it, phrase, cfg, drawn)
        case Skip => RunAppendCongruence(t[1..], w1, w2, phrase, cfg, drawn, news);
        case Keep(a) => RunAppendCongruence(t[1..], w1, w2, phrase, cfg, AfterImage(drawn, it.hasImage), news + [a]);
        case Stop =>
        case Crash =>
      }
      case EndOfResults =>
      case NotLoaded(p) =>
    }
  }

  lemma CutTagged(i: nat, items: seq<Item>, j: nat, rest: seq<Event>)
    requires j < |items|
    ensures var t := Tagged(i, items);
            t + rest == t[..j] + [ItemAt(i, j, items[j])] + (t[j + 1..] + rest)
  {
    var t := Tagged(i, items);
    assert t == t[..j] + [t[j]] + t[j + 1..];
  }

  lemma TaggedPrefix(i: nat, a: seq<Item>, b: seq<Item>, j: nat)
    requires j <= |a| && j <= |b| && a[..j] == b[..j]
    ensures Tagged(i, a)[..j] == Tagged(i, b)[..j]
  {
    var ta, tb := Tagged(i, a), Tagged(i, b);
    forall x | 0 <= x < j
      ensures ta[x] == tb[x]
    {
      assert a[x] == a[..j][x] == b[..j][x] == b[x];
    }
  }

  /** The stream from page `i` on: its tagged items, then what follows them. */
  lemma WalkOfPage(site: Site, i: nat)
    requires i < |site| && site[i].ready && |site[i].items| > 0
    ensures Walk(site, i) == Tagged(i, site[i].items)
              + (if site[i].hasNextAnchor then Walk(site, i + 1) else [EndOfResults])
  {
  }

  /** On the page holding the stale item, the stream up to that item decides
      the pass. */
  lemma StaleOnPage(
    s1: Site, s2: Site, i: nat, j: nat,
    phrase: string, cfg: Config, drawn: nat, news: seq<Article>)
    requires i < |s1| && i < |s2|
    requires s1[i].ready && s2[i].ready
    requires j < |s1[i].items| && j < |s2[i].items|
    requires s1[i].items[..j + 1] == s2[i].items[..j + 1]
    requires s1[i].items[j].date.Parsed? && cfg.isOlder(s1[i].items[j].date.date, cfg.months)
    ensures Run(Walk(s1, i), phrase, cfg, drawn, news) == Run(Walk(s2, i), phrase, cfg, drawn, news)
  {
    var a, b := s1[i].items, s2[i].items;
    var t1, t2 := Tagged(i, a), Tagged(i, b);
    var e := ItemAt(i, j, a[j]);
    assert Terminal(e, phrase, cfg);
    assert a[j] == a[..j + 1][j] == b[..j + 1][j] == b[j];
    assert a[..j] == a[..j + 1][..j] == b[..j + 1][..j] == b[..j];
    TaggedPrefix(i, a, b, j);
    var r1 := if s1[i].hasNextAnchor then Walk(s1, i + 1) else [EndOfResults];
    var r2 := if s2[i].hasNextAnchor then Walk(s2, i + 1) else [EndOfResults];
    WalkOfPage(s1, i);
    WalkOfPage(s2, i);
    CutTagged(i, a, j, r1);
    CutTagged(i, b, j, r2);
    RunCut(t1[..j], e, t1[j + 1..] + r1, phrase, cfg, drawn, news);
    RunCut(t1[..j], e, t2[j + 1..] + r2, phrase, cfg, drawn, news);
  }

  /** Two sites that agree up to and including a stale item on page `i`
      (item `j`) give the same outcome from every earlier page `k`. */
  lemma {:induction false} StaleCongruence(
    s1: Site, s2: Site, k: nat, i: nat, j: nat,
    phrase: string, cfg: Config, drawn: nat, news: seq<Article>)
    requires k <= i < |s1| && i < |s2|
    requires s1[..i] == s2[..i]
    requires s1[i].ready && s2[i].ready
    requires j < |s1[i].items| && j < |s2[i].items|
    requires s1[i].items[..j + 1] == s2[i].items[..j + 1]
    requires s1[i].items[j].date.Parsed? && cfg.isOlder(s1[i].items[j].date.date, cfg.months)
    ensures Run(Walk(s1, k), phrase, cfg, drawn, news) == Run(Walk(s2, k), phrase, cfg, drawn, news)
    decreases i - k
  {
    if k == i {
      StaleOnPage(s1, s2, i, j, phrase, cfg, drawn, news);
    } else {
      assert s1[k] == s1[..i][k] == s2[..i][k] == s2[k];
      var page := s1[k];
      if page.ready && |page.items| > 0 && page.hasNextAnchor {
        var w1, w2 := Walk(s1, k + 1), Walk(s2, k + 1);
        forall d: nat, n: seq<Article>
          ensures Run(w1, phrase, cfg, d, n) == Run(w2, phrase, cfg, d, n)
        {
          StaleCongruence(s1, s2, k + 1, i, j, phrase, cfg, d, n);
        }
        RunAppendCongruence(Tagged(k, page.items), w1, w2, phrase, cfg, drawn, news);
      }
    }
  }

  /** The first stale item ends the whole scrape: neither the items after it
      on its page, nor that page's next-page anchor, nor any later page (not
      even whether it would load) can change the outcome. */
  lemma StaleItemEndsScrape(
    s1: Site, s2: Site, i: nat, j: nat, phrase: string, cfg: Config)
    requires i < |s1| && i < |s2|
    requires s1[..i] == s2[..i]
    requires s1[i].ready && s2[i].ready
    requires j < |s1[i].items| && j < |s2[i].items|
    requires s1[i].items[..j + 1] == s2[i].items[..j + 1]
    requires s1[i].items[j].date.Parsed? && cfg.isOlder(s1[i].items[j].date.date, cfg.months)
    ensures FindFrom(s1, 0, phrase, cfg, [], 0) == FindFrom(s2, 0, phrase, cfg, [], 0)
  {
    FindFromIsRun(s1, 0, phrase, cfg, [], 0);
    FindFromIsRun(s2, 0, phrase, cfg, [], 0);
    StaleCongruence(s1, s2, 0, i, j, phrase, cfg, 0, []);
  }

  /** Sites with the same page `k` have the same event stream from `k` when
      the anchor on it, if followed, leads to the same stream. */
  lemma WalkStep(s1: Site, s2: Site, k: nat)
    requires k < |s1| && k < |s2| && s1[k] == s2[k]
    requires s1[k].ready && |s1[k].items| > 0 && s1[k].hasNextAnchor ==> Walk(s1, k + 1) == Walk(s2, k + 1)
    ensures Walk(s1, k) == Walk(s2, k)
  {
  }

  /** The event stream of sites that agree up to a last page agrees from any
      earlier page on. */
  lemma {:induction false} LastPageEndsWalk(s1: Site, s2: Site, i: nat, k: nat)
    requires k <= i < |s1| && i < |s2|
    requires s1[..i + 1] == s2[..i + 1]
    requires s1[i].ready && (|s1[i].items| == 0 || !s1[i].hasNextAnchor)
    ensures Walk(s1, k) == Walk(s2, k)
    decreases i - k
  {
    assert s1[k] == s1[..i + 1][k] == s2[..i + 1][k] == s2[k];
    if k < i {
      LastPageEndsWalk(s1, s2, i, k + 1);
    }
    WalkStep(s1, s2, k);
  }

  /** Pagination stops at a page that is empty or has no next-page anchor:
      the pages after it are never opened, so they cannot change the outcome. */
  lemma LastPageEndsScrape(s1: Site, s2: Site, i: nat, k: nat, phrase: string, cfg: Config)
    requires k <= i < |s1| && i < |s2|
    requires s1[..i + 1] == s2[..i + 1]
    requires s1[i].ready && (|s1[i].items| == 0 || !s1[i].hasNextAnchor)
    ensures Walk(s1, k) == Walk(s2, k)
    ensures FindFrom(s1, k, phrase, cfg, [], 0) == FindFrom(s2, k, phrase, cfg, [], 0)
  {
    LastPageEndsWalk(s1, s2, i, k);
    FindFromIsRun(s1, k, phrase, cfg, [], 0);
    FindFromIsRun(s2, k, phrase, cfg, [], 0);
  }

  /** The filename an image gets from the k-th uuid. */
  function ImageName(cfg: Config, k: nat): string
  {
    PicFilename(true, cfg.imageDir, cfg.uuid(k))
  }

  /** The uuid generator never repeats itself and gives relative names, as
      `uuid4()` text does. */
  ghost predicate FreshNames(cfg: Config)
  {
    && (forall a: nat, b: nat :: cfg.uuid(a) == cfg.uuid(b) ==> a == b)
    && (forall a: nat :: Relative(cfg.uuid(a)))
  }

  lemma ImageNameInjective(cfg: Config, a: nat, b: nat)
    requires FreshNames(cfg)
    requires ImageName(cfg, a) == ImageName(cfg, b)
    ensures a == b
  {
    var u1, u2 := cfg.uuid(a) + ".png", cfg.uuid(b) + ".png";
    assert Relative(u1) && Relative(u2);
    PathJoinInjective(cfg.imageDir, u1, u2);
    assert cfg.uuid(a) == u1[..|u1| - 4] == u2[..|u2| - 4] == cfg.uuid(b);
  }

  /** Harvesting after one event: what the first event adds, then the rest. */
  lemma HarvestStep(es: seq<Event>, phrase: string, cfg: Config, drawn: nat)
    requires |es| > 0
    ensures es[0].ItemAt? && ProcessItem(es[0].item, phrase, cfg, drawn).Keep? ==>
              Harvest(es, phrase, cfg, drawn)
                == [ProcessItem(es[0].item, phrase, cfg, drawn).record]
                   + Harvest(es[1..], phrase, cfg, AfterImage(drawn, es[0].item.hasImage))
    ensures !(es[0].ItemAt? && ProcessItem(es[0].item, phrase, cfg, drawn).Keep?) ==>
              Harvest(es, phrase, cfg, drawn) == Harvest(es[1..], phrase, cfg, drawn)
  {
  }

  /** With a generator that never repeats, the image filenames of a harvest
      started with `drawn` uuids used avoid every name drawn before. */
  lemma {:induction false} HarvestNamesAvoid(es: seq<Event>, phrase: string, cfg: Config, drawn: nat)
    requires FreshNames(cfg)
    ensures var h := Harvest(es, phrase, cfg, drawn);
            forall x, m: nat :: 0 <= x < |h| && m < drawn && h[x].picFilename != "" ==>
              h[x].picFilename != ImageName(cfg, m)
    decreases |es|
  {
    if |es| > 0 {
      HarvestStep(es, phrase, cfg, drawn);
      var h := Harvest(es, phrase, cfg, drawn);
      if es[0].ItemAt? && ProcessItem(es[0].item, phrase, cfg, drawn).Keep? {
        var it := es[0].item;
        var a := ProcessItem(it, phrase, cfg, drawn).record;
        var d' := AfterImage(drawn, it.hasImage);
        HarvestNamesAvoid(es[1..], phrase, cfg, d');
        forall m: nat | m < drawn && a.picFilename != ""
          ensures a.picFilename != ImageName(cfg, m)
        {
          assert a.picFilename == ImageName(cfg, drawn);
          if a.picFilename == ImageName(cfg, m) {
            ImageNameInjective(cfg, m, drawn);
          }
        }
      } else {
        HarvestNamesAvoid(es[1..], phrase, cfg, drawn);
      }
    }
  }

  /** With a generator that never repeats, no two harvested records share an
      image filename. */
  lemma {:induction false} HarvestNamesDistinct(es: seq<Event>, phrase: string, cfg: Config, drawn: nat)
    requires FreshNames(cfg)
    ensures var h := Harvest(es, phrase, cfg, drawn);
            forall x, y :: 0 <= x < y < |h| && h[x].picFilename != "" ==> h[x].picFilename != h[y].picFilename
    decreases |es|
  {
    if |es| > 0 {
      HarvestStep(es, phrase, cfg, drawn);
      if es[0].ItemAt? && ProcessItem(es[0].item, phrase, cfg, drawn).Keep? {
        var it := es[0].item;
        var a := ProcessItem(it, phrase, cfg, drawn).record;
        var d' := AfterImage(drawn, it.hasImage);
        var t := Harvest(es[1..], phrase, cfg, d');
        HarvestNamesDistinct(es[1..], phrase, cfg, d');
        if a.picFilename != "" {
          assert a.picFilename == ImageName(cfg, drawn);
          assert drawn < d';
          HarvestNamesAvoid(es[1..], phrase, cfg, d');
        }
      } else {
        HarvestNamesDistinct(es[1..], phrase, cfg, drawn);
      }
    }
  }

  /** The uuid-based filenames of one `find` call never collide. */
  lemma FindFilenamesDistinct(serve: string -> Site, phrase: string, section: string, cfg: Config)
    requires FreshNames(cfg)
    requires Find(serve, phrase, section, cfg).Success?
    ensures var rs := Find(serve, phrase, section, cfg).value;
            forall x, y :: 0 <= x < y < |rs| && rs[x].picFilename != "" ==> rs[x].picFilename != rs[y].picFilename
  {
    var es := Walk(serve(AssembleUrl(phrase)), 0);
    var k := FirstTerminal(es, phrase, cfg);
    FindOutcome(serve, phrase, section, cfg);
    HarvestNamesDistinct(es[..k], phrase, cfg, 0);
  }
}
