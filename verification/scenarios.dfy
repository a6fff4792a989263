/** Single-item facts and small concrete sites that pin the scraper's
    behaviour down on examples. */
module Scenarios {
  import opened Wrappers
  import opened Text
  import opened News
  import opened Latimes

  /** An item that yields a record unless its date says otherwise. */
  function Dated(year: int, title: string): Item
  {
    Item(Parsed(Date(year, 1, 1)), Some(title), Some("about " + title), false)
  }

  /** Staleness by year: anything before 2024 is too old. */
  function Cfg(): Config
  {
    Config("imgs", 1, (d: Date, m: int) => d.year < 2024, (k: nat) => "u")
  }

  lemma CatOnceIn(s: string)
    requires s in {" and cat", "and cat", "nd cat", "d cat", " cat", "cat"}
    ensures Count(s, "cat") == 1
    decreases |s|
  {
    if s == "cat" {
      assert s[..3] == "cat" && s[3..] == "";
    } else {
      assert s[0] != 'c';
      assert s[..3][0] != "cat"[0];
      CatOnceIn(s[1..]);
    }
  }

  /** "cat" appears twice in "cat and cat" with no description. */
  lemma CatCountedTwice()
    ensures PhraseCount("cat and cat", None, "cat") == 2
  {
    var s := "cat and cat";
    assert s[..3] == "cat" && s[3..] == " and cat";
    CatOnceIn(" and cat");
    assert Count(s, "cat") == 2;
    assert Count("", "cat") == 0;
  }

  /** A phrase holding the '.' that joins title and description can match
      across the joint: "end." is counted once for the title "the end" and no
      description, though neither text contains it. */
  lemma PhraseSpansJoint()
    ensures Count("the end", "end.") == 0
    ensures PhraseCount("the end", None, "end.") == 1
  {
    assert Count("end", "end.") == 0;
    assert Count(" end", "end.") == 0 by { assert " end"[1..] == "end"; assert " end"[..4] == " end"; }
    assert Count("e end", "end.") == 0 by { assert "e end"[1..] == " end"; assert "e end"[..4] == "e en"; }
    assert Count("he end", "end.") == 0 by { assert "he end"[1..] == "e end"; assert "he end"[..4] == "he e"; }
    assert Count("the end", "end.") == 0 by { assert "the end"[1..] == "he end"; assert "the end"[..4] == "the "; }
    assert Count("", "end.") == 0;
    assert Count("end.", "end.") == 1 by { assert "end."[4..] == ""; }
    assert Count(" end.", "end.") == 1 by { assert " end."[1..] == "end."; assert " end."[..4] == " end"; }
    assert Count("e end.", "end.") == 1 by { assert "e end."[1..] == " end."; assert "e end."[..4] == "e en"; }
    assert Count("he end.", "end.") == 1 by { assert "he end."[1..] == "e end."; assert "he end."[..4] == "he e"; }
    assert Count("the end.", "end.") == 1 by { assert "the end."[1..] == "he end."; assert "the end."[..4] == "the "; }
    assert "the end" + "." + None.GetOr("") == "the end.";
  }

  /** The date is looked at before the title: a stale item without a title
      still ends the scrape instead of being skipped. */
  lemma StaleUntitledItemStops(d: Date, description: Option<string>, hasImage: bool, phrase: string, cfg: Config, drawn: nat)
    requires cfg.isOlder(d, cfg.months)
    ensures ProcessItem(Item(Parsed(d), None, description, hasImage), phrase, cfg, drawn) == Stop
  {
  }

  /** An item without a description is kept, with no description. */
  lemma UndescribedItemKept(d: Date, title: string, hasImage: bool, phrase: string, cfg: Config, drawn: nat)
    requires !cfg.isOlder(d, cfg.months)
    ensures var s := ProcessItem(Item(Parsed(d), Some(title), None, hasImage), phrase, cfg, drawn);
            s.Keep? && s.record.description == None && s.record.title == title
  {
  }

  /** An item whose date is missing or unparsable is passed over and the scan
      goes on with the next item of the same page, with nothing else changed. */
  lemma UnreadableDateSkipped(items: seq<Item>, j: nat, phrase: string, cfg: Config, drawn: nat, news: seq<Article>)
    requires j < |items| && (items[j].date.Missing? || items[j].date.Unparsable?)
    ensures ScanItems(items, j, phrase, cfg, drawn, news) == ScanItems(items, j + 1, phrase, cfg, drawn, news)
  {
  }

  /** Two pages: three current items and a next-page anchor, then two stale
      items. */
  function TwoPages(): Site
  {
    [ Page(true, [Dated(2025, "a"), Dated(2024, "b"), Dated(2024, "c")], true),
      Page(true, [Dated(2023, "d"), Dated(2022, "e")], true) ]
  }

  /** All three items of the first page come back, in order; the second page
      is opened, its first item is stale, and the scrape ends there. */
  lemma TwoPagesScenario()
    ensures var r := FindFrom(TwoPages(), 0, "a", Cfg(), [], 0);
            r.Success? && |r.value| == 3
            && r.value[0].title == "a" && r.value[1].title == "b" && r.value[2].title == "c"
  {
    var site := TwoPages();
    var cfg := Cfg();
    var p0 := ScanItems(site[0].items, 0, "a", cfg, 0, []);
    assert p0.end == Exhausted && |p0.news| == 3;
    assert ScanItems(site[1].items, 0, "a", cfg, p0.drawn, p0.news) == PageScan(p0.news, p0.drawn, StaleReached);
  }

  /** The same site with a second page that never loads: the scrape raises,
      because the first page's items are all current and its anchor is followed. */
  lemma UnloadedSecondPageRaises()
    ensures FindFrom([TwoPages()[0], Page(false, [], false)], 0, "a", Cfg(), [], 0)
              == Failure(ResultsNotLoaded(1))
  {
    var site := [TwoPages()[0], Page(false, [], false)];
    var p0 := ScanItems(site[0].items, 0, "a", Cfg(), 0, []);
    assert p0.end == Exhausted;
  }
}
