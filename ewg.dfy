/**
 * The Environmental Working Group scraper (`scrape_ewg`). The fetched listing
 * page is given as its HTTP status and its `<div class="wrapper">` blocks, each
 * already reduced to what the scraper looks up in it: the text of its first
 * `<time>`, its `<a>` elements in document order and its first `<img>`.
 */
module Ewg {
  import opened Wrappers
  import opened Text
  import opened Dates

  datatype Anchor = Anchor(href: Option<string>, text: string)

  /** An `<img>`; its `src` attribute is always present (see `ImageUrl`). */
  datatype Image = Image(src: string)

  datatype Block = Block(time: Option<string>, anchors: seq<Anchor>, img: Option<Image>)

  datatype Page = Page(status: int, blocks: seq<Block>)

  /** The dictionary `scrape_ewg` appends for one news release. */
  datatype Article = Article(
    title: string,
    topic: string,
    date: string,
    dateObj: Date,
    link: string,
    source: string,
    image: Option<string>)

  const BaseUrl := "https://www.ewg.org"
  const SourceName := "Environmental Working Group"
  const TitleNotFound := "Title not found"
  const LinkNotFound := "Link not found"
  const TopicNotFound := "Topic not found"
  const NewsReleasePath := "/news-release/"
  const AreasFocusPath := "/areas-focus/"
  const TopicSeparator := ", "
  /** The one status the scraper treats as a failed fetch. */
  const Forbidden := 403
  /** `timedelta(weeks=2)`. */
  const WindowDays := 14
  const MicrosPerDay := 86_400_000_000

  // ---- The run-anchored recency window ----

  /** A `datetime`: a date and the time of day in microseconds. */
  datatype DateTime = DateTime(date: Date, micros: nat)

  predicate ValidDateTime(t: DateTime) {
    ValidDate(t.date) && t.micros < MicrosPerDay
  }

  /** A point in time as a day ordinal and a time of day; compares like `datetime`. */
  datatype Instant = Instant(day: int, micros: int)

  predicate AtOrAfter(a: Instant, b: Instant) {
    a.day > b.day || (a.day == b.day && a.micros >= b.micros)
  }

  /** `DATE_RANGE_START`: the start of the script run minus two weeks, keeping its time of day. */
  function WindowStart(now: DateTime): Instant
    requires ValidDateTime(now)
  {
    Instant(Ordinal(now.date) - WindowDays, now.micros)
  }

  /** `article_date >= DATE_RANGE_START` for a parsed date, which is at midnight. */
  predicate InWindow(d: Date, start: Instant)
    requires ValidDate(d)
  {
    AtOrAfter(Instant(Ordinal(d), 0), start)
  }

  /** Dates less than fourteen days back are kept, and so is every later date: there is no upper bound. */
  lemma WindowKeepsRecent(d: Date, now: DateTime)
    requires ValidDate(d) && ValidDateTime(now)
    requires Ordinal(d) > Ordinal(now.date) - WindowDays
    ensures InWindow(d, WindowStart(now))
  {
  }

  /** The date exactly fourteen days back is kept only when the script run started at midnight. */
  lemma WindowBoundaryDay(d: Date, now: DateTime)
    requires ValidDate(d) && ValidDateTime(now)
    requires Ordinal(d) == Ordinal(now.date) - WindowDays
    ensures InWindow(d, WindowStart(now)) <==> now.micros == 0
  {
  }

  /** Anything older than fourteen days back is dropped. */
  lemma WindowDropsOlder(d: Date, now: DateTime)
    requires ValidDate(d) && ValidDateTime(now)
    requires Ordinal(d) < Ordinal(now.date) - WindowDays
    ensures !InWindow(d, WindowStart(now))
  {
  }

  /** The window is closed upwards in calendar order: a later date than a kept one is kept. */
  lemma WindowUpwardClosed(d1: Date, d2: Date, start: Instant)
    requires ValidDate(d1) && ValidDate(d2) && InWindow(d1, start) && Before(d1, d2)
    ensures InWindow(d2, start)
  {
    OrdinalMonotone(d1, d2);
  }

  // ---- Field extraction for one block ----

  /** The anchors `a.find("a", href=re.compile("/news-release/"))` can match. */
  predicate IsNewsRelease(a: Anchor) {
    a.href.Some? && Contains(a.href.value, NewsReleasePath)
  }

  /** `link.get("href", "")`. */
  function HrefOrEmpty(a: Anchor): string {
    match a.href
    case None => ""
    case Some(h) => h
  }

  /** The anchors the topic list keeps. */
  predicate IsTopicLink(a: Anchor) {
    Contains(HrefOrEmpty(a), AreasFocusPath)
  }

  /** `find` for the news-release anchor: the position of the first match in document order. */
  function FirstNewsRelease(anchors: seq<Anchor>): (r: Option<nat>)
    ensures r.Some? ==> (r.value < |anchors| && IsNewsRelease(anchors[r.value])
      && forall k :: 0 <= k < r.value ==> !IsNewsRelease(anchors[k]))
    ensures r.None? ==> forall k :: 0 <= k < |anchors| ==> !IsNewsRelease(anchors[k])
  {
    if anchors == [] then None
    else if IsNewsRelease(anchors[0]) then Some(0)
    else match FirstNewsRelease(anchors[1..])
      case None => None
      case Some(k) => Some(k + 1)
  }

  /** The title: the stripped text of the news-release anchor, else the sentinel. */
  function Title(anchors: seq<Anchor>): string {
    match FirstNewsRelease(anchors)
    case None => TitleNotFound
    case Some(i) => Strip(anchors[i].text)
  }

  /** The link: the site address followed by the news-release anchor's href, else the sentinel. */
  function Link(anchors: seq<Anchor>): string {
    match FirstNewsRelease(anchors)
    case None => LinkNotFound
    case Some(i) => BaseUrl + anchors[i].href.value
  }

  /**
   * Title and link come from the first anchor in document order whose href
   * contains `/news-release/`; when there is none, both are sentinels.
   */
  lemma TitleAndLink(anchors: seq<Anchor>)
    ensures (forall k :: 0 <= k < |anchors| ==> !IsNewsRelease(anchors[k])) ==>
      Title(anchors) == TitleNotFound && Link(anchors) == LinkNotFound
    ensures forall i ::
      (0 <= i < |anchors| && IsNewsRelease(anchors[i]) && forall k :: 0 <= k < i ==> !IsNewsRelease(anchors[k])) ==>
      Title(anchors) == Strip(anchors[i].text) && Link(anchors) == BaseUrl + anchors[i].href.value
  {
    forall i | 0 <= i < |anchors| && IsNewsRelease(anchors[i]) && forall k :: 0 <= k < i ==> !IsNewsRelease(anchors[k])
      ensures FirstNewsRelease(anchors) == Some(i)
    {
    }
  }

  /** `[link.text.strip() for link in all_links if "/areas-focus/" in link.get("href", "")]`. */
  function TopicLabels(anchors: seq<Anchor>): seq<string> {
    if anchors == [] then [] else TopicLabel(anchors[0]) + TopicLabels(anchors[1..])
  }

  /** The label one anchor contributes to the topic list. */
  function TopicLabel(a: Anchor): seq<string> {
    if IsTopicLink(a) then [Strip(a.text)] else []
  }

  /** One label per topic anchor: the list is empty exactly when no anchor is a topic link. */
  lemma {:induction false} TopicLabelsEmpty(anchors: seq<Anchor>)
    ensures |TopicLabels(anchors)| <= |anchors|
    ensures TopicLabels(anchors) == [] <==> forall k :: 0 <= k < |anchors| ==> !IsTopicLink(anchors[k])
  {
    if anchors != [] {
      TopicLabelsEmpty(anchors[1..]);
      assert forall k :: 1 <= k < |anchors| ==> anchors[k] == anchors[1..][k - 1];
    }
  }

  /** The topic labels follow document order: the labels of two runs of anchors are concatenated. */
  lemma {:induction false} TopicLabelsAppend(a: seq<Anchor>, b: seq<Anchor>)
    ensures TopicLabels(a + b) == TopicLabels(a) + TopicLabels(b)
  {
    if a == [] {
      assert a + b == b;
    } else {
      assert (a + b)[0] == a[0];
      assert (a + b)[1..] == a[1..] + b;
      TopicLabelsAppend(a[1..], b);
    }
  }

  /** `", ".join(topics) if topics else "Topic not found"`. */
  function TopicText(anchors: seq<Anchor>): string {
    var topics := TopicLabels(anchors);
    if topics == [] then TopicNotFound else Join(TopicSeparator, topics)
  }

  /**
   * The topic is the sentinel when no anchor is a topic link, and otherwise the
   * labels of the topic links, in document order, joined by `", "`.
   */
  lemma TopicTextCases(anchors: seq<Anchor>)
    ensures (forall k :: 0 <= k < |anchors| ==> !IsTopicLink(anchors[k])) ==> TopicText(anchors) == TopicNotFound
    ensures (exists k :: 0 <= k < |anchors| && IsTopicLink(anchors[k])) ==>
      TopicText(anchors) == Join(TopicSeparator, TopicLabels(anchors))
  {
    TopicLabelsEmpty(anchors);
  }

  /** The image address: a site-relative `src` gets the site prefix, any other is kept verbatim. */
  function ImageUrl(img: Option<Image>): (r: Option<string>)
    ensures r.None? <==> img.None?
    ensures r.Some? && StartsWith(img.value.src, "/") ==> r.value == BaseUrl + img.value.src
    ensures r.Some? && !StartsWith(img.value.src, "/") ==> r.value == img.value.src
  {
    match img
    case None => None
    case Some(image) =>
      if StartsWith(image.src, "/") then Some(BaseUrl + image.src) else Some(image.src)
  }

  /** The release date a block carries, if its `<time>` text parses. */
  function BlockDate(b: Block): Option<Date> {
    match b.time
    case None => None
    case Some(t) => ParseLongDate(Strip(t))
  }

  /**
   * What one loop iteration of `scrape_ewg` appends for block `b`: a record
   * exactly when the block's date is present, parses and lies in the window.
   */
  function BlockRecord(b: Block, start: Instant): Option<Article>
  {
    match BlockDate(b)
    case None => None
    case Some(d) =>
      if InWindow(d, start)
      then Some(Article(Title(b.anchors), TopicText(b.anchors), FormatShort(d), d, Link(b.anchors), SourceName, ImageUrl(b.img)))
      else None
  }

  /**
   * A block yields a record exactly when its date is present, parses and is
   * recent; the record carries that date, its display form, the fixed source
   * name and the block's title, link, topic and image.
   */
  lemma BlockRecordContract(b: Block, start: Instant)
    ensures BlockRecord(b, start).Some? <==> BlockDate(b).Some? && InWindow(BlockDate(b).value, start)
    ensures BlockRecord(b, start).Some? ==> (
      var a := BlockRecord(b, start).value;
      && b.time.Some? && BlockDate(b) == Some(a.dateObj) && ValidDate(a.dateObj)
      && ParseShortDate(a.date) == Some(a.dateObj) && a.source == SourceName
      && a.title == Title(b.anchors) && a.link == Link(b.anchors)
      && a.topic == TopicText(b.anchors) && a.image == ImageUrl(b.img))
  {
    if BlockRecord(b, start).Some? {
      FormatShortRoundTrip(BlockRecord(b, start).value.dateObj);
    }
  }

  function OptionToSeq<T>(o: Option<T>): seq<T> {
    match o
    case None => []
    case Some(x) => [x]
  }

  /** The values of the `Some` entries of `xs`, in order. */
  function Somes<T>(xs: seq<Option<T>>): seq<T> {
    if xs == [] then [] else Somes(xs[..|xs| - 1]) + OptionToSeq(xs[|xs| - 1])
  }

  lemma {:induction false} SomesAppend<T>(xs: seq<Option<T>>, ys: seq<Option<T>>)
    ensures Somes(xs + ys) == Somes(xs) + Somes(ys)
    decreases |ys|
  {
    if ys == [] {
      assert xs + ys == xs;
    } else {
      var ys' := ys[..|ys| - 1];
      assert (xs + ys)[..|xs + ys| - 1] == xs + ys';
      assert (xs + ys)[|xs + ys| - 1] == ys[|ys| - 1];
      SomesAppend(xs, ys');
    }
  }

  lemma {:induction false} SomesLength<T>(xs: seq<Option<T>>)
    ensures |Somes(xs)| <= |xs|
  {
    if xs != [] {
      SomesLength(xs[..|xs| - 1]);
    }
  }

  lemma {:induction false} SomesFrom<T>(xs: seq<Option<T>>, k: nat)
    requires k < |Somes(xs)|
    ensures exists j :: 0 <= j < |xs| && xs[j] == Some(Somes(xs)[k])
  {
    var init := xs[..|xs| - 1];
    if k < |Somes(init)| {
      SomesFrom(init, k);
      var j :| 0 <= j < |init| && init[j] == Some(Somes(init)[k]);
      assert xs[j] == init[j];
    } else {
      assert xs[|xs| - 1] == Some(Somes(xs)[k]);
    }
  }

  /** `f` applied to each element of `xs`. */
  function Map<A, B>(xs: seq<A>, f: A -> B): (r: seq<B>)
    ensures |r| == |xs|
  {
    seq(|xs|, i requires 0 <= i < |xs| => f(xs[i]))
  }

  lemma MapAppend<A, B>(xs: seq<A>, ys: seq<A>, f: A -> B)
    ensures Map(xs + ys, f) == Map(xs, f) + Map(ys, f)
  {
  }

  /** What each block yields, in block order. */
  function Records(blocks: seq<Block>, start: Instant): (r: seq<Option<Article>>)
    ensures |r| == |blocks|
  {
    Map(blocks, b => BlockRecord(b, start))
  }

  /** The records of a run of blocks, block by block. */
  function Emitted(blocks: seq<Block>, start: Instant): seq<Article>
  {
    Somes(Records(blocks, start))
  }

  /** `scrape_ewg()`'s result for a fetched page and the script run's start time. */
  function Scraped(page: Page, now: DateTime): seq<Article>
    requires ValidDateTime(now)
  {
    if page.status == Forbidden then [] else Emitted(page.blocks, WindowStart(now))
  }

  /**
   * Blocks are handled one after another: the records of two runs of blocks are
   * the records of each, in order, so a dropped block does not stop later ones.
   */
  lemma EmittedAppend(a: seq<Block>, b: seq<Block>, start: Instant)
    ensures Emitted(a + b, start) == Emitted(a, start) + Emitted(b, start)
  {
    MapAppend(a, b, b => BlockRecord(b, start));
    SomesAppend(Records(a, start), Records(b, start));
  }

  /** Each block yields at most one record. */
  lemma EmittedLength(blocks: seq<Block>, start: Instant)
    ensures |Emitted(blocks, start)| <= |blocks|
  {
    SomesLength(Records(blocks, start));
  }

  /** Every record comes from some block's `BlockRecord`. */
  lemma EmittedFromBlocks(blocks: seq<Block>, start: Instant, k: nat)
    requires k < |Emitted(blocks, start)|
    ensures exists j :: 0 <= j < |blocks| && BlockRecord(blocks[j], start) == Some(Emitted(blocks, start)[k])
  {
    SomesFrom(Records(blocks, start), k);
  }

  /** Every emitted record is dated inside the window, displays its own date and names the source. */
  lemma EmittedInWindow(blocks: seq<Block>, start: Instant)
    ensures forall a :: a in Emitted(blocks, start) ==>
      ValidDate(a.dateObj) && InWindow(a.dateObj, start) && a.source == SourceName
      && ParseShortDate(a.date) == Some(a.dateObj)
  {
    forall a | a in Emitted(blocks, start)
      ensures ValidDate(a.dateObj) && InWindow(a.dateObj, start) && a.source == SourceName
      && ParseShortDate(a.date) == Some(a.dateObj)
    {
      var k :| 0 <= k < |Emitted(blocks, start)| && Emitted(blocks, start)[k] == a;
      EmittedFromBlocks(blocks, start, k);
      var j :| 0 <= j < |blocks| && BlockRecord(blocks[j], start) == Some(a);
      BlockRecordContract(blocks[j], start);
    }
  }

  lemma TakeSnoc<T>(s: seq<T>, i: nat)
    requires i < |s|
    ensures s[..i + 1] == s[..i] + [s[i]]
  {
  }

  lemma EmittedSingle(b: Block, start: Instant)
    ensures Emitted([b], start) == OptionToSeq(BlockRecord(b, start))
  {
    var rs := Records([b], start);
    assert rs == [BlockRecord(b, start)];
    assert rs[..0] == [];
    assert Somes(rs) == Somes(rs[..0]) + OptionToSeq(rs[0]);
  }

  lemma EmittedSnoc(blocks: seq<Block>, b: Block, start: Instant)
    ensures Emitted(blocks + [b], start) == Emitted(blocks, start) + OptionToSeq(BlockRecord(b, start))
  {
    EmittedAppend(blocks, [b], start);
    EmittedSingle(b, start);
  }

  /** The scrape's result: bounded by the number of blocks, all recent, all from this source. */
  lemma ScrapedFacts(page: Page, now: DateTime)
    requires ValidDateTime(now)
    ensures |Scraped(page, now)| <= |page.blocks|
    ensures forall a :: a in Scraped(page, now) ==>
      ValidDate(a.dateObj) && InWindow(a.dateObj, WindowStart(now)) && a.source == SourceName
  {
    EmittedLength(page.blocks, WindowStart(now));
    EmittedInWindow(page.blocks, WindowStart(now));
  }

  /** A block without a `<time>`, or whose time text does not parse, contributes nothing. */
  lemma DroppedBlock(a: seq<Block>, b: Block, c: seq<Block>, start: Instant)
    requires BlockDate(b).None?
    ensures Emitted(a + [b] + c, start) == Emitted(a + c, start)
  {
    assert BlockRecord(b, start) == None;
    var ea, ec := Emitted(a, start), Emitted(c, start);
    EmittedSnoc(a, b, start);
    assert Emitted(a + [b], start) == ea;
    EmittedAppend(a + [b], c, start);
    EmittedAppend(a, c, start);
  }

  /**
   * A block with a valid, recent date but no news-release anchor still yields a
   * record, with the title and link sentinels.
   */
  lemma SentinelsStillEmitted(b: Block, start: Instant)
    requires BlockDate(b).Some? && InWindow(BlockDate(b).value, start)
    requires forall k :: 0 <= k < |b.anchors| ==> !IsNewsRelease(b.anchors[k])
    ensures BlockRecord(b, start).Some?
    ensures BlockRecord(b, start).value.title == TitleNotFound
    ensures BlockRecord(b, start).value.link == LinkNotFound
  {
  }

  /**
   * The body of the loop in `scrape_ewg` for one block: the image, title, link
   * and topic are extracted first; a missing `<time>` or a date that does not
   * parse skips the block, and a date before the window start drops it.
   */
  method ExtractBlock(b: Block, start: Instant) returns (record: Option<Article>)
    ensures record == BlockRecord(b, start)
    ensures record.Some? ==> b.time.Some? && InWindow(record.value.dateObj, start)
  {
    var imageUrl := ImageUrl(b.img);
    var title := Title(b.anchors);
    var link := Link(b.anchors);
    var topicText := TopicText(b.anchors);
    record := None;
    if b.time.Some? {
      var parsed := ParseLongDate(Strip(b.time.value));
      if parsed.None? {
        return;
      }
      var articleDate := parsed.value;
      if InWindow(articleDate, start) {
        var formattedDate := FormatShort(articleDate);
        record := Some(Article(title, topicText, formattedDate, articleDate, link, SourceName, imageUrl));
      }
    }
  }

  /**
   * The loop of `scrape_ewg`: a 403 response gives no records; otherwise every
   * block is examined in order and the record of each block that yields one is
   * appended.
   */
  method ScrapeEwg(page: Page, now: DateTime) returns (articles: seq<Article>)
    requires ValidDateTime(now)
    ensures articles == Scraped(page, now)
    ensures page.status == Forbidden ==> articles == []
    ensures |articles| <= |page.blocks|
    ensures forall a :: a in articles ==>
      ValidDate(a.dateObj) && InWindow(a.dateObj, WindowStart(now)) && a.source == SourceName
  {
    var start := WindowStart(now);
    articles := [];
    if page.status != Forbidden {
      var i := 0;
      while i < |page.blocks|
        invariant 0 <= i <= |page.blocks|
        invariant articles == Emitted(page.blocks[..i], start)
      {
        var b := page.blocks[i];
        var record := ExtractBlock(b, start);
        TakeSnoc(page.blocks, i);
        EmittedSnoc(page.blocks[..i], b, start);
        if record.Some? {
          articles := articles + [record.value];
        }
        i := i + 1;
      }
      assert page.blocks[..i] == page.blocks;
    }
    ScrapedFacts(page, now);
  }
}
