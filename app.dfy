/**
 * The per-session state of the aggregator page: the current feed and the saved
 * articles, both empty when a session starts. Pressing Search rebuilds the
 * feed; pressing an article's star toggles it in the saved list.
 */
module App {
  import opened Dates
  import opened Ewg
  import opened Feed
  import opened Favourites

  /** The feed after a Search press, with the source checkbox `showEwg`. */
  function SearchFeed(showEwg: bool, page: Page, now: DateTime): seq<Article>
    requires ValidDateTime(now)
  {
    SortByDateDesc(if showEwg then Scraped(page, now) else [])
  }

  /**
   * With the checkbox off, or on a 403 answer, the feed is empty. Otherwise it
   * holds exactly the scraped records, latest first, records of one date in
   * scrape order, each dated inside the window and credited to the source.
   */
  lemma SearchFeedFacts(showEwg: bool, page: Page, now: DateTime)
    requires ValidDateTime(now)
    ensures !showEwg ==> SearchFeed(showEwg, page, now) == []
    ensures page.status == Forbidden ==> SearchFeed(showEwg, page, now) == []
    ensures showEwg ==> multiset(SearchFeed(showEwg, page, now)) == multiset(Scraped(page, now))
    ensures SortedByDateDesc(SearchFeed(showEwg, page, now))
    ensures showEwg ==> forall d :: WithDate(SearchFeed(showEwg, page, now), d) == WithDate(Scraped(page, now), d)
    ensures forall a :: a in SearchFeed(showEwg, page, now) ==>
      ValidDate(a.dateObj) && InWindow(a.dateObj, WindowStart(now)) && a.source == SourceName
  {
    var scraped: seq<Article> := if showEwg then Scraped(page, now) else [];
    var feed := SearchFeed(showEwg, page, now);
    assert multiset(feed) == multiset(scraped);
    ScrapedFacts(page, now);
    forall a | a in feed
      ensures ValidDate(a.dateObj) && InWindow(a.dateObj, WindowStart(now)) && a.source == SourceName
    {
      assert a in multiset(feed);
      assert a in multiset(scraped);
    }
    forall d ensures WithDate(feed, d) == WithDate(scraped, d) {
      SortKeepsDateOrder(scraped, d);
    }
  }

  class SessionState {
    var allArticles: seq<Article>
    var savedArticles: seq<Article>

    constructor ()
      ensures allArticles == [] && savedArticles == []
    {
      allArticles := [];
      savedArticles := [];
    }

    /** Reset the feed, add the scraped records if the source is selected, sort latest first. */
    method Search(showEwg: bool, page: Page, now: DateTime)
      requires ValidDateTime(now)
      modifies this
      ensures allArticles == SearchFeed(showEwg, page, now)
      ensures savedArticles == old(savedArticles)
    {
      allArticles := [];
      if showEwg {
        var scraped := ScrapeEwg(page, now);
        allArticles := allArticles + scraped;
      }
      assert allArticles == if showEwg then Scraped(page, now) else [];
      allArticles := SortByDateDesc(allArticles);
    }

    /** The star button of `article`: drop every entry with its link if it is saved, else append it. */
    method ToggleSaved(article: Article)
      modifies this
      ensures savedArticles == Toggled(old(savedArticles), article)
      ensures IsSaved(savedArticles, article.link) <==> !IsSaved(old(savedArticles), article.link)
      ensures allArticles == old(allArticles)
    {
      ToggleFlips(savedArticles, article);
      var isSaved := IsSaved(savedArticles, article.link);
      if isSaved {
        savedArticles := WithoutLink(savedArticles, article.link);
      } else {
        savedArticles := savedArticles + [article];
      }
    }
  }
}
