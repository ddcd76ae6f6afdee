/**
 * The saved-articles list, keyed by link. An article counts as saved when some
 * saved entry has the same link; the star button removes every entry with that
 * link from a saved article and appends an unsaved one.
 */
module Favourites {
  import opened Ewg

  /** `any(saved['link'] == article['link'] for saved in saved_articles)`. */
  function IsSaved(saved: seq<Article>, link: string): (b: bool)
    ensures b <==> exists i :: 0 <= i < |saved| && saved[i].link == link
  {
    if saved == [] then false
    else if saved[0].link == link then true
    else
      var b := IsSaved(saved[1..], link);
      assert b ==> exists i :: 0 <= i < |saved| && saved[i].link == link by {
        if b {
          var k :| 0 <= k < |saved[1..]| && saved[1..][k].link == link;
          assert saved[k + 1].link == link;
        }
      }
      assert (exists i :: 0 <= i < |saved| && saved[i].link == link) ==> b by {
        if exists i :: 0 <= i < |saved| && saved[i].link == link {
          var k :| 0 <= k < |saved| && saved[k].link == link;
          assert saved[1..][k - 1].link == link;
        }
      }
      b
  }

  /** The entries whose link differs from `link`, in their order. */
  function WithoutLink(saved: seq<Article>, link: string): seq<Article> {
    if saved == [] then []
    else (if saved[0].link == link then [] else [saved[0]]) + WithoutLink(saved[1..], link)
  }

  /** One step of the filter. */
  lemma WithoutLinkCons(a: Article, s: seq<Article>, link: string)
    ensures WithoutLink([a] + s, link) == (if a.link == link then [] else [a]) + WithoutLink(s, link)
  {
    assert ([a] + s)[1..] == s;
  }

  /** The filter keeps no entry with the link. */
  lemma {:induction false} WithoutLinkRemoves(saved: seq<Article>, link: string)
    ensures !IsSaved(WithoutLink(saved, link), link)
  {
    if saved != [] {
      WithoutLinkRemoves(saved[1..], link);
      var rest := WithoutLink(saved[1..], link);
      if saved[0].link != link {
        assert ([saved[0]] + rest)[1..] == rest;
      }
    }
  }

  /** Every entry with another link is kept as often as it occurs; none with the link is. */
  lemma {:induction false} WithoutLinkCounts(saved: seq<Article>, link: string, a: Article)
    ensures multiset(WithoutLink(saved, link))[a] == if a.link == link then 0 else multiset(saved)[a]
  {
    if saved != [] {
      WithoutLinkCounts(saved[1..], link, a);
      assert saved == [saved[0]] + saved[1..];
    }
  }

  /** The filter shortens the list exactly when some entry has the link. */
  lemma {:induction false} WithoutLinkShorter(saved: seq<Article>, link: string)
    ensures |WithoutLink(saved, link)| <= |saved|
    ensures |WithoutLink(saved, link)| < |saved| <==> IsSaved(saved, link)
  {
    if saved != [] {
      WithoutLinkShorter(saved[1..], link);
    }
  }

  /** Filtering distributes over concatenation, so the kept entries stay in order. */
  lemma {:induction false} WithoutLinkAppend(s: seq<Article>, t: seq<Article>, link: string)
    ensures WithoutLink(s + t, link) == WithoutLink(s, link) + WithoutLink(t, link)
  {
    if s == [] {
      assert s + t == t;
    } else {
      var h, s1 := s[0], s[1..];
      var kept: seq<Article> := if h.link == link then [] else [h];
      assert s == [h] + s1;
      assert s + t == [h] + (s1 + t);
      calc {
        WithoutLink(s + t, link);
        { WithoutLinkCons(h, s1 + t, link); }
        kept + WithoutLink(s1 + t, link);
        { WithoutLinkAppend(s1, t, link); }
        kept + (WithoutLink(s1, link) + WithoutLink(t, link));
        (kept + WithoutLink(s1, link)) + WithoutLink(t, link);
        { WithoutLinkCons(h, s1, link); }
        WithoutLink(s, link) + WithoutLink(t, link);
      }
    }
  }

  /** Nothing is removed when no entry has the link. */
  lemma {:induction false} WithoutAbsentLink(s: seq<Article>, link: string)
    requires !IsSaved(s, link)
    ensures WithoutLink(s, link) == s
  {
    if s != [] {
      assert s[0].link != link;
      WithoutAbsentLink(s[1..], link);
      assert s == [s[0]] + s[1..];
    }
  }

  /** The list after pressing the star of `article`. */
  function Toggled(saved: seq<Article>, article: Article): seq<Article> {
    if IsSaved(saved, article.link) then WithoutLink(saved, article.link)
    else saved + [article]
  }

  /**
   * Toggling an unsaved article appends it; toggling a saved one removes every
   * entry with that link and keeps every other entry as often as it occurs
   * (their order is kept too, by WithoutLinkAppend).
   */
  lemma ToggleCases(saved: seq<Article>, article: Article)
    ensures !IsSaved(saved, article.link) ==> Toggled(saved, article) == saved + [article]
    ensures IsSaved(saved, article.link) ==>
      && !IsSaved(Toggled(saved, article), article.link)
      && |Toggled(saved, article)| < |saved|
      && (forall a: Article :: a.link != article.link ==>
            multiset(Toggled(saved, article))[a] == multiset(saved)[a])
  {
    WithoutLinkRemoves(saved, article.link);
    WithoutLinkShorter(saved, article.link);
    forall a: Article | a.link != article.link
      ensures multiset(Toggled(saved, article))[a] == multiset(saved)[a]
    {
      WithoutLinkCounts(saved, article.link, a);
    }
  }

  /** The button flips the saved state of the link it is pressed for. */
  lemma ToggleFlips(saved: seq<Article>, article: Article)
    ensures IsSaved(Toggled(saved, article), article.link) <==> !IsSaved(saved, article.link)
  {
    WithoutLinkRemoves(saved, article.link);
    var s' := saved + [article];
    assert s'[|saved|].link == article.link;
  }

  /** Other links keep their saved state. */
  lemma ToggleKeepsOtherLinks(saved: seq<Article>, article: Article, link: string)
    requires link != article.link
    ensures IsSaved(Toggled(saved, article), link) <==> IsSaved(saved, link)
  {
    if IsSaved(saved, article.link) {
      var r := WithoutLink(saved, article.link);
      if IsSaved(saved, link) {
        var i :| 0 <= i < |saved| && saved[i].link == link;
        WithoutLinkCounts(saved, article.link, saved[i]);
        assert saved[i] in multiset(saved);
        assert saved[i] in multiset(r);
        var j :| 0 <= j < |r| && r[j] == saved[i];
      }
      if IsSaved(r, link) {
        var j :| 0 <= j < |r| && r[j].link == link;
        WithoutLinkCounts(saved, article.link, r[j]);
        assert r[j] in multiset(r);
        assert r[j] in multiset(saved);
        var i :| 0 <= i < |saved| && saved[i] == r[j];
      }
    } else {
      var s' := saved + [article];
      if IsSaved(s', link) {
        var i :| 0 <= i < |s'| && s'[i].link == link;
        assert i < |saved| && saved[i].link == link;
      }
      if IsSaved(saved, link) {
        var i :| 0 <= i < |saved| && saved[i].link == link;
        assert s'[i].link == link;
      }
    }
  }

  /** Pressing the star of an unsaved article twice restores the list. */
  lemma ToggleTwiceRestores(saved: seq<Article>, article: Article)
    requires !IsSaved(saved, article.link)
    ensures Toggled(Toggled(saved, article), article) == saved
  {
    var s' := saved + [article];
    assert s'[|saved|].link == article.link;
    WithoutLinkAppend(saved, [article], article.link);
    WithoutAbsentLink(saved, article.link);
    assert WithoutLink([article], article.link) == [] by {
      assert [article][1..] == [];
    }
  }
}
