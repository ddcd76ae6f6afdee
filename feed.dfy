/**
 * The feed order: `all_articles.sort(key=lambda x: x['date_obj'], reverse=True)`.
 * Python's sort is stable, also with `reverse=True`, so the result is the
 * records ordered from the latest date to the earliest, records with the same
 * date keeping their order. `SortByDateDesc` computes that order by insertion;
 * `StableSortUnique` shows that it is the only order with both properties.
 */
module Feed {
  import opened Dates
  import opened Ewg

  /** No record is dated earlier than a record after it. */
  predicate SortedByDateDesc(s: seq<Article>) {
    forall i, j :: 0 <= i < j < |s| ==> !Before(s[i].dateObj, s[j].dateObj)
  }

  /** The records of `s` dated `d`, in their order in `s`. */
  function WithDate(s: seq<Article>, d: Date): seq<Article> {
    if s == [] then []
    else (if s[0].dateObj == d then [s[0]] else []) + WithDate(s[1..], d)
  }

  /** Places `x` before the first record of `t` dated no later than it. */
  function InsertByDate(x: Article, t: seq<Article>): (r: seq<Article>)
    requires SortedByDateDesc(t)
    ensures SortedByDateDesc(r)
    ensures multiset(r) == multiset(t) + multiset{x}
  {
    if t == [] then [x]
    else if !Before(x.dateObj, t[0].dateObj) then
      assert forall j :: 0 <= j < |t| ==> !Before(x.dateObj, t[j].dateObj) by {
        forall j | 0 <= j < |t| ensures !Before(x.dateObj, t[j].dateObj) {
          if j > 0 { assert !Before(t[0].dateObj, t[j].dateObj); }
        }
      }
      [x] + t
    else
      var rest := InsertByDate(x, t[1..]);
      assert t == [t[0]] + t[1..];
      HeadStaysFirst(x, t, rest);
      [t[0]] + rest
  }

  /** Every record of `rest` is `x` or a record of `t` after its first, so `t[0]` may precede it. */
  lemma HeadStaysFirst(x: Article, t: seq<Article>, rest: seq<Article>)
    requires SortedByDateDesc(t) && t != [] && Before(x.dateObj, t[0].dateObj)
    requires multiset(rest) == multiset(t[1..]) + multiset{x}
    ensures forall j :: 0 <= j < |rest| ==> !Before(t[0].dateObj, rest[j].dateObj)
  {
    forall j | 0 <= j < |rest| ensures !Before(t[0].dateObj, rest[j].dateObj) {
      assert rest[j] in multiset(rest);
      if rest[j] != x {
        assert rest[j] in t[1..];
        var k :| 0 <= k < |t[1..]| && t[1..][k] == rest[j];
        assert t[k + 1] == rest[j];
      }
    }
  }

  /** The stable descending sort by date, as insertion sort. */
  function SortByDateDesc(s: seq<Article>): (r: seq<Article>)
    ensures SortedByDateDesc(r)
    ensures multiset(r) == multiset(s)
  {
    if s == [] then []
    else
      assert s == [s[0]] + s[1..];
      InsertByDate(s[0], SortByDateDesc(s[1..]))
  }

  /** Inserting `x` adds it in front of the records of its own date and leaves the others as they were. */
  lemma {:induction false} InsertKeepsDateOrder(x: Article, t: seq<Article>, d: Date)
    requires SortedByDateDesc(t)
    ensures WithDate(InsertByDate(x, t), d) == (if x.dateObj == d then [x] else []) + WithDate(t, d)
  {
    if t == [] {
      WithDateCons(x, [], d);
    } else if !Before(x.dateObj, t[0].dateObj) {
      WithDateCons(x, t, d);
    } else {
      var rest := InsertByDate(x, t[1..]);
      InsertKeepsDateOrder(x, t[1..], d);
      WithDateCons(t[0], rest, d);
      WithDateCons(t[0], t[1..], d);
      assert [t[0]] + t[1..] == t;
    }
  }

  lemma WithDateCons(a: Article, u: seq<Article>, d: Date)
    ensures WithDate([a] + u, d) == (if a.dateObj == d then [a] else []) + WithDate(u, d)
  {
    assert ([a] + u)[1..] == u;
  }

  /** Stability: for every date, the records of that date keep their input order. */
  lemma {:induction false} SortKeepsDateOrder(s: seq<Article>, d: Date)
    ensures WithDate(SortByDateDesc(s), d) == WithDate(s, d)
  {
    if s != [] {
      SortKeepsDateOrder(s[1..], d);
      InsertKeepsDateOrder(s[0], SortByDateDesc(s[1..]), d);
    }
  }

  /** A nonempty sequence holds a record of its first record's date. */
  lemma HeadIsDated(s: seq<Article>)
    ensures s != [] ==> WithDate(s, s[0].dateObj) != []
  {
  }

  lemma {:induction false} WithDateMember(s: seq<Article>, d: Date)
    requires WithDate(s, d) != []
    ensures exists i :: 0 <= i < |s| && s[i].dateObj == d
  {
    if s[0].dateObj != d {
      WithDateMember(s[1..], d);
      var i :| 0 <= i < |s[1..]| && s[1..][i].dateObj == d;
      assert s[i + 1].dateObj == d;
    }
  }

  /**
   * A stable descending order is unique: two date-sorted sequences that agree,
   * date by date, on which records carry that date and in what order, are equal.
   * So `SortByDateDesc` is what any stable sort with `reverse=True` produces.
   */
  lemma {:induction false} StableSortUnique(r1: seq<Article>, r2: seq<Article>)
    requires SortedByDateDesc(r1) && SortedByDateDesc(r2)
    requires forall d :: WithDate(r1, d) == WithDate(r2, d)
    ensures r1 == r2
  {
    if r1 == [] || r2 == [] {
      HeadIsDated(r1);
      HeadIsDated(r2);
      if r1 != [] || r2 != [] {
        assert false;
      }
    } else {
      var d1, d2 := r1[0].dateObj, r2[0].dateObj;
      assert WithDate(r1, d2) != [];
      WithDateMember(r1, d2);
      assert !Before(d1, d2);
      assert WithDate(r2, d1) != [];
      WithDateMember(r2, d1);
      assert !Before(d2, d1);
      assert d1 == d2;
      assert r1[0] == WithDate(r1, d1)[0] == WithDate(r2, d1)[0] == r2[0];
      forall d ensures WithDate(r1[1..], d) == WithDate(r2[1..], d) {
        if d == d1 {
          assert WithDate(r1[1..], d) == WithDate(r1, d)[1..];
          assert WithDate(r2[1..], d) == WithDate(r2, d)[1..];
        } else {
          assert WithDate(r1[1..], d) == WithDate(r1, d);
          assert WithDate(r2[1..], d) == WithDate(r2, d);
        }
      }
      StableSortUnique(r1[1..], r2[1..]);
      assert r1 == [r1[0]] + r1[1..];
      assert r2 == [r2[0]] + r2[1..];
    }
  }

  /** Any order of `s` that is date-sorted and stable is `SortByDateDesc(s)`. */
  lemma IsTheStableSort(s: seq<Article>, r: seq<Article>)
    requires SortedByDateDesc(r)
    requires forall d :: WithDate(r, d) == WithDate(s, d)
    ensures r == SortByDateDesc(s)
  {
    forall d ensures WithDate(r, d) == WithDate(SortByDateDesc(s), d) {
      SortKeepsDateOrder(s, d);
    }
    StableSortUnique(r, SortByDateDesc(s));
  }
}
