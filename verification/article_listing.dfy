/**
 * `GET /api/articles`: the status filter a caller may choose, the clamped page arithmetic and the
 * slice of matching articles one page holds.
 */
module ArticleListing {
  import opened Wrappers
  import opened Seqs
  import opened Domain
  import opened ArticleModel
  import opened Storage
  import opened Sorting

  /** The filtering query parameters the model reads; the status is any string the caller sends. */
  datatype ArticleFilter = ArticleFilter(status: Option<string>, category: Option<CategoryId>, author: Option<UserId>)

  /** The `sortBy` and `order` query parameters: absent, they sort on `publishedAt`, newest first. */
  datatype ListSort = ListSort(sortBy: Option<string>, order: Option<string>)

  /** The query parameters: absent `page` and `limit` default to 1 and 10. */
  datatype ListQuery = ListQuery(page: Option<int>, limit: Option<int>, filter: ArticleFilter, sort: ListSort)

  /** The request that names neither `sortBy` nor `order`. */
  const DefaultSort := ListSort(None, None)

  /**
   * The value a document has under the sort field, as the database compares it: a publication
   * time, with an unset `publishedAt` below every time; the view count; and, for a field the
   * model does not hold, the same value for every document.
   */
  function SortField(field: string, a: Article): (k: int)
    ensures field == "publishedAt" ==> (k == -1 <==> a.publishedAt.None?)
    ensures field == "publishedAt" && a.publishedAt.Some? ==> k == a.publishedAt.value
    ensures field == "viewCount" ==> k == a.viewCount
  {
    if field == "publishedAt" then (if a.publishedAt.Some? then a.publishedAt.value else -1)
    else if field == "viewCount" then a.viewCount
    else 0
  }

  /** Only `order=asc` sorts ascending; any other value, or none, sorts descending. */
  predicate Ascending(sort: ListSort) {
    sort.order == Some("asc")
  }

  /** The rank `SortBy` orders on: the field's value, negated for a descending sort. */
  function SortRank(sort: ListSort): Article -> int {
    (a: Article) => var k := SortField(sort.sortBy.GetOr("publishedAt"), a); if Ascending(sort) then k else -k
  }

  /**
   * The status the query filters on: the caller's choice only when signed in and non-empty,
   * otherwise PUBLISHED.
   */
  function StatusFilter(signedIn: bool, status: Option<string>): (r: string)
    ensures r == StatusName(Published) || (signedIn && status == Some(r) && r != "")
    ensures signedIn && status.Some? && status.value != "" ==> r == status.value
  {
    if signedIn && status.Some? && status.value != "" then status.value else "PUBLISHED"
  }

  /** The test the filter applies to one document. */
  predicate Matches(q: ArticleFilter, signedIn: bool, a: Article) {
    && StatusName(a.status) == StatusFilter(signedIn, q.status)
    && (q.category.Some? ==> a.category == q.category.value)
    && (q.author.Some? ==> a.author == q.author.value)
  }

  function MatchesQuery(q: ArticleFilter, signedIn: bool): Article -> bool {
    (a: Article) => Matches(q, signedIn, a)
  }

  /** Every stored article the query selects, in id order: the documents before the sort. */
  function Selected(s: Store, q: ArticleFilter, signedIn: bool): (r: seq<Article>)
    requires IdsIssued(s)
    ensures forall i :: 0 <= i < |r| ==> r[i] in s.articles.Values && Matches(q, signedIn, r[i])
  {
    Filter(MatchesQuery(q, signedIn), ValuesBelow(s.articles, s.nextId))
  }

  /**
   * `find(query).sort(sortQuery)`: the selected articles, each as often as it is selected,
   * rearranged in the order the sort asks for. Documents that tie on the sort field stay in id
   * order.
   */
  function Matching(s: Store, q: ArticleFilter, sort: ListSort, signedIn: bool): (r: seq<Article>)
    requires IdsIssued(s)
    ensures multiset(r) == multiset(Selected(s, q, signedIn))
    ensures forall i :: 0 <= i < |r| ==> r[i] in s.articles.Values && Matches(q, signedIn, r[i])
  {
    var selected := Selected(s, q, signedIn);
    var r := SortBy(SortRank(sort), selected);
    assert forall i :: 0 <= i < |r| ==> r[i] in selected by {
      forall i | 0 <= i < |r| ensures r[i] in selected {
        assert r[i] in multiset(r);
      }
    }
    r
  }

  /** The matches come in the order the sort asks for. */
  lemma MatchingSorted(s: Store, q: ArticleFilter, sort: ListSort, signedIn: bool)
    requires IdsIssued(s)
    ensures SortedBy(SortRank(sort), Matching(s, q, sort, signedIn))
  {
    assert Matching(s, q, sort, signedIn) == SortBy(SortRank(sort), Selected(s, q, signedIn));
  }

  /** No stored article the query selects is missing from the matches. */
  lemma MatchingComplete(s: Store, q: ArticleFilter, sort: ListSort, signedIn: bool, id: ArticleId)
    requires IdsIssued(s) && id in s.articles && Matches(q, signedIn, s.articles[id])
    ensures s.articles[id] in Matching(s, q, sort, signedIn)
  {
    var all := ValuesBelow(s.articles, s.nextId);
    var k :| 0 <= k < |all| && all[k] == s.articles[id];
    assert MatchesQuery(q, signedIn)(all[k]);
    SortByMembers(SortRank(sort), Selected(s, q, signedIn), s.articles[id]);
  }

  /**
   * Under the default sort the newest publication comes first and the never-published articles
   * come last; with `order=asc` it is the other way round.
   */
  lemma {:induction false} DefaultSortNewestFirst(s: Store, q: ArticleFilter, sort: ListSort, signedIn: bool, i: nat, j: nat)
    requires sort.sortBy.None? || sort.sortBy == Some("publishedAt")
    requires IdsIssued(s) && i < j < |Matching(s, q, sort, signedIn)|
    ensures var m := Matching(s, q, sort, signedIn);
            if Ascending(sort) then
              m[i].publishedAt.Some? ==> m[j].publishedAt.Some? && m[i].publishedAt.value <= m[j].publishedAt.value
            else
              m[j].publishedAt.Some? ==> m[i].publishedAt.Some? && m[i].publishedAt.value >= m[j].publishedAt.value
  {
    var m := Matching(s, q, sort, signedIn);
    MatchingSorted(s, q, sort, signedIn);
    assert SortRank(sort)(m[i]) <= SortRank(sort)(m[j]);
  }

  /** `Math.max(1, page)`. */
  function PageNumber(page: Option<int>): (n: nat)
    ensures n >= 1 && n >= page.GetOr(1)
    ensures page.GetOr(1) >= 1 ==> n == page.GetOr(1)
  {
    var p := page.GetOr(1);
    if p < 1 then 1 else p
  }

  /** `Math.min(50, Math.max(1, limit))`. */
  function PageSize(limit: Option<int>): (n: nat)
    ensures 1 <= n <= 50
    ensures 1 <= limit.GetOr(10) <= 50 ==> n == limit.GetOr(10)
    ensures limit.GetOr(10) > 50 ==> n == 50
    ensures limit.GetOr(10) < 1 ==> n == 1
  {
    var l := limit.GetOr(10);
    if l < 1 then 1 else if l > 50 then 50 else l
  }

  /** The `pagination` block of the response. */
  datatype Pagination = Pagination(page: nat, limit: nat, total: nat, pages: nat, hasMore: bool)

  /**
   * The page block for `total` matches: `pages` is the fewest pages of `limit` items that hold
   * them all.
   */
  function Paginate(page: nat, limit: nat, total: nat): (p: Pagination)
    requires page >= 1 && limit >= 1
    ensures p.page == page && p.limit == limit && p.total == total
    ensures p.pages * limit >= total
    ensures p.pages == 0 || (p.pages - 1) * limit < total
    ensures p.hasMore <==> page * limit < total
  {
    var pages := (total + limit - 1) / limit;
    CeilingBounds(total, limit);
    Pagination(page, limit, total, pages, page * limit < total)
  }

  /** The two bounds that make `(total + limit - 1) / limit` the ceiling of `total / limit`. */
  lemma CeilingBounds(total: nat, limit: nat)
    requires limit >= 1
    ensures ((total + limit - 1) / limit) * limit >= total
    ensures (total + limit - 1) / limit == 0 || ((total + limit - 1) / limit - 1) * limit < total
  {
    var q := (total + limit - 1) / limit;
    var r := (total + limit - 1) % limit;
    assert q * limit + r == total + limit - 1;
    assert 0 <= r < limit;
  }

  lemma MulMonotone(a: nat, b: nat, c: nat)
    requires a <= b
    ensures a * c <= b * c
  {
  }

  /** `hasMore` holds exactly on the pages before the last one. */
  lemma HasMoreBeforeLastPage(page: nat, limit: nat, total: nat)
    requires page >= 1 && limit >= 1
    ensures Paginate(page, limit, total).hasMore <==> page < Paginate(page, limit, total).pages
  {
    var p := Paginate(page, limit, total);
    if page < p.pages {
      MulMonotone(page, p.pages - 1, limit);
    } else {
      MulMonotone(p.pages, page, limit);
    }
  }

  /** The response body of the handler: one page of matches and its page block. */
  datatype Listing = Listing(articles: seq<Article>, pagination: Pagination)

  /**
   * `.skip((page - 1) * limit).limit(limit)` with the clamped `page` and `limit` of a query, and the
   * page block for the whole list `m`: the page holds the matches from number `skip` on, as many as
   * fit, and is short only on the last page.
   */
  function PageListing<T>(m: seq<T>, page: Option<int>, limit: Option<int>): (r: (seq<T>, Pagination))
    ensures r.1.page == PageNumber(page) && r.1.limit == PageSize(limit) && r.1.total == |m|
    ensures |r.0| <= r.1.limit
    ensures var skip := Skip(r.1.page, r.1.limit);
            && (forall j :: 0 <= j < |r.0| ==> skip + j < |m| && r.0[j] == m[skip + j])
            && (skip + r.1.limit <= |m| ==> |r.0| == r.1.limit)
            && (skip + r.1.limit > |m| ==> skip + |r.0| >= |m|)
  {
    var n := PageNumber(page);
    var l := PageSize(limit);
    (PageOf(m, Skip(n, l), l), Paginate(n, l, |m|))
  }

  /**
   * `getArticles`: one page of the matches of the query, as `PageListing` cuts it; `total` counts
   * every match, and every listed article is a stored one the query selects.
   */
  function ListArticles(s: Store, q: ListQuery, signedIn: bool): (r: Listing)
    requires IdsIssued(s)
    ensures (r.articles, r.pagination) == PageListing(Matching(s, q.filter, q.sort, signedIn), q.page, q.limit)
    ensures r.pagination.total == |Matching(s, q.filter, q.sort, signedIn)|
    ensures forall i :: 0 <= i < |r.articles| ==> r.articles[i] in s.articles.Values && Matches(q.filter, signedIn, r.articles[i])
  {
    var m := Matching(s, q.filter, q.sort, signedIn);
    var page := PageListing(m, q.page, q.limit);
    assert forall j :: 0 <= j < |page.0| ==> page.0[j] in s.articles.Values && Matches(q.filter, signedIn, page.0[j]) by {
      forall j | 0 <= j < |page.0| ensures page.0[j] in s.articles.Values && Matches(q.filter, signedIn, page.0[j]) {
        assert page.0[j] == m[Skip(page.1.page, page.1.limit) + j];
      }
    }
    Listing(page.0, page.1)
  }

  /** The number of matches before page `page`. */
  function Skip(page: nat, limit: nat): nat
    requires page >= 1
  {
    (page - 1) * limit
  }

  /** `.skip(skip).limit(limit)` on a result list. */
  function PageOf<T>(m: seq<T>, skip: nat, limit: nat): (r: seq<T>)
    ensures |r| <= limit
    ensures forall j :: 0 <= j < |r| ==> skip + j < |m| && r[j] == m[skip + j]
    ensures skip + limit <= |m| ==> |r| == limit
    ensures skip + limit > |m| ==> skip + |r| >= |m|
  {
    Take(Drop(m, skip), limit)
  }

  /** Match number `i` (from 0) is item `i % limit` of page `i / limit + 1`. */
  lemma EveryMatchOnItsPage(s: Store, q: ListQuery, signedIn: bool, i: nat)
    requires IdsIssued(s) && i < |Matching(s, q.filter, q.sort, signedIn)|
    ensures var limit := PageSize(q.limit);
            var r := ListArticles(s, q.(page := Some(i / limit + 1)), signedIn);
            i % limit < |r.articles| && r.articles[i % limit] == Matching(s, q.filter, q.sort, signedIn)[i]
  {
    var m := Matching(s, q.filter, q.sort, signedIn);
    PageListingHolds(m, Some(i / PageSize(q.limit) + 1), q.limit, i);
  }

  /** Index `i` of a list is item `i % limit` of page `i / limit + 1`. */
  lemma PageListingHolds<T>(m: seq<T>, page: Option<int>, limit: Option<int>, i: nat)
    requires i < |m| && page == Some(i / PageSize(limit) + 1)
    ensures var r := PageListing(m, page, limit).0;
            i % PageSize(limit) < |r| && r[i % PageSize(limit)] == m[i]
  {
    var l := PageSize(limit);
    SkipOfIndex(i, l);
    PageOfHolds(m, Skip(i / l + 1, l), l, i % l);
  }

  /** Page `i / limit + 1` starts `i % limit` places before index `i`. */
  lemma SkipOfIndex(i: nat, limit: nat)
    requires limit >= 1
    ensures Skip(i / limit + 1, limit) + i % limit == i && i % limit < limit
  {
    assert (i / limit) * limit + i % limit == i;
  }

  /** A page holds every index from its start up to `limit` places on, as far as the list goes. */
  lemma PageOfHolds<T>(m: seq<T>, skip: nat, limit: nat, j: nat)
    requires j < limit && skip + j < |m|
    ensures j < |PageOf(m, skip, limit)| && PageOf(m, skip, limit)[j] == m[skip + j]
  {
  }

  /** Without the caller's own status choice, a listing shows only published articles. */
  lemma PublicListingIsPublished(s: Store, q: ListQuery, signedIn: bool)
    requires IdsIssued(s)
    requires !signedIn || q.filter.status.None? || q.filter.status == Some("")
    ensures forall i :: 0 <= i < |ListArticles(s, q, signedIn).articles| ==>
      ListArticles(s, q, signedIn).articles[i].status == Published
  {
    var items := ListArticles(s, q, signedIn).articles;
    forall i | 0 <= i < |items| ensures items[i].status == Published {
      StatusNameRoundTrip(items[i].status, "");
      StatusNameRoundTrip(Published, "");
    }
  }
}
