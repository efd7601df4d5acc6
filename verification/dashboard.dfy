/**
 * What the admin panel's list screens receive for an article, and the dashboard's figures computed
 * from one fetched list.
 */
module Dashboard {
  import opened Wrappers
  import opened Seqs
  import opened Domain
  import opened ArticleModel
  import opened Storage
  import opened ArticleListing

  /** An article as the list screens read it; `viewCount` may be missing from the JSON. */
  datatype ListedArticle = ListedArticle(title: string, slug: string, status: Status, viewCount: Option<nat>)

  /** The JSON form of a stored article. */
  function Listed(a: Article): (r: ListedArticle)
    ensures r.title == a.title && r.status == a.status && r.viewCount == Some(a.viewCount)
  {
    ListedArticle(a.title, a.slug, a.status, Some(a.viewCount))
  }

  /** The `limit` the dashboard asks for. */
  const StatsRequestLimit: int := 100

  /** How many of the fetched articles the dashboard shows as recent. */
  const RecentCount: nat := 5

  datatype DashboardStats = DashboardStats(
    totalArticles: nat,
    publishedArticles: nat,
    draftArticles: nat,
    totalViews: nat,
    recentArticles: seq<ListedArticle>)

  function WithStatus(s: Status): ListedArticle -> bool {
    (a: ListedArticle) => a.status == s
  }

  /** `articles.filter(a => a.status === s).length`. */
  function CountStatus(articles: seq<ListedArticle>, s: Status): (n: nat)
    ensures n <= |articles|
    ensures n == 0 <==> forall i :: 0 <= i < |articles| ==> articles[i].status != s
    ensures n == |articles| <== forall i :: 0 <= i < |articles| ==> articles[i].status == s
  {
    var kept := Filter(WithStatus(s), articles);
    if forall i :: 0 <= i < |articles| ==> articles[i].status == s then
      FilterKeepsAll(WithStatus(s), articles);
      |kept|
    else if kept != [] then
      assert kept[0] in articles;
      |kept|
    else
      assert forall i :: 0 <= i < |articles| ==> (articles[i] in kept <==> WithStatus(s)(articles[i]));
      |kept|
  }

  /** `a.viewCount || 0`. */
  function ViewsOf(a: ListedArticle): nat {
    a.viewCount.GetOr(0)
  }

  /** `articles.reduce((sum, a) => sum + (a.viewCount || 0), 0)`. */
  function TotalViews(articles: seq<ListedArticle>): (n: nat)
    ensures forall i :: 0 <= i < |articles| ==> ViewsOf(articles[i]) <= n
    ensures n == 0 <==> forall i :: 0 <= i < |articles| ==> ViewsOf(articles[i]) == 0
    decreases |articles|
  {
    if articles == [] then 0
    else
      var rest := TotalViews(articles[1..]);
      assert forall i :: 1 <= i < |articles| ==> articles[i] == articles[1..][i - 1];
      ViewsOf(articles[0]) + rest
  }

  /** A one-article list totals that article's views; with TotalViewsAppend this makes the total the sum. */
  lemma TotalViewsOne(a: ListedArticle)
    ensures TotalViews([a]) == ViewsOf(a)
  {
  }

  /** `fetchStats`' figures for one fetched list. */
  function Stats(articles: seq<ListedArticle>): (r: DashboardStats)
    ensures r.totalArticles == |articles|
    ensures r.publishedArticles + r.draftArticles <= r.totalArticles
    ensures r.publishedArticles == CountStatus(articles, Published) && r.draftArticles == CountStatus(articles, Draft)
    ensures r.totalViews == TotalViews(articles)
    ensures |r.recentArticles| == if |articles| < RecentCount then |articles| else RecentCount
    ensures forall i :: 0 <= i < |r.recentArticles| ==> r.recentArticles[i] == articles[i]
  {
    FilterDisjointBound(WithStatus(Published), WithStatus(Draft), articles);
    DashboardStats(
      |articles|,
      CountStatus(articles, Published),
      CountStatus(articles, Draft),
      TotalViews(articles),
      Take(articles, RecentCount))
  }

  /** Counting by status adds up over two lists fetched one after the other. */
  lemma CountStatusAppend(a: seq<ListedArticle>, b: seq<ListedArticle>, s: Status)
    ensures CountStatus(a + b, s) == CountStatus(a, s) + CountStatus(b, s)
  {
    FilterAppend(WithStatus(s), a, b);
  }

  /** Total views add up over two lists. */
  lemma {:induction false} TotalViewsAppend(a: seq<ListedArticle>, b: seq<ListedArticle>)
    ensures TotalViews(a + b) == TotalViews(a) + TotalViews(b)
    decreases |a|
  {
    if a == [] {
      assert a + b == b;
    } else {
      TotalViewsAppend(a[1..], b);
      assert (a + b)[1..] == a[1..] + b;
    }
  }

  /** The dashboard's request: no status, a limit of 100. */
  const StatsQuery: ListQuery := ListQuery(None, Some(StatsRequestLimit), ArticleFilter(None, None, None), DefaultSort)

  /** The list the dashboard receives from `GET /api/articles` for a signed-in editor. */
  function DashboardFeed(s: Store): (r: seq<ListedArticle>)
    requires IdsIssued(s)
    ensures |r| <= 50
    ensures forall i :: 0 <= i < |r| ==> r[i].status == Published
  {
    var articles := ListArticles(s, StatsQuery, true).articles;
    PublicListingIsPublished(s, StatsQuery, true);
    assert |articles| <= 50;
    Map(Listed, articles)
  }

  /**
   * Fed by the server, the dashboard counts no drafts and every article as published: the list
   * request names no status, so the server returns published articles only, at most 50 of them.
   */
  lemma DashboardCountsOnlyPublished(s: Store)
    requires IdsIssued(s)
    ensures Stats(DashboardFeed(s)).draftArticles == 0
    ensures Stats(DashboardFeed(s)).publishedArticles == Stats(DashboardFeed(s)).totalArticles <= 50
  {
  }
}
