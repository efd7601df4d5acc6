/**
 * The admin article list: the status filter it sends to the server and the title search it
 * applies to what comes back.
 */
module ArticlesPage {
  import opened Wrappers
  import opened Seqs
  import opened Text
  import opened Domain
  import opened ArticleModel
  import opened Storage
  import opened ArticleListing
  import opened Dashboard

  /** The `limit` the page asks for. */
  const ListRequestLimit: int := 50

  /** The select's value that stands for every status. */
  const AllChoice: string := "all"

  /** The `status` parameter for a choice of the select: none for `all`, otherwise the choice itself. */
  function StatusParam(choice: string): (r: Option<string>)
    ensures r.None? <==> choice == AllChoice
    ensures r.Some? ==> r.value == choice
  {
    if choice == AllChoice then None else Some(choice)
  }

  /** The request the page sends for a choice of the select. */
  function ListRequest(choice: string): ListQuery {
    ListQuery(None, Some(ListRequestLimit), ArticleFilter(StatusParam(choice), None, None), DefaultSort)
  }

  /** Choosing a status lists, to a signed-in user, articles of that status only. */
  lemma ChosenStatusListed(s: Store, status: Status)
    requires IdsIssued(s)
    ensures var r := ListArticles(s, ListRequest(StatusName(status)), true).articles;
      forall i :: 0 <= i < |r| ==> r[i].status == status
  {
  }

  /**
   * The `all` choice sends no status, and the server then lists published articles only: drafts
   * and articles under review never appear under `all`.
   */
  lemma AllChoiceListsPublishedOnly(s: Store)
    requires IdsIssued(s)
    ensures var r := ListArticles(s, ListRequest(AllChoice), true).articles;
      forall i :: 0 <= i < |r| ==> r[i].status == Published
  {
  }

  /** `article.title.toLowerCase().includes(query.toLowerCase())`. */
  predicate TitleMatches(query: string, a: ListedArticle) {
    Contains(Lower(a.title), Lower(query))
  }

  function TitleMatcher(query: string): ListedArticle -> bool {
    (a: ListedArticle) => TitleMatches(query, a)
  }

  /** `filteredArticles`: the fetched articles whose title contains the query, ignoring ASCII case. */
  function FilterByTitle(articles: seq<ListedArticle>, query: string): (r: seq<ListedArticle>)
    ensures IsSubsequence(r, articles)
    ensures forall i :: 0 <= i < |articles| ==> (articles[i] in r <==> TitleMatches(query, articles[i]))
    ensures forall i :: 0 <= i < |r| ==> TitleMatches(query, r[i])
  {
    FilterIsSubsequence(TitleMatcher(query), articles);
    Filter(TitleMatcher(query), articles)
  }

  /** An empty search box shows every fetched article. */
  lemma EmptyQueryKeepsAll(articles: seq<ListedArticle>)
    ensures FilterByTitle(articles, "") == articles
  {
    forall i | 0 <= i < |articles| ensures TitleMatcher("")(articles[i]) {
      ContainsEmpty(Lower(articles[i].title));
    }
    FilterKeepsAll(TitleMatcher(""), articles);
  }

  /** The case of the query does not matter. */
  lemma QueryCaseIgnored(articles: seq<ListedArticle>, query: string)
    ensures FilterByTitle(articles, Lower(query)) == FilterByTitle(articles, query)
  {
    LowerIdentity(Lower(query));
    FilterAgree(TitleMatcher(Lower(query)), TitleMatcher(query), articles);
  }

  /** Searching the search result again with the same query changes nothing. */
  lemma SearchIdempotent(articles: seq<ListedArticle>, query: string)
    ensures FilterByTitle(FilterByTitle(articles, query), query) == FilterByTitle(articles, query)
  {
    var r := FilterByTitle(articles, query);
    FilterKeepsAll(TitleMatcher(query), r);
  }

  /** A title that contains the query verbatim is found. */
  lemma VerbatimTitleFound(articles: seq<ListedArticle>, i: nat, before: string, query: string, after: string)
    requires i < |articles| && articles[i].title == before + query + after
    ensures articles[i] in FilterByTitle(articles, query)
  {
    var t := articles[i].title;
    assert Lower(t)[|before|..|before| + |query|] == Lower(query);
    assert OccursAt(Lower(t), Lower(query), |before|);
  }
}
