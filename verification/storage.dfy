/**
 * The two collections the controllers share, as finite maps from document id to document, with
 * the queries the controllers issue and the invariants a consistent database keeps.
 */
module Storage {
  import opened Wrappers
  import opened Text
  import opened Domain
  import opened ArticleModel
  import opened CategoryModel

  /**
   * The database: articles and categories by id. Ids come from one counter, so an id is issued at
   * most once; `clock` is the time `new Date()` reads.
   */
  datatype Store = Store(
    articles: map<ArticleId, Article>,
    categories: map<CategoryId, Category>,
    nextId: nat,
    clock: nat)

  /** An empty database at time `now`. */
  function Empty(now: nat): (s: Store)
    ensures Invariant(s)
  {
    Store(map[], map[], 0, now)
  }

  /** Time passes; nothing else changes. */
  function Tick(s: Store): (r: Store)
    ensures r.clock > s.clock && r.(clock := s.clock) == s
  {
    s.(clock := s.clock + 1)
  }

  /** The slugs in use, which `generateSlug` must avoid. */
  function Slugs(s: Store): set<string> {
    set id | id in s.articles :: s.articles[id].slug
  }

  /** The published articles filed under category `c`. */
  function PublishedIn(s: Store, c: CategoryId): set<ArticleId> {
    set id | id in s.articles && s.articles[id].status == Published && s.articles[id].category == c
  }

  /** `findOne` over ids below `n`: the first (oldest) key whose document satisfies `p`. */
  function FindBelow<V>(m: map<nat, V>, p: V -> bool, n: nat): (r: Option<nat>)
    ensures r.Some? ==> r.value < n && r.value in m && p(m[r.value])
    ensures r.Some? ==> forall k :: 0 <= k < r.value && k in m ==> !p(m[k])
    ensures r.None? ==> forall k :: 0 <= k < n && k in m ==> !p(m[k])
    decreases n
  {
    if n == 0 then None
    else match FindBelow(m, p, n - 1)
      case Some(k) => Some(k)
      case None => if n - 1 in m && p(m[n - 1]) then Some(n - 1) else None
  }

  /** The ids below `n` that hold a document. */
  function KeysBelow<V>(m: map<nat, V>, n: nat): set<nat> {
    set k | k in m && k < n
  }

  /**
   * The documents with ids below `n`, in id order: what a `find` without a sort returns, one entry
   * per stored document.
   */
  function ValuesBelow<V(==)>(m: map<nat, V>, n: nat): (r: seq<V>)
    ensures |r| <= n
    ensures |r| == |KeysBelow(m, n)|
    ensures forall i :: 0 <= i < |r| ==> r[i] in m.Values
    ensures forall k :: 0 <= k < n && k in m ==> m[k] in r
    decreases n
  {
    if n == 0 then
      assert KeysBelow(m, n) == {};
      []
    else
      var earlier := ValuesBelow(m, n - 1);
      if n - 1 in m then
        assert KeysBelow(m, n) == KeysBelow(m, n - 1) + {n - 1};
        assert n - 1 !in KeysBelow(m, n - 1);
        earlier + [m[n - 1]]
      else
        assert KeysBelow(m, n) == KeysBelow(m, n - 1);
        earlier
  }

  /** The test of an article query on `slug`. */
  function ArticleHasSlug(slug: string): Article -> bool {
    (a: Article) => a.slug == slug
  }

  /** The test of a category query on `slug`. */
  function CategoryHasSlug(slug: string): Category -> bool {
    (c: Category) => c.slug == slug
  }

  /**
   * `Article.findOne({ slug })`. The schema's `lowercase` and `trim` setters are applied to the
   * query value before it is matched.
   */
  function FindArticleBySlug(s: Store, slug: string): (r: Option<ArticleId>)
    requires IdsIssued(s)
    ensures r.Some? ==> r.value in s.articles && s.articles[r.value].slug == LowerTrim(slug)
    ensures r.None? <==> LowerTrim(slug) !in Slugs(s)
  {
    var q := LowerTrim(slug);
    var r := FindBelow(s.articles, ArticleHasSlug(q), s.nextId);
    r
  }

  /** `Category.findOne({ slug })`, the query value passed through the slug's setters. */
  function FindCategoryBySlug(s: Store, slug: string): (r: Option<CategoryId>)
    requires IdsIssued(s)
    ensures r.Some? ==> r.value in s.categories && s.categories[r.value].slug == LowerTrim(slug)
    ensures r.None? <==> forall c :: c in s.categories ==> s.categories[c].slug != LowerTrim(slug)
  {
    var q := LowerTrim(slug);
    var r := FindBelow(s.categories, CategoryHasSlug(q), s.nextId);
    assert r.None? ==> forall c :: c in s.categories ==> s.categories[c].slug != q by {
      if r.None? {
        forall c | c in s.categories ensures s.categories[c].slug != q {
          assert !CategoryHasSlug(q)(s.categories[c]);
        }
      }
    }
    r
  }

  /** `Category.findByIdAndUpdate(c, { $inc: { articleCount: delta } })`: a no-op when `c` is gone. */
  function AdjustCount(s: Store, c: CategoryId, delta: int): (r: Store)
    ensures r.articles == s.articles && r.nextId == s.nextId && r.clock == s.clock
    ensures r.categories.Keys == s.categories.Keys
    ensures forall k :: k in s.categories ==>
      r.categories[k] == s.categories[k].(articleCount := s.categories[k].articleCount + (if k == c then delta else 0))
  {
    if c in s.categories then
      s.(categories := s.categories[c := s.categories[c].(articleCount := s.categories[c].articleCount + delta)])
    else s
  }

  // ---------------------------------------------------------------------------------------------
  // Invariants
  // ---------------------------------------------------------------------------------------------

  /** Every id in use, including every article's category reference, was issued by the counter. */
  predicate IdsIssued(s: Store) {
    && (forall id :: id in s.articles ==> id < s.nextId)
    && (forall id :: id in s.categories ==> id < s.nextId)
    && (forall id :: id in s.articles ==> s.articles[id].category < s.nextId)
  }

  /** The unique indexes on `Article.slug` and `Category.slug`. */
  predicate UniqueSlugs(s: Store) {
    && (forall i, j :: i in s.articles && j in s.articles && i != j ==> s.articles[i].slug != s.articles[j].slug)
    && (forall i, j :: i in s.categories && j in s.categories && i != j ==> s.categories[i].slug != s.categories[j].slug)
  }

  /** Every stored document passed its schema's setters and validators. */
  predicate DocumentsWellFormed(s: Store) {
    && (forall id :: id in s.articles ==> ArticleModel.WellFormed(s.articles[id]))
    && (forall id :: id in s.categories ==> CategoryModel.WellFormed(s.categories[id]))
  }

  /** A published article carries its publication time. */
  predicate Stamped(s: Store) {
    forall id :: id in s.articles && s.articles[id].status == Published ==> s.articles[id].publishedAt.Some?
  }

  /** The denormalised counter is exact: each category counts its published articles. */
  predicate CountsExact(s: Store) {
    forall c :: c in s.categories ==> s.categories[c].articleCount == |PublishedIn(s, c)|
  }

  /** The invariant of a consistent database. */
  predicate Invariant(s: Store) {
    IdsIssued(s) && UniqueSlugs(s) && DocumentsWellFormed(s) && Stamped(s) && CountsExact(s)
  }

  /**
   * Rewriting one category with a well-formed document of the same slug and counter keeps the
   * database consistent.
   */
  lemma RewriteCategoryKeepsInvariant(s: Store, id: CategoryId, c: CategoryModel.Category)
    requires Invariant(s) && id in s.categories
    requires c.slug == s.categories[id].slug && c.articleCount == s.categories[id].articleCount
    requires CategoryModel.WellFormed(c)
    ensures Invariant(s.(categories := s.categories[id := c]))
  {
    var s' := s.(categories := s.categories[id := c]);
    assert IdsIssued(s') && Stamped(s');
    RewriteCategoryKeepsSlugs(s, id, c);
    RewriteCategoryKeepsDocuments(s, id, c);
    RewriteCategoryKeepsCounts(s, id, c);
  }

  lemma RewriteCategoryKeepsSlugs(s: Store, id: CategoryId, c: CategoryModel.Category)
    requires UniqueSlugs(s) && id in s.categories && c.slug == s.categories[id].slug
    ensures UniqueSlugs(s.(categories := s.categories[id := c]))
  {
    var s' := s.(categories := s.categories[id := c]);
    forall i, j | i in s'.categories && j in s'.categories && i != j
      ensures s'.categories[i].slug != s'.categories[j].slug
    {
      assert s'.categories[i].slug == s.categories[i].slug;
      assert s'.categories[j].slug == s.categories[j].slug;
    }
  }

  lemma RewriteCategoryKeepsDocuments(s: Store, id: CategoryId, c: CategoryModel.Category)
    requires DocumentsWellFormed(s) && CategoryModel.WellFormed(c)
    ensures DocumentsWellFormed(s.(categories := s.categories[id := c]))
  {
    var s' := s.(categories := s.categories[id := c]);
    forall k | k in s'.categories ensures CategoryModel.WellFormed(s'.categories[k]) {
      if k != id {
        assert s'.categories[k] == s.categories[k];
      }
    }
  }

  lemma RewriteCategoryKeepsCounts(s: Store, id: CategoryId, c: CategoryModel.Category)
    requires CountsExact(s) && id in s.categories && c.articleCount == s.categories[id].articleCount
    ensures CountsExact(s.(categories := s.categories[id := c]))
  {
    var s' := s.(categories := s.categories[id := c]);
    forall k | k in s'.categories
      ensures s'.categories[k].articleCount == |PublishedIn(s', k)|
    {
      assert PublishedIn(s', k) == PublishedIn(s, k);
    }
  }

  /** `b` is filed as a published article under `c`. */
  predicate PublishedUnder(b: Article, c: CategoryId) {
    b.status == Published && b.category == c
  }

  /** Writing `b` at id `id` changes each category's published set by at most that id. */
  lemma PublishedInAfterWrite(s: Store, id: ArticleId, b: Article, c: CategoryId)
    ensures PublishedIn(s.(articles := s.articles[id := b]), c)
      == (PublishedIn(s, c) - {id}) + (if PublishedUnder(b, c) then {id} else {})
  {
  }

  /** Removing id `id` removes at most that id from each published set. */
  lemma PublishedInAfterRemove(s: Store, id: ArticleId, c: CategoryId)
    ensures PublishedIn(s.(articles := s.articles - {id}), c) == PublishedIn(s, c) - {id}
  {
  }

  /**
   * Counting after a write of `b` over `a` at `id`: the published set of `c` grows by one when
   * `b` is published under `c` and `a` was not, shrinks by one in the opposite case, and keeps its
   * size otherwise.
   */
  lemma CountAfterWrite(s: Store, id: ArticleId, b: Article, c: CategoryId)
    requires id in s.articles
    ensures var before := |PublishedIn(s, c)|;
            var after := |PublishedIn(s.(articles := s.articles[id := b]), c)|;
            after == before + (if PublishedUnder(b, c) then 1 else 0) - (if PublishedUnder(s.articles[id], c) then 1 else 0)
  {
    PublishedInAfterWrite(s, id, b, c);
    var old_ := PublishedIn(s, c);
    if PublishedUnder(s.articles[id], c) {
      assert id in old_;
      assert |old_ - {id}| == |old_| - 1;
    } else {
      assert id !in old_;
      assert old_ - {id} == old_;
    }
  }

  /** Counting after a removal: the published set of `c` shrinks by one exactly when the article was published under `c`. */
  lemma CountAfterRemove(s: Store, id: ArticleId, c: CategoryId)
    requires id in s.articles
    ensures |PublishedIn(s.(articles := s.articles - {id}), c)|
      == |PublishedIn(s, c)| - (if PublishedUnder(s.articles[id], c) then 1 else 0)
  {
    PublishedInAfterRemove(s, id, c);
    if PublishedUnder(s.articles[id], c) {
      assert id in PublishedIn(s, c);
    } else {
      assert PublishedIn(s, c) - {id} == PublishedIn(s, c);
    }
  }

  /** Counting after inserting a fresh id. */
  lemma CountAfterInsert(s: Store, id: ArticleId, b: Article, c: CategoryId)
    requires id !in s.articles
    ensures |PublishedIn(s.(articles := s.articles[id := b]), c)|
      == |PublishedIn(s, c)| + (if PublishedUnder(b, c) then 1 else 0)
  {
    PublishedInAfterWrite(s, id, b, c);
    assert id !in PublishedIn(s, c);
    assert PublishedIn(s, c) - {id} == PublishedIn(s, c);
  }
}
