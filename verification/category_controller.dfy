/**
 * The category API: list, read by slug, create, update and the guarded delete.
 */
module CategoryController {
  import opened Wrappers
  import opened Seqs
  import opened Text
  import opened Domain
  import opened CategoryModel
  import opened Storage
  import ArticleModel
  import ArticleController

  // ---------------------------------------------------------------------------------------------
  // Listing
  // ---------------------------------------------------------------------------------------------

  /** Ordered by name, ascending. */
  predicate SortedByName(xs: seq<Category>) {
    forall i, j :: 0 <= i < j < |xs| ==> StrLe(xs[i].name, xs[j].name)
  }

  /** Insert `c` into a list ordered by name, before the first entry it does not follow. */
  function InsertByName(c: Category, xs: seq<Category>): (r: seq<Category>)
    requires SortedByName(xs)
    ensures SortedByName(r)
    ensures multiset(r) == multiset(xs) + multiset{c}
    decreases |xs|
  {
    if xs == [] then [c]
    else if StrLe(c.name, xs[0].name) then
      forall j | 0 < j < |xs| ensures StrLe(c.name, xs[j].name) {
        StrLeTrans(c.name, xs[0].name, xs[j].name);
      }
      [c] + xs
    else
      StrLeTotal(c.name, xs[0].name);
      var rest := InsertByName(c, xs[1..]);
      assert xs == [xs[0]] + xs[1..];
      forall j | 0 <= j < |rest| ensures StrLe(xs[0].name, rest[j].name) {
        assert rest[j] in multiset(rest);
        if rest[j] != c {
          assert rest[j] in multiset(xs[1..]);
          var k :| 0 <= k < |xs[1..]| && xs[1..][k] == rest[j];
          assert xs[k + 1] == rest[j];
        }
      }
      [xs[0]] + rest
  }

  /** Sort a list of categories by name. */
  function SortByName(xs: seq<Category>): (r: seq<Category>)
    ensures SortedByName(r)
    ensures multiset(r) == multiset(xs)
    decreases |xs|
  {
    if xs == [] then []
    else
      assert xs == [xs[0]] + xs[1..];
      InsertByName(xs[0], SortByName(xs[1..]))
  }

  /** `getCategories`: every stored category, sorted by name ascending. */
  function ListCategories(s: Store): (r: seq<Category>)
    requires IdsIssued(s)
    ensures SortedByName(r)
    ensures forall c :: c in r <==> c in s.categories.Values
    ensures |r| == |s.categories|
  {
    var all := ValuesBelow(s.categories, s.nextId);
    var r := SortByName(all);
    assert forall c :: c in r <==> c in multiset(all);
    assert KeysBelow(s.categories, s.nextId) == s.categories.Keys;
    r
  }

  // ---------------------------------------------------------------------------------------------
  // Read, create, update, delete
  // ---------------------------------------------------------------------------------------------

  /** `getCategoryBySlug`: the category whose slug matches, or CATEGORY_NOT_FOUND. */
  function GetCategoryBySlug(s: Store, slug: string): (r: Result<Category, ErrorCode>)
    requires IdsIssued(s)
    ensures r.Ok? ==> r.value in s.categories.Values && r.value.slug == LowerTrim(slug)
    ensures r.Err? <==> forall c :: c in s.categories ==> s.categories[c].slug != LowerTrim(slug)
    ensures r.Err? ==> r.error == CategoryNotFound
  {
    match FindCategoryBySlug(s, slug)
    case None => Err(CategoryNotFound)
    case Some(c) => Ok(s.categories[c])
  }

  /** The body of `POST /api/categories`; a missing name or colour is the empty string. */
  datatype CategoryRequest = CategoryRequest(name: string, slug: Option<string>, description: Option<string>, color: string)

  /** Some stored category has slug `slug`. */
  predicate CategorySlugTaken(s: Store, slug: string) {
    exists c :: c in s.categories && s.categories[c].slug == slug
  }

  /**
   * `createCategory`: the slug is lower-cased (a missing slug makes `toLowerCase` throw); a slug
   * already in use gives CATEGORY_EXISTS; then the schema runs; the new category counts nothing.
   */
  function CreateCategory(s: Store, req: CategoryRequest): (r: Result<(Store, ArticleModel.CategoryId), ErrorCode>)
    ensures req.slug.None? ==> r == Err(InternalError)
    ensures req.slug.Some? && CategorySlugTaken(s, LowerTrim(req.slug.value)) ==> r == Err(CategoryExists)
    ensures r.Err? ==> r.error == InternalError || r.error == CategoryExists || r.error == ValidationError
    ensures r.Ok? ==> req.slug.Some? && CategoryCreated(s, req, r.value.0, r.value.1)
  {
    if req.slug.None? then Err(InternalError)
    else if CategorySlugTaken(s, LowerTrim(req.slug.value)) then Err(CategoryExists)
    else
      var slug := Lower(req.slug.value);
      match NewCategory(req.name, slug, req.description, req.color)
      case Err(_) => Err(ValidationError)
      case Ok(c) =>
        LowerTrimOfLowered(req.slug.value);
        var r := InsertCategory(s, c);
        assert CategoryCreated(s, req, r.0, r.1);
        Ok(r)
  }

  /**
   * The effect of a successful create: one new, well-formed category under the next id, with a
   * slug no other category has and a zero counter; nothing else changes.
   */
  predicate CategoryCreated(s: Store, req: CategoryRequest, s': Store, id: ArticleModel.CategoryId)
    requires req.slug.Some?
  {
    && id == s.nextId && id in s'.categories
    && s' == s.(categories := s.categories[id := s'.categories[id]], nextId := s.nextId + 1)
    && s'.categories[id].slug == LowerTrim(req.slug.value)
    && !CategorySlugTaken(s, s'.categories[id].slug)
    && s'.categories[id].articleCount == 0
    && s'.categories[id].name == Trim(req.name)
    && CategoryModel.WellFormed(s'.categories[id])
  }

  /** `save` of a new category: stored under the next id. */
  function InsertCategory(s: Store, c: Category): (r: (Store, ArticleModel.CategoryId))
    ensures r.0 == s.(categories := s.categories[r.1 := c], nextId := s.nextId + 1)
    ensures r.1 == s.nextId && r.0.categories[r.1] == c
  {
    (s.(categories := s.categories[s.nextId := c], nextId := s.nextId + 1), s.nextId)
  }

  /** Creating a category keeps the database consistent: its id is fresh, so nothing is filed under it yet. */
  lemma CreateCategoryPreservesInvariant(s: Store, req: CategoryRequest)
    requires Invariant(s)
    ensures CreateCategory(s, req).Ok? ==> Invariant(CreateCategory(s, req).value.0)
  {
    if CreateCategory(s, req).Ok? {
      var (s', id) := CreateCategory(s, req).value;
      CategoryCreatedPreservesInvariant(s, req, s', id);
    }
  }

  lemma CategoryCreatedPreservesInvariant(s: Store, req: CategoryRequest, s': Store, id: ArticleModel.CategoryId)
    requires Invariant(s) && req.slug.Some? && CategoryCreated(s, req, s', id)
    ensures Invariant(s')
  {
    assert s'.articles == s.articles;
    forall k | k in s'.categories
      ensures s'.categories[k].articleCount == |PublishedIn(s', k)|
    {
      assert PublishedIn(s', k) == PublishedIn(s, k);
      if k == id {
        assert PublishedIn(s, k) == {};
      }
    }
    forall i, j | i in s'.categories && j in s'.categories && i != j
      ensures s'.categories[i].slug != s'.categories[j].slug
    {
      if i == id {
        assert s.categories[j] == s'.categories[j];
      } else if j == id {
        assert s.categories[i] == s'.categories[i];
      }
    }
    assert IdsIssued(s');
    assert UniqueSlugs(s');
    assert DocumentsWellFormed(s');
  }

  /** The body of `PATCH /api/categories/:id`: only these three fields are read. */
  datatype CategoryPatch = CategoryPatch(name: Option<string>, description: Option<string>, color: Option<string>)

  /** Update validators on the fields the request sets; the name passes through its `trim` setter. */
  function CategoryPatchViolations(p: CategoryPatch): seq<string> {
    (if p.name.Some? then NameViolations(Trim(p.name.value)) else [])
    + DescriptionViolations(p.description)
    + (if p.color.Some? then ColorViolations(p.color.value) else [])
  }

  /**
   * `updateCategory`: CATEGORY_NOT_FOUND for an unknown id; otherwise name, description and colour
   * are written where given. The slug and the counter cannot be changed through this route.
   */
  function UpdateCategory(s: Store, id: ArticleModel.CategoryId, patch: CategoryPatch): (r: Result<Store, ErrorCode>)
    ensures id !in s.categories ==> r == Err(CategoryNotFound)
    ensures r.Err? ==> r.error == CategoryNotFound || r.error == ValidationError
    ensures r.Ok? ==>
      && id in s.categories && id in r.value.categories
      && r.value == s.(categories := s.categories[id := r.value.categories[id]])
      && r.value.categories[id].slug == s.categories[id].slug
      && r.value.categories[id].articleCount == s.categories[id].articleCount
      && r.value.categories[id].name == (if patch.name.Some? then Trim(patch.name.value) else s.categories[id].name)
      && r.value.categories[id].description == (if patch.description.Some? then patch.description else s.categories[id].description)
      && r.value.categories[id].color == patch.color.GetOr(s.categories[id].color)
  {
    if id !in s.categories then Err(CategoryNotFound)
    else if CategoryPatchViolations(patch) != [] then Err(ValidationError)
    else
      var c := s.categories[id];
      var c' := c.(name := if patch.name.Some? then Trim(patch.name.value) else c.name,
                   description := if patch.description.Some? then patch.description else c.description,
                   color := patch.color.GetOr(c.color));
      var s' := s.(categories := s.categories[id := c']);
      assert s'.categories[id] == c';
      Ok(s')
  }

  /** Updating a category keeps the database consistent. */
  lemma UpdateCategoryPreservesInvariant(s: Store, id: ArticleModel.CategoryId, patch: CategoryPatch)
    requires Invariant(s)
    ensures UpdateCategory(s, id, patch).Ok? ==> Invariant(UpdateCategory(s, id, patch).value)
  {
    var r := UpdateCategory(s, id, patch);
    if r.Ok? {
      var c := r.value.categories[id];
      assert CategoryModel.WellFormed(c);
      RewriteCategoryKeepsInvariant(s, id, c);
    }
  }

  /**
   * `deleteCategory`: CATEGORY_NOT_FOUND for an unknown id, CATEGORY_HAS_ARTICLES exactly when the
   * counter is positive, otherwise the category is removed and nothing else changes.
   */
  function DeleteCategory(s: Store, id: ArticleModel.CategoryId): (r: Result<Store, ErrorCode>)
    ensures id !in s.categories ==> r == Err(CategoryNotFound)
    ensures r == Err(CategoryHasArticles) <==> id in s.categories && s.categories[id].articleCount > 0
    ensures r.Ok? <==> id in s.categories && s.categories[id].articleCount <= 0
    ensures r.Ok? ==> r.value == s.(categories := s.categories - {id})
  {
    if id !in s.categories then Err(CategoryNotFound)
    else if s.categories[id].articleCount > 0 then Err(CategoryHasArticles)
    else Ok(s.(categories := s.categories - {id}))
  }

  /** In a consistent database, a category can be deleted only when no published article is filed under it. */
  lemma DeleteCategoryOnlyWhenNothingPublished(s: Store, id: ArticleModel.CategoryId)
    requires Invariant(s)
    ensures DeleteCategory(s, id).Ok? ==> PublishedIn(s, id) == {}
    ensures DeleteCategory(s, id).Ok? ==> Invariant(DeleteCategory(s, id).value)
  {
    if DeleteCategory(s, id).Ok? {
      var s' := DeleteCategory(s, id).value;
      forall k | k in s'.categories
        ensures s'.categories[k].articleCount == |PublishedIn(s', k)|
      {
        assert PublishedIn(s', k) == PublishedIn(s, k);
      }
    }
  }

  /**
   * What the drifting counter lets through: after a published article moves into a category that
   * had nothing published, that category's counter still reads 0, so it can be deleted while the
   * article stays filed under it.
   */
  lemma MovedArticleOutlivesCategory(s: Store, id: ArticleModel.ArticleId, caller: ArticleController.Caller, c2: ArticleModel.CategoryId)
    requires Invariant(s)
    requires id in s.articles && s.articles[id].status == Domain.Published && ArticleController.IsEditor(caller.role)
    requires s.articles[id].category in s.categories && c2 != s.articles[id].category
    requires c2 in s.categories && PublishedIn(s, c2) == {}
    ensures ArticleController.UpdateArticle(s, id, caller, ArticleController.CategoryPatch(c2)).Ok?
    ensures var s' := ArticleController.UpdateArticle(s, id, caller, ArticleController.CategoryPatch(c2)).value;
            && id in PublishedIn(s', c2)
            && DeleteCategory(s', c2).Ok?
            && c2 !in DeleteCategory(s', c2).value.categories
            && DeleteCategory(s', c2).value.articles[id].category == c2
  {
    var patch := ArticleController.CategoryPatch(c2);
    ArticleController.MovePublishedBreaksCount(s, id, caller, c2);
    var s' := ArticleController.UpdateArticle(s, id, caller, patch).value;
    ArticleController.UpdateSameStatusNoSideEffects(s, id, caller, patch);
    assert s'.categories[c2].articleCount == 0;
    assert id in s'.articles && s'.articles[id].status == Domain.Published && s'.articles[id].category == c2;
  }

  /**
   * With the corrected bookkeeping the move is counted in the new category, which then cannot be
   * deleted while the article is filed under it.
   */
  lemma CorrectedMoveBlocksDelete(s: Store, id: ArticleModel.ArticleId, caller: ArticleController.Caller, c2: ArticleModel.CategoryId)
    requires Invariant(s)
    requires id in s.articles && s.articles[id].status == Domain.Published && ArticleController.IsEditor(caller.role)
    requires s.articles[id].category in s.categories && c2 != s.articles[id].category
    requires c2 in s.categories
    ensures ArticleController.UpdateArticleCorrected(s, id, caller, ArticleController.CategoryPatch(c2)).Ok?
    ensures var s' := ArticleController.UpdateArticleCorrected(s, id, caller, ArticleController.CategoryPatch(c2)).value;
            && id in PublishedIn(s', c2)
            && DeleteCategory(s', c2) == Err(CategoryHasArticles)
  {
    var patch := ArticleController.CategoryPatch(c2);
    ArticleController.MovePublishedBreaksCount(s, id, caller, c2);
    ArticleController.UpdateCorrectedPreservesInvariant(s, id, caller, patch);
    var s' := ArticleController.UpdateArticleCorrected(s, id, caller, patch).value;
    assert ArticleController.Trusted(patch) == patch;
    assert id in s'.articles && s'.articles[id].status == Domain.Published && s'.articles[id].category == c2;
    assert id in PublishedIn(s', c2);
    assert c2 in s'.categories;
    assert |PublishedIn(s', c2)| >= 1;
  }
}
