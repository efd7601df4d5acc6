/**
 * The write side of the article API: create, update, delete and the single-article read, each a
 * function from a database to a new database or an error code. A handler that fails changes
 * nothing.
 */
module ArticleController {
  import opened Wrappers
  import opened Seqs
  import opened Text
  import opened Domain
  import opened ArticleModel
  import CategoryModel
  import opened Storage

  /** The authenticated user a protected handler sees (`req.user`). */
  datatype Caller = Caller(userId: UserId, role: Role)

  /** `['EDITOR', 'ADMIN'].includes(role)`. */
  predicate IsEditor(role: Role) {
    role == Editor || role == Admin
  }

  /** The ownership test of update and delete: the caller wrote the article or is an editor. */
  predicate MayModify(a: Article, caller: Caller) {
    a.author == caller.userId || IsEditor(caller.role)
  }

  // ---------------------------------------------------------------------------------------------
  // Create
  // ---------------------------------------------------------------------------------------------

  /**
   * The body of `POST /api/articles`. A missing `content` or `featuredImage` is the empty string,
   * which the `required` validators treat alike; absent optional fields are `None`.
   */
  datatype CreateRequest = CreateRequest(
    title: Option<string>,
    content: string,
    summary: Option<seq<string>>,
    tags: Option<seq<string>>,
    seo: Option<Seo>,
    category: Option<CategoryId>,
    featuredImage: string,
    pdfUrl: Option<string>,
    status: Option<Status>)

  /**
   * The document `createArticle` hands to `Article.create`, after the schema's setters and the
   * pre-save hook: a fresh slug, the caller as author, DRAFT unless a status is given, stamped now
   * exactly when created as PUBLISHED, no views.
   */
  function NewDocument(s: Store, caller: Caller, req: CreateRequest, title: string, c: CategoryId): (doc: Article)
    ensures doc.slug !in Slugs(s)
    ensures SettersApplied(doc)
    ensures doc.title == Trim(title)
    ensures doc.author == caller.userId && doc.category == c
    ensures doc.status == req.status.GetOr(Domain.Draft)
    ensures doc.publishedAt.Some? <==> doc.status == Published
    ensures doc.viewCount == 0
  {
    var status := req.status.GetOr(Domain.Draft);
    var slug := GenerateSlug(title, Slugs(s));
    SlugCharsSurviveSetters(slug);
    var draft := Article(
      title, slug, req.content, req.summary.GetOr([]), req.tags.GetOr([]),
      req.seo.GetOr(EmptySeo), status, caller.userId, c, req.featuredImage, req.pdfUrl,
      if status == Published then Some(s.clock) else None, 0);
    ArticleModel.ApplySettersFixedPoint(draft);
    var setDoc := ArticleModel.ApplySetters(draft);
    assert setDoc.slug == slug && setDoc.status == status && setDoc.publishedAt == draft.publishedAt;
    var doc := PreSave(setDoc, true, s.clock);
    assert doc == setDoc;
    doc
  }

  /**
   * `createArticle`: the category must exist; the slug is generated from the title; the author is
   * the caller; the status defaults to DRAFT; an article created as PUBLISHED is stamped now and
   * counted in its category. A missing title makes `generateSlug` throw, which the error handler
   * reports as INTERNAL_ERROR.
   */
  function CreateArticle(s: Store, caller: Caller, req: CreateRequest): (r: Result<(Store, ArticleId), ErrorCode>)
    ensures req.category.None? || req.category.value !in s.categories ==> r == Err(CategoryNotFound)
    ensures req.category.Some? && req.category.value in s.categories && req.title.None? ==> r == Err(InternalError)
    ensures r.Err? ==> r.error == CategoryNotFound || r.error == InternalError || r.error == ValidationError
    ensures r.Ok? ==> r.value.1 == s.nextId && r.value.0.nextId == s.nextId + 1 && r.value.0.clock == s.clock
    ensures r.Ok? ==> Created(s, caller, req, r.value.0, r.value.1)
  {
    if req.category.None? || req.category.value !in s.categories then Err(CategoryNotFound)
    else if req.title.None? then Err(InternalError)
    else
      var c := req.category.value;
      var doc := NewDocument(s, caller, req, req.title.value, c);
      if ArticleModel.Violations(doc) != [] then Err(ValidationError)
      else
        var id := s.nextId;
        var inserted := s.(articles := s.articles[id := doc], nextId := s.nextId + 1);
        var s' := if doc.status == Published then AdjustCount(inserted, c, 1) else inserted;
        assert s'.articles[id] == doc;
        Ok((s', id))
  }

  /**
   * What a successful create leaves behind: one new, well-formed article at `id` with a slug no
   * other article had, written by the caller, with the requested (or default) status, stamped
   * exactly when PUBLISHED, and counted in its category exactly when PUBLISHED.
   */
  predicate Created(s: Store, caller: Caller, req: CreateRequest, s': Store, id: ArticleId) {
    && id in s'.articles
    && var a := s'.articles[id];
    && s'.articles == s.articles[id := a]
    && a.author == caller.userId
    && req.category == Some(a.category) && a.category in s.categories
    && a.status == req.status.GetOr(Domain.Draft)
    && a.slug !in Slugs(s)
    && (a.publishedAt.Some? <==> a.status == Published)
    && a.viewCount == 0
    && ArticleModel.WellFormed(a)
    && s'.categories.Keys == s.categories.Keys
    && (forall k :: k in s.categories ==>
          s'.categories[k] == s.categories[k].(articleCount :=
            s.categories[k].articleCount + (if PublishedUnder(a, k) then 1 else 0)))
  }

  /** A generated slug is already in set form: the `lowercase` and `trim` setters leave it alone. */
  lemma SlugCharsSurviveSetters(slug: string)
    requires All(slug, IsSlugChar)
    ensures LowerTrim(slug) == slug
  {
    assert forall i :: 0 <= i < |slug| ==> !IsAsciiUpper(slug[i]) && !IsSpace(slug[i]);
    LowerIdentity(slug);
    assert Trimmed(slug);
  }

  /** Creating an article keeps the database consistent. */
  lemma CreatePreservesInvariant(s: Store, caller: Caller, req: CreateRequest)
    requires Invariant(s)
    ensures CreateArticle(s, caller, req).Ok? ==> Invariant(CreateArticle(s, caller, req).value.0)
  {
    var r := CreateArticle(s, caller, req);
    if r.Ok? {
      CreatedPreservesInvariant(s, caller, req, r.value.0, r.value.1);
    }
  }

  /** The state a successful create describes is consistent whenever the state before it was. */
  lemma CreatedPreservesInvariant(s: Store, caller: Caller, req: CreateRequest, s': Store, id: ArticleId)
    requires Invariant(s)
    requires Created(s, caller, req, s', id)
    requires id == s.nextId && s'.nextId == s.nextId + 1
    ensures Invariant(s')
  {
    CreatedCounts(s, caller, req, s', id);
    CreatedSlugs(s, caller, req, s', id);
    CreatedDocuments(s, caller, req, s', id);
  }

  lemma CreatedDocuments(s: Store, caller: Caller, req: CreateRequest, s': Store, id: ArticleId)
    requires IdsIssued(s) && DocumentsWellFormed(s) && Stamped(s)
    requires Created(s, caller, req, s', id)
    requires id == s.nextId && s'.nextId == s.nextId + 1
    ensures IdsIssued(s') && DocumentsWellFormed(s') && Stamped(s')
  {
    forall k | k in s'.articles
      ensures ArticleModel.WellFormed(s'.articles[k]) && s'.articles[k].category < s'.nextId
      ensures s'.articles[k].status == Published ==> s'.articles[k].publishedAt.Some?
    {
      if k != id {
        assert s'.articles[k] == s.articles[k];
      }
    }
    forall k | k in s'.categories
      ensures CategoryModel.WellFormed(s'.categories[k])
    {
      assert s'.categories[k].(articleCount := 0) == s.categories[k].(articleCount := 0);
    }
  }

  lemma CreatedCounts(s: Store, caller: Caller, req: CreateRequest, s': Store, id: ArticleId)
    requires CountsExact(s) && id !in s.articles
    requires Created(s, caller, req, s', id)
    ensures CountsExact(s')
  {
    var a := s'.articles[id];
    forall k | k in s'.categories
      ensures s'.categories[k].articleCount == |PublishedIn(s', k)|
    {
      CountAfterInsert(s, id, a, k);
      assert PublishedIn(s', k) == PublishedIn(s.(articles := s.articles[id := a]), k);
    }
  }

  lemma CreatedSlugs(s: Store, caller: Caller, req: CreateRequest, s': Store, id: ArticleId)
    requires UniqueSlugs(s) && id !in s.articles
    requires Created(s, caller, req, s', id)
    ensures UniqueSlugs(s')
  {
    forall i, j | i in s'.articles && j in s'.articles && i != j
      ensures s'.articles[i].slug != s'.articles[j].slug
    {
      if i == id {
        assert s'.articles[j].slug in Slugs(s);
      } else if j == id {
        assert s'.articles[i].slug in Slugs(s);
      }
    }
    forall i, j | i in s'.categories && j in s'.categories && i != j
      ensures s'.categories[i].slug != s'.categories[j].slug
    {
      assert s'.categories[i].slug == s.categories[i].slug;
      assert s'.categories[j].slug == s.categories[j].slug;
    }
  }

  // ---------------------------------------------------------------------------------------------
  // Update
  // ---------------------------------------------------------------------------------------------

  /**
   * The body of `PATCH /api/articles/:id`: every field optional; an absent one is left alone. The
   * body is written as sent, so besides the content fields it may set the author, the view count
   * and the publication time (`Some(None)` is a `null` that clears it).
   */
  datatype ArticlePatch = ArticlePatch(
    title: Option<string>,
    slug: Option<string>,
    content: Option<string>,
    summary: Option<seq<string>>,
    tags: Option<seq<string>>,
    seo: Option<Seo>,
    status: Option<Status>,
    category: Option<CategoryId>,
    featuredImage: Option<string>,
    pdfUrl: Option<string>,
    author: Option<UserId>,
    viewCount: Option<nat>,
    publishedAt: Option<Option<nat>>)

  /** A request that only sets the status, as the editor's status menu sends. */
  function StatusPatch(st: Status): ArticlePatch {
    ArticlePatch(None, None, None, None, None, None, Some(st), None, None, None, None, None, None)
  }

  /** A request that only moves the article to another category. */
  function CategoryPatch(c: CategoryId): ArticlePatch {
    ArticlePatch(None, None, None, None, None, None, None, Some(c), None, None, None, None, None)
  }

  /** The schema setters, applied to the paths an update sets. */
  function PatchSetters(p: ArticlePatch): ArticlePatch {
    p.(title := if p.title.Some? then Some(Trim(p.title.value)) else None,
       slug := if p.slug.Some? then Some(LowerTrim(p.slug.value)) else None,
       summary := if p.summary.Some? then Some(Map(Trim, p.summary.value)) else None,
       tags := if p.tags.Some? then Some(Map(LowerTrim, p.tags.value)) else None,
       seo := if p.seo.Some? then Some(p.seo.value.(keywords := Map(Trim, p.seo.value.keywords))) else None)
  }

  /** Update validators run only on the paths the update sets. */
  function PatchViolations(p: ArticlePatch): seq<string> {
    (if p.title.Some? then TitleViolations(p.title.value) else [])
    + (if p.slug.Some? then SlugViolations(p.slug.value) else [])
    + (if p.content.Some? then ContentViolations(p.content.value) else [])
    + (if p.seo.Some? then SeoViolations(p.seo.value) else [])
    + (if p.featuredImage.Some? then ImageViolations(p.featuredImage.value) else [])
  }

  /** `$set` of the present paths. */
  function ApplyPatch(a: Article, p: ArticlePatch): Article {
    a.(title := p.title.GetOr(a.title),
       slug := p.slug.GetOr(a.slug),
       content := p.content.GetOr(a.content),
       summary := p.summary.GetOr(a.summary),
       tags := p.tags.GetOr(a.tags),
       seo := p.seo.GetOr(a.seo),
       status := p.status.GetOr(a.status),
       category := p.category.GetOr(a.category),
       featuredImage := p.featuredImage.GetOr(a.featuredImage),
       pdfUrl := if p.pdfUrl.Some? then p.pdfUrl else a.pdfUrl,
       author := p.author.GetOr(a.author),
       viewCount := p.viewCount.GetOr(a.viewCount))
  }

  /** Every value the update sets is already in the form the setters produce. */
  predicate PatchSetForm(u: ArticlePatch) {
    && (u.title.Some? ==> Trimmed(u.title.value))
    && (u.slug.Some? ==> Trimmed(u.slug.value) && forall i :: 0 <= i < |u.slug.value| ==> !IsAsciiUpper(u.slug.value[i]))
    && (u.summary.Some? ==> forall i :: 0 <= i < |u.summary.value| ==> Trimmed(u.summary.value[i]))
    && (u.tags.Some? ==> forall i :: 0 <= i < |u.tags.value| ==> u.tags.value[i] == LowerTrim(u.tags.value[i]))
    && (u.seo.Some? ==> forall i :: 0 <= i < |u.seo.value.keywords| ==> Trimmed(u.seo.value.keywords[i]))
  }

  /** The setters put every value an update sets into set form. */
  lemma PatchSettersSetForm(p: ArticlePatch)
    ensures PatchSetForm(PatchSetters(p))
  {
    if p.tags.Some? {
      var t := PatchSetters(p).tags.value;
      forall i | 0 <= i < |t| ensures t[i] == LowerTrim(t[i]) {
        LowerTrimIdempotent(p.tags.value[i]);
      }
    }
  }

  /** Setting validated, set-form values over a well-formed article gives a well-formed article. */
  lemma PatchKeepsWellFormed(a: Article, u: ArticlePatch, publishedAt: Option<nat>)
    requires ArticleModel.WellFormed(a)
    requires PatchSetForm(u) && PatchViolations(u) == []
    ensures ArticleModel.WellFormed(ApplyPatch(a, u).(publishedAt := publishedAt))
  {
  }

  /** The request sends a non-empty title that differs from the stored one, so the slug is regenerated. */
  predicate TitleChanged(a: Article, title: Option<string>) {
    title.Some? && title.value != "" && title.value != a.title
  }

  /** The request moves an article that was never published to PUBLISHED: the first branch of the status handling. */
  predicate FirstPublish(a: Article, status: Option<Status>) {
    status == Some(Published) && a.status != Published && a.publishedAt.None?
  }

  /**
   * The status branch of `updateArticle`, taken only when the request carries a status other
   * than the current one: publishing an article with no publication time stamps it now, over any
   * `publishedAt` the request sent, and counts it in its stored category; leaving PUBLISHED
   * uncounts it there. The result is the database after the counter update and the `publishedAt`
   * the article will have: otherwise the one the request sent, if any, else the stored one.
   */
  function StatusEffects(s: Store, a: Article, status: Option<Status>, sent: Option<Option<nat>>): (r: (Store, Option<nat>))
    ensures r.0.articles == s.articles && r.0.nextId == s.nextId && r.0.clock == s.clock
    ensures FirstPublish(a, status) ==> r.1 == Some(s.clock)
    ensures !FirstPublish(a, status) ==> r.1 == sent.GetOr(a.publishedAt)
    ensures r.0.categories.Keys == s.categories.Keys
    ensures forall k :: k in s.categories ==>
      r.0.categories[k] == s.categories[k].(articleCount := s.categories[k].articleCount
        + (if FirstPublish(a, status) && k == a.category then 1 else 0)
        - (if status.Some? && status.value != Published && a.status == Published && k == a.category then 1 else 0))
  {
    if status.Some? && status.value != a.status then
      if status.value == Published && a.publishedAt.None? then (AdjustCount(s, a.category, 1), Some(s.clock))
      else if a.status == Published && status.value != Published then (AdjustCount(s, a.category, -1), sent.GetOr(a.publishedAt))
      else (s, sent.GetOr(a.publishedAt))
    else (s, sent.GetOr(a.publishedAt))
  }

  /** Another article already uses `slug` (the unique index on `slug`). */
  predicate SlugUsedByOther(s: Store, id: ArticleId, slug: string) {
    exists k :: k in s.articles && k != id && s.articles[k].slug == slug
  }

  /**
   * The update document `findByIdAndUpdate` receives, after the schema's setters: the request's
   * fields, with a freshly generated slug when the title changed.
   */
  function UpdateDocument(s: Store, a: Article, patch: ArticlePatch): (u: ArticlePatch)
    ensures u.status == patch.status && u.category == patch.category
    ensures u.content == patch.content && u.featuredImage == patch.featuredImage && u.pdfUrl == patch.pdfUrl
    ensures patch.title.None? <==> u.title.None?
    ensures TitleChanged(a, patch.title) ==> u.slug.Some? && u.slug.value !in Slugs(s)
    ensures !TitleChanged(a, patch.title) ==> u.slug == (if patch.slug.Some? then Some(LowerTrim(patch.slug.value)) else None)
    ensures patch.summary.None? ==> u.summary.None?
    ensures patch.tags.None? ==> u.tags.None?
    ensures patch.seo.None? ==> u.seo.None?
    ensures PatchSetForm(u)
  {
    if TitleChanged(a, patch.title) then
      var slug := GenerateSlug(patch.title.value, Slugs(s));
      SlugCharsSurviveSetters(slug);
      PatchSettersSetForm(patch.(slug := Some(slug)));
      PatchSetters(patch.(slug := Some(slug)))
    else
      PatchSettersSetForm(patch);
      PatchSetters(patch)
  }

  /**
   * `updateArticle`: not found, then the ownership test, then the sub-editor rule, then the status
   * side effects, the slug regeneration, the validators of the set paths and the unique index.
   * There is no check of the status against the workflow graph.
   */
  function UpdateArticle(s: Store, id: ArticleId, caller: Caller, patch: ArticlePatch): (r: Result<Store, ErrorCode>)
    ensures id !in s.articles ==> r == Err(ArticleNotFound)
    ensures id in s.articles && !MayModify(s.articles[id], caller) ==> r == Err(Forbidden)
    ensures id in s.articles && caller.role == SubEditor && patch.status.Some? && patch.status.value != SubEditorReview
      ==> r == Err(Forbidden)
    ensures r.Err? ==> r.error == ArticleNotFound || r.error == Forbidden || r.error == ValidationError || r.error == DuplicateError
    ensures r.Ok? ==> id in s.articles && MayModify(s.articles[id], caller)
    ensures r.Ok? ==> r.value.nextId == s.nextId && r.value.clock == s.clock
    ensures r.Ok? ==> id in r.value.articles && r.value.articles == s.articles[id := r.value.articles[id]]
    ensures r.Ok? ==> Updated(s.articles[id], patch, r.value.articles[id])
  {
    if id !in s.articles then Err(ArticleNotFound)
    else
      var a := s.articles[id];
      if !MayModify(a, caller) then Err(Forbidden)
      else if caller.role == SubEditor && patch.status.Some? && patch.status.value != SubEditorReview then Err(Forbidden)
      else
        var effects := StatusEffects(s, a, patch.status, patch.publishedAt);
        var update := UpdateDocument(s, a, patch);
        if PatchViolations(update) != [] then Err(ValidationError)
        else
          var b := ApplyPatch(a, update).(publishedAt := effects.1);
          if update.slug.Some? && SlugUsedByOther(s, id, b.slug) then Err(DuplicateError)
          else
            var s' := effects.0.(articles := effects.0.articles[id := b]);
            assert s'.articles[id] == b;
            Ok(s')
  }

  /**
   * The stored article after a successful update: the status, category, author and view count the
   * request asks for, each kept when the request leaves it out.
   */
  predicate Updated(a: Article, patch: ArticlePatch, b: Article) {
    && b.status == patch.status.GetOr(a.status)
    && b.category == patch.category.GetOr(a.category)
    && b.author == patch.author.GetOr(a.author)
    && b.viewCount == patch.viewCount.GetOr(a.viewCount)
  }

  /** Fields the request leaves out are unchanged; the slug changes only through the title or the request's own slug. */
  lemma UpdateFields(s: Store, id: ArticleId, caller: Caller, patch: ArticlePatch)
    requires UpdateArticle(s, id, caller, patch).Ok?
    ensures var a := s.articles[id];
            var b := UpdateArticle(s, id, caller, patch).value.articles[id];
            && (patch.title.None? ==> b.title == a.title)
            && (patch.title.Some? ==> b.title == Trim(patch.title.value))
            && (patch.content.None? ==> b.content == a.content)
            && (patch.summary.None? ==> b.summary == a.summary)
            && (patch.tags.None? ==> b.tags == a.tags)
            && (patch.seo.None? ==> b.seo == a.seo)
            && (patch.featuredImage.None? ==> b.featuredImage == a.featuredImage)
            && (patch.pdfUrl.None? ==> b.pdfUrl == a.pdfUrl)
            && (TitleChanged(a, patch.title) ==> b.slug !in Slugs(s) && b.slug != a.slug)
            && (!TitleChanged(a, patch.title) && patch.slug.None? ==> b.slug == a.slug)
            && (!TitleChanged(a, patch.title) && patch.slug.Some? ==> b.slug == LowerTrim(patch.slug.value))
  {
    var a := s.articles[id];
    var u := UpdateDocument(s, a, patch);
    UpdateShape(s, id, caller, patch);
    var b := UpdateArticle(s, id, caller, patch).value.articles[id];
    assert b == ApplyPatch(a, u).(publishedAt := StatusEffects(s, a, patch.status, patch.publishedAt).1);
    if TitleChanged(a, patch.title) {
      SlugCharsSurviveSetters(GenerateSlug(patch.title.value, Slugs(s)));
      assert a.slug in Slugs(s);
    }
  }

  /**
   * A request whose status is absent or equal to the current one has no side effect on counters;
   * the publication time is the one the request sends, if any, else the stored one.
   */
  lemma UpdateSameStatusNoSideEffects(s: Store, id: ArticleId, caller: Caller, patch: ArticlePatch)
    requires UpdateArticle(s, id, caller, patch).Ok?
    requires patch.status.None? || patch.status.value == s.articles[id].status
    ensures UpdateArticle(s, id, caller, patch).value.categories == s.categories
    ensures UpdateArticle(s, id, caller, patch).value.articles[id].publishedAt == patch.publishedAt.GetOr(s.articles[id].publishedAt)
  {
  }

  /** First publication: the article is stamped with the current time, whatever the request sent, and its stored category gains one. */
  lemma UpdateFirstPublish(s: Store, id: ArticleId, caller: Caller, patch: ArticlePatch)
    requires UpdateArticle(s, id, caller, patch).Ok?
    requires patch.status == Some(Published) && s.articles[id].status != Published
    requires s.articles[id].publishedAt.None?
    ensures UpdateArticle(s, id, caller, patch).value.articles[id].publishedAt == Some(s.clock)
    ensures UpdateArticle(s, id, caller, patch).value.categories == AdjustCount(s, s.articles[id].category, 1).categories
  {
  }

  /** Re-publication: an article that already has a publication time is neither re-stamped nor counted again. */
  lemma UpdateRepublish(s: Store, id: ArticleId, caller: Caller, patch: ArticlePatch)
    requires UpdateArticle(s, id, caller, patch).Ok?
    requires patch.status == Some(Published) && s.articles[id].status != Published
    requires s.articles[id].publishedAt.Some?
    ensures UpdateArticle(s, id, caller, patch).value.articles[id].publishedAt == patch.publishedAt.GetOr(s.articles[id].publishedAt)
    ensures UpdateArticle(s, id, caller, patch).value.categories == s.categories
  {
  }

  /**
   * Leaving PUBLISHED: the pre-update category loses one, even when the same request moves the
   * article elsewhere, and the publication time stays unless the request sends one.
   */
  lemma UpdateUnpublish(s: Store, id: ArticleId, caller: Caller, patch: ArticlePatch)
    requires UpdateArticle(s, id, caller, patch).Ok?
    requires s.articles[id].status == Published && patch.status.Some? && patch.status.value != Published
    ensures UpdateArticle(s, id, caller, patch).value.categories == AdjustCount(s, s.articles[id].category, -1).categories
    ensures UpdateArticle(s, id, caller, patch).value.articles[id].publishedAt == patch.publishedAt.GetOr(s.articles[id].publishedAt)
  {
  }

  /**
   * The only server-side rule about the target status is the sub-editor's: a reporter who wrote an
   * article may publish it directly, from any status, skipping review.
   */
  lemma ReporterAuthorMayPublish(s: Store, id: ArticleId, caller: Caller)
    requires id in s.articles && s.articles[id].author == caller.userId && caller.role == Reporter
    ensures UpdateArticle(s, id, caller, StatusPatch(Published)).Ok?
    ensures UpdateArticle(s, id, caller, StatusPatch(Published)).value.articles[id].status == Published
  {
  }

  /** A sub-editor may touch only articles they wrote, and may only send them for review. */
  lemma SubEditorRules(s: Store, id: ArticleId, caller: Caller, patch: ArticlePatch)
    requires caller.role == SubEditor
    requires UpdateArticle(s, id, caller, patch).Ok?
    ensures s.articles[id].author == caller.userId
    ensures UpdateArticle(s, id, caller, patch).value.articles[id].status in {s.articles[id].status, SubEditorReview}
  {
  }

  /**
   * The update keeps the database consistent when the counter bookkeeping can follow it: an article
   * that ends up PUBLISHED stays in its category and either was already published or had never been
   * published; and a category the request names is an issued id.
   */
  predicate CounterSafe(a: Article, patch: ArticlePatch) {
    var st := patch.status.GetOr(a.status);
    var c := patch.category.GetOr(a.category);
    st == Published ==> c == a.category && (a.status == Published || a.publishedAt.None?)
  }

  /**
   * The request sends `publishedAt: null` for an article that is or becomes PUBLISHED without
   * being stamped anew by the first-publication branch: it leaves a published article unstamped.
   */
  predicate ClearsStamp(a: Article, patch: ArticlePatch) {
    patch.status.GetOr(a.status) == Published && patch.publishedAt == Some(None) && !FirstPublish(a, patch.status)
  }

  lemma UpdatePreservesInvariant(s: Store, id: ArticleId, caller: Caller, patch: ArticlePatch)
    requires Invariant(s)
    requires id in s.articles ==> CounterSafe(s.articles[id], patch) && !ClearsStamp(s.articles[id], patch)
    requires patch.category.Some? ==> patch.category.value < s.nextId
    ensures UpdateArticle(s, id, caller, patch).Ok? ==> Invariant(UpdateArticle(s, id, caller, patch).value)
  {
    var r := UpdateArticle(s, id, caller, patch);
    if r.Ok? {
      var a := s.articles[id];
      var s' := r.value;
      var b := s'.articles[id];
      var written := s.(articles := s.articles[id := b]);
      assert s'.articles == written.articles;
      forall k | k in s'.categories
        ensures s'.categories[k].articleCount == |PublishedIn(s', k)|
      {
        CountAfterWrite(s, id, b, k);
        assert PublishedIn(s', k) == PublishedIn(written, k);
      }
      UpdateKeepsDocuments(s, id, caller, patch);
    }
  }

  /** How a successful update is built: the update document, the status side effects and the unique-index check. */
  lemma UpdateShape(s: Store, id: ArticleId, caller: Caller, patch: ArticlePatch)
    requires UpdateArticle(s, id, caller, patch).Ok?
    ensures var a := s.articles[id];
            var u := UpdateDocument(s, a, patch);
            var e := StatusEffects(s, a, patch.status, patch.publishedAt);
            var s' := UpdateArticle(s, id, caller, patch).value;
            && s' == e.0.(articles := e.0.articles[id := ApplyPatch(a, u).(publishedAt := e.1)])
            && PatchViolations(u) == []
            && (u.slug.Some? ==> !SlugUsedByOther(s, id, s'.articles[id].slug))
  {
    var a := s.articles[id];
    var u := UpdateDocument(s, a, patch);
    var e := StatusEffects(s, a, patch.status, patch.publishedAt);
    var b := ApplyPatch(a, u).(publishedAt := e.1);
    assert !(u.slug.Some? && SlugUsedByOther(s, id, b.slug));
    assert UpdateArticle(s, id, caller, patch) == Ok(e.0.(articles := e.0.articles[id := b]));
  }

  /**
   * A successful update keeps every document well-formed, the slugs unique and the ids issued; and
   * every published article stamped unless the request clears the stamp.
   */
  lemma UpdateKeepsDocuments(s: Store, id: ArticleId, caller: Caller, patch: ArticlePatch)
    requires Invariant(s)
    requires patch.category.Some? ==> patch.category.value < s.nextId
    requires UpdateArticle(s, id, caller, patch).Ok?
    ensures IdsIssued(UpdateArticle(s, id, caller, patch).value)
    ensures UniqueSlugs(UpdateArticle(s, id, caller, patch).value)
    ensures DocumentsWellFormed(UpdateArticle(s, id, caller, patch).value)
    ensures !ClearsStamp(s.articles[id], patch) ==> Stamped(UpdateArticle(s, id, caller, patch).value)
  {
    var s' := UpdateArticle(s, id, caller, patch).value;
    UpdatedArticleWellFormed(s, id, caller, patch);
    UpdateKeepsSlugsUnique(s, id, caller, patch);
    UpdateTouchesOnlyCounts(s, id, caller, patch);
    OthersKept(s, s', id);
  }

  /** Of the categories, an update changes at most the counters. */
  lemma UpdateTouchesOnlyCounts(s: Store, id: ArticleId, caller: Caller, patch: ArticlePatch)
    requires UpdateArticle(s, id, caller, patch).Ok?
    ensures var s' := UpdateArticle(s, id, caller, patch).value;
            && s'.categories.Keys == s.categories.Keys
            && forall k :: k in s.categories ==> s'.categories[k].(articleCount := 0) == s.categories[k].(articleCount := 0)
  {
    UpdateShape(s, id, caller, patch);
  }

  /**
   * The updated article itself is well-formed and filed under an issued id; it is stamped if
   * published, unless the request clears the stamp.
   */
  lemma UpdatedArticleWellFormed(s: Store, id: ArticleId, caller: Caller, patch: ArticlePatch)
    requires IdsIssued(s) && DocumentsWellFormed(s) && Stamped(s)
    requires patch.category.Some? ==> patch.category.value < s.nextId
    requires UpdateArticle(s, id, caller, patch).Ok?
    ensures var b := UpdateArticle(s, id, caller, patch).value.articles[id];
            && ArticleModel.WellFormed(b) && b.category < s.nextId
            && (b.status == Published && !ClearsStamp(s.articles[id], patch) ==> b.publishedAt.Some?)
  {
    var a := s.articles[id];
    var u := UpdateDocument(s, a, patch);
    var e := StatusEffects(s, a, patch.status, patch.publishedAt);
    UpdateShape(s, id, caller, patch);
    PatchKeepsWellFormed(a, u, e.1);
    var b := UpdateArticle(s, id, caller, patch).value.articles[id];
    assert b == ApplyPatch(a, u).(publishedAt := e.1);
    assert b.category < s.nextId;
  }

  /**
   * A write to article `id` and a counter update keep the other documents' well-formedness and
   * issued ids, given that article `id` itself satisfies them; and the stamps, when article `id`
   * is stamped if published.
   */
  lemma OthersKept(s: Store, s': Store, id: ArticleId)
    requires IdsIssued(s) && DocumentsWellFormed(s) && Stamped(s)
    requires id in s.articles
    requires s'.nextId == s.nextId && id in s'.articles
    requires s'.articles == s.articles[id := s'.articles[id]]
    requires s'.categories.Keys == s.categories.Keys
    requires forall k :: k in s.categories ==> s'.categories[k].(articleCount := 0) == s.categories[k].(articleCount := 0)
    requires ArticleModel.WellFormed(s'.articles[id]) && s'.articles[id].category < s.nextId
    ensures IdsIssued(s') && DocumentsWellFormed(s')
    ensures (s'.articles[id].status == Published ==> s'.articles[id].publishedAt.Some?) ==> Stamped(s')
  {
    forall k | k in s'.articles
      ensures ArticleModel.WellFormed(s'.articles[k]) && s'.articles[k].category < s'.nextId && k < s'.nextId
      ensures k != id && s'.articles[k].status == Published ==> s'.articles[k].publishedAt.Some?
    {
      if k != id {
        assert s'.articles[k] == s.articles[k];
      } else {
        assert k in s.articles;
      }
    }
    forall k | k in s'.categories
      ensures CategoryModel.WellFormed(s'.categories[k]) && k < s'.nextId
    {
      assert s'.categories[k].(articleCount := 0) == s.categories[k].(articleCount := 0);
    }
  }

  /** A successful update leaves no two articles with the same slug. */
  lemma UpdateKeepsSlugsUnique(s: Store, id: ArticleId, caller: Caller, patch: ArticlePatch)
    requires UniqueSlugs(s)
    requires UpdateArticle(s, id, caller, patch).Ok?
    ensures UniqueSlugs(UpdateArticle(s, id, caller, patch).value)
  {
    var a := s.articles[id];
    var s' := UpdateArticle(s, id, caller, patch).value;
    var u := UpdateDocument(s, a, patch);
    UpdateShape(s, id, caller, patch);
    forall i, j | i in s'.articles && j in s'.articles && i != j
      ensures s'.articles[i].slug != s'.articles[j].slug
    {
      if i == id && u.slug.Some? {
        assert !SlugUsedByOther(s, id, s'.articles[id].slug);
      } else if j == id && u.slug.Some? {
        assert !SlugUsedByOther(s, id, s'.articles[id].slug);
      }
    }
    forall i, j | i in s'.categories && j in s'.categories && i != j
      ensures s'.categories[i].slug != s'.categories[j].slug
    {
      assert s'.categories[i].slug == s.categories[i].slug;
      assert s'.categories[j].slug == s.categories[j].slug;
    }
  }

  // ---------------------------------------------------------------------------------------------
  // Delete and read
  // ---------------------------------------------------------------------------------------------

  /** `deleteArticle`: not found, then the ownership test; a published article is uncounted first. */
  function DeleteArticle(s: Store, id: ArticleId, caller: Caller): (r: Result<Store, ErrorCode>)
    ensures id !in s.articles ==> r == Err(ArticleNotFound)
    ensures id in s.articles && !MayModify(s.articles[id], caller) ==> r == Err(Forbidden)
    ensures id in s.articles && MayModify(s.articles[id], caller) ==> r.Ok?
    ensures r.Ok? ==>
      && r.value.articles == s.articles - {id}
      && r.value.categories.Keys == s.categories.Keys
      && (forall k :: k in s.categories ==>
            r.value.categories[k].articleCount == s.categories[k].articleCount
              - (if PublishedUnder(s.articles[id], k) then 1 else 0))
  {
    if id !in s.articles then Err(ArticleNotFound)
    else
      var a := s.articles[id];
      if !MayModify(a, caller) then Err(Forbidden)
      else
        var counted := if a.status == Published then AdjustCount(s, a.category, -1) else s;
        Ok(counted.(articles := counted.articles - {id}))
  }

  /** Deleting an article keeps the database consistent. */
  lemma DeletePreservesInvariant(s: Store, id: ArticleId, caller: Caller)
    requires Invariant(s)
    ensures DeleteArticle(s, id, caller).Ok? ==> Invariant(DeleteArticle(s, id, caller).value)
  {
    if DeleteArticle(s, id, caller).Ok? {
      var s' := DeleteArticle(s, id, caller).value;
      DeleteKeepsCounts(s, id, caller);
      DeleteKeepsCategories(s, id, caller);
      DeleteKeepsIds(s, id, caller);
    }
  }

  lemma DeleteKeepsIds(s: Store, id: ArticleId, caller: Caller)
    requires IdsIssued(s) && Stamped(s) && DeleteArticle(s, id, caller).Ok?
    ensures IdsIssued(DeleteArticle(s, id, caller).value) && Stamped(DeleteArticle(s, id, caller).value)
  {
    var s' := DeleteArticle(s, id, caller).value;
    assert s'.nextId == s.nextId && s'.articles == s.articles - {id};
  }

  lemma DeleteKeepsCounts(s: Store, id: ArticleId, caller: Caller)
    requires CountsExact(s) && DeleteArticle(s, id, caller).Ok?
    ensures CountsExact(DeleteArticle(s, id, caller).value)
  {
    var s' := DeleteArticle(s, id, caller).value;
    var removed := s.(articles := s.articles - {id});
    forall k | k in s'.categories
      ensures s'.categories[k].articleCount == |PublishedIn(s', k)|
    {
      CountAfterRemove(s, id, k);
      assert PublishedIn(s', k) == PublishedIn(removed, k);
    }
  }

  lemma DeleteKeepsCategories(s: Store, id: ArticleId, caller: Caller)
    requires UniqueSlugs(s) && DocumentsWellFormed(s) && DeleteArticle(s, id, caller).Ok?
    ensures UniqueSlugs(DeleteArticle(s, id, caller).value)
    ensures DocumentsWellFormed(DeleteArticle(s, id, caller).value)
  {
    var s' := DeleteArticle(s, id, caller).value;
    assert s'.articles == s.articles - {id};
    assert forall k :: k in s.categories ==>
      s'.categories[k].(articleCount := 0) == s.categories[k].(articleCount := 0);
    forall i, j | i in s'.categories && j in s'.categories && i != j
      ensures s'.categories[i].slug != s'.categories[j].slug
    {
      assert s'.categories[i].slug == s.categories[i].slug;
      assert s'.categories[j].slug == s.categories[j].slug;
    }
    forall k | k in s'.categories ensures CategoryModel.WellFormed(s'.categories[k]) {
      assert s'.categories[k].(articleCount := 0) == s.categories[k].(articleCount := 0);
    }
  }

  /**
   * `getArticleBySlug`: an unpublished article is hidden from anonymous readers as if it did not
   * exist; reading a published article counts one view through `save`.
   */
  function ReadArticle(s: Store, slug: string, signedIn: bool): (r: Result<(Store, Article), ErrorCode>)
    requires IdsIssued(s)
    ensures LowerTrim(slug) !in Slugs(s) ==> r == Err(ArticleNotFound)
    ensures r.Err? ==> r.error == ArticleNotFound
    ensures r.Ok? ==> r.value.1.slug == LowerTrim(slug) && (r.value.1.status == Published || signedIn)
    ensures r.Ok? ==> r.value.0.categories == s.categories && r.value.0.articles.Keys == s.articles.Keys
    ensures r.Ok? && r.value.1.status == Published ==> r.value.1 in r.value.0.articles.Values
  {
    match FindArticleBySlug(s, slug)
    case None => Err(ArticleNotFound)
    case Some(id) =>
      var a := s.articles[id];
      if a.status != Published && !signedIn then Err(ArticleNotFound)
      else if a.status == Published then
        var b := IncrementViews(a, s.clock);
        assert s.articles[id := b][id] == b;
        Ok((s.(articles := s.articles[id := b]), b))
      else Ok((s, a))
  }

  /** Reading an article changes only its view count, by one when it is published and not at all otherwise. */
  lemma ReadArticleCountsOneView(s: Store, slug: string, signedIn: bool)
    requires IdsIssued(s)
    requires ReadArticle(s, slug, signedIn).Ok?
    ensures var (s', a) := ReadArticle(s, slug, signedIn).value;
            var id := FindArticleBySlug(s, slug).value;
            && s' == s.(articles := s.articles[id := a])
            && a == s.articles[id].(viewCount := a.viewCount)
            && a.viewCount == s.articles[id].viewCount + (if a.status == Published then 1 else 0)
  {
    var id := FindArticleBySlug(s, slug).value;
    var a := s.articles[id];
    if a.status == Published {
      var b := IncrementViews(a, s.clock);
      assert ReadArticle(s, slug, signedIn) == Ok((s.(articles := s.articles[id := b]), b));
      assert b.status == Published;
    } else {
      assert ReadArticle(s, slug, signedIn) == Ok((s, a));
      assert s.articles[id := a] == s.articles;
    }
  }

  /** Reading an article keeps the database consistent. */
  lemma ReadArticlePreservesInvariant(s: Store, slug: string, signedIn: bool)
    requires Invariant(s)
    ensures ReadArticle(s, slug, signedIn).Ok? ==> Invariant(ReadArticle(s, slug, signedIn).value.0)
  {
    if ReadArticle(s, slug, signedIn).Ok? {
      var (s', a) := ReadArticle(s, slug, signedIn).value;
      var id := FindArticleBySlug(s, slug).value;
      ReadArticleCountsOneView(s, slug, signedIn);
      if a.status == Published {
        IncrementViewsWellFormed(s.articles[id], s.clock);
      }
      ReadKeepsCounts(s, id, a);
      OthersKept(s, s', id);
      ReadKeepsSlugs(s, id, a);
    }
  }

  /** Writing an article back with only its view count changed keeps every counter exact. */
  lemma ReadKeepsCounts(s: Store, id: ArticleId, a: Article)
    requires CountsExact(s) && id in s.articles && a == s.articles[id].(viewCount := a.viewCount)
    ensures CountsExact(s.(articles := s.articles[id := a]))
  {
    var s' := s.(articles := s.articles[id := a]);
    forall k | k in s'.categories
      ensures s'.categories[k].articleCount == |PublishedIn(s', k)|
    {
      CountAfterWrite(s, id, a, k);
    }
  }

  /** Writing an article back with only its view count changed keeps the slugs unique. */
  lemma ReadKeepsSlugs(s: Store, id: ArticleId, a: Article)
    requires UniqueSlugs(s) && id in s.articles && a == s.articles[id].(viewCount := a.viewCount)
    ensures UniqueSlugs(s.(articles := s.articles[id := a]))
  {
    var s' := s.(articles := s.articles[id := a]);
    forall i, j | i in s'.articles && j in s'.articles && i != j
      ensures s'.articles[i].slug != s'.articles[j].slug
    {
      assert s'.articles[i].slug == s.articles[i].slug && s'.articles[j].slug == s.articles[j].slug;
    }
  }

  // ---------------------------------------------------------------------------------------------
  // The article counter: where the code as written loses track, and a corrected bookkeeping
  // ---------------------------------------------------------------------------------------------

  /** Unpublishing keeps the publication time, so the article can later be re-published as written. */
  lemma UnpublishKeepsStamp(s: Store, id: ArticleId, caller: Caller)
    requires Invariant(s)
    requires id in s.articles && s.articles[id].status == Published && IsEditor(caller.role)
    ensures UpdateArticle(s, id, caller, StatusPatch(Domain.Draft)).Ok?
    ensures var s' := UpdateArticle(s, id, caller, StatusPatch(Domain.Draft)).value;
            Invariant(s') && s'.articles[id].status == Domain.Draft && s'.articles[id].publishedAt.Some?
  {
    UpdatePreservesInvariant(s, id, caller, StatusPatch(Domain.Draft));
  }

  /**
   * Re-publishing an article that was published before does not count it again, so the counter of
   * its category falls one short of the published articles filed there.
   */
  lemma RepublishBreaksCount(s: Store, id: ArticleId, caller: Caller)
    requires Invariant(s)
    requires id in s.articles && s.articles[id].status != Published && s.articles[id].publishedAt.Some?
    requires s.articles[id].category in s.categories && IsEditor(caller.role)
    ensures UpdateArticle(s, id, caller, StatusPatch(Published)).Ok?
    ensures !CountsExact(UpdateArticle(s, id, caller, StatusPatch(Published)).value)
  {
    var s' := UpdateArticle(s, id, caller, StatusPatch(Published)).value;
    var c := s.articles[id].category;
    UpdateRepublish(s, id, caller, StatusPatch(Published));
    CountAfterWrite(s, id, s'.articles[id], c);
    assert s'.articles == s.articles[id := s'.articles[id]];
    assert s'.categories[c].articleCount == |PublishedIn(s, c)|;
    assert |PublishedIn(s', c)| == |PublishedIn(s, c)| + 1;
  }

  /**
   * Moving a published article to another category changes no counter: the old category keeps
   * counting it and the new one does not.
   */
  lemma MovePublishedBreaksCount(s: Store, id: ArticleId, caller: Caller, c2: CategoryId)
    requires Invariant(s)
    requires id in s.articles && s.articles[id].status == Published && IsEditor(caller.role)
    requires s.articles[id].category in s.categories && c2 != s.articles[id].category
    ensures UpdateArticle(s, id, caller, CategoryPatch(c2)).Ok?
    ensures !CountsExact(UpdateArticle(s, id, caller, CategoryPatch(c2)).value)
  {
    var s' := UpdateArticle(s, id, caller, CategoryPatch(c2)).value;
    var c := s.articles[id].category;
    UpdateSameStatusNoSideEffects(s, id, caller, CategoryPatch(c2));
    CountAfterWrite(s, id, s'.articles[id], c);
    assert s'.articles == s.articles[id := s'.articles[id]];
    assert |PublishedIn(s', c)| == |PublishedIn(s, c)| - 1;
  }

  /**
   * The counter bookkeeping the invariant needs: uncount the article where it was published
   * before the update, count it where it is published after.
   */
  function RecountMove(s: Store, a: Article, b: Article): (r: Store)
    ensures r.articles == s.articles && r.nextId == s.nextId && r.clock == s.clock
    ensures r.categories.Keys == s.categories.Keys
    ensures forall k :: k in s.categories ==>
      r.categories[k] == s.categories[k].(articleCount := s.categories[k].articleCount
        - (if PublishedUnder(a, k) then 1 else 0) + (if PublishedUnder(b, k) then 1 else 0))
  {
    var uncounted := if a.status == Published then AdjustCount(s, a.category, -1) else s;
    if b.status == Published then AdjustCount(uncounted, b.category, 1) else uncounted
  }

  /** The request without the keys a client should not set: the author, the view count and the publication time. */
  function Trusted(p: ArticlePatch): (r: ArticlePatch)
    ensures r.author.None? && r.viewCount.None? && r.publishedAt.None?
    ensures r.(author := p.author, viewCount := p.viewCount, publishedAt := p.publishedAt) == p
  {
    p.(author := None, viewCount := None, publishedAt := None)
  }

  /** The setters do not touch the keys `Trusted` drops. */
  lemma PatchSettersTrusted(p: ArticlePatch)
    ensures PatchSetters(Trusted(p)) == Trusted(PatchSetters(p))
  {
  }

  /** The update document of the trusted part is the trusted part of the update document. */
  lemma UpdateDocumentTrusted(s: Store, a: Article, patch: ArticlePatch)
    ensures UpdateDocument(s, a, Trusted(patch)) == Trusted(UpdateDocument(s, a, patch))
  {
    var t := Trusted(patch);
    assert TitleChanged(a, t.title) == TitleChanged(a, patch.title);
    if TitleChanged(a, patch.title) {
      var slug := GenerateSlug(patch.title.value, Slugs(s));
      assert t.(slug := Some(slug)) == Trusted(patch.(slug := Some(slug)));
      PatchSettersTrusted(patch.(slug := Some(slug)));
    } else {
      PatchSettersTrusted(patch);
    }
  }

  /** The keys `Trusted` drops decide no error: the request and its trusted part fail or succeed alike. */
  lemma TrustedSameOutcome(s: Store, id: ArticleId, caller: Caller, patch: ArticlePatch)
    ensures UpdateArticle(s, id, caller, patch).Err? ==> UpdateArticle(s, id, caller, Trusted(patch)) == UpdateArticle(s, id, caller, patch)
    ensures UpdateArticle(s, id, caller, Trusted(patch)).Ok? <==> UpdateArticle(s, id, caller, patch).Ok?
  {
    var t := Trusted(patch);
    if id in s.articles {
      var a := s.articles[id];
      if MayModify(a, caller) && !(caller.role == SubEditor && patch.status.Some? && patch.status.value != SubEditorReview) {
        var u := UpdateDocument(s, a, patch);
        var v := UpdateDocument(s, a, t);
        UpdateDocumentTrusted(s, a, patch);
        assert v == Trusted(u);
        assert PatchViolations(v) == PatchViolations(u);
        var e := StatusEffects(s, a, patch.status, patch.publishedAt);
        var f := StatusEffects(s, a, t.status, t.publishedAt);
        var b := ApplyPatch(a, u).(publishedAt := e.1);
        var c := ApplyPatch(a, v).(publishedAt := f.1);
        assert c.slug == b.slug;
        if PatchViolations(u) != [] {
          assert UpdateArticle(s, id, caller, patch) == Err(ValidationError);
          assert UpdateArticle(s, id, caller, t) == Err(ValidationError);
        } else if u.slug.Some? && SlugUsedByOther(s, id, b.slug) {
          assert UpdateArticle(s, id, caller, patch) == Err(DuplicateError);
          assert UpdateArticle(s, id, caller, t) == Err(DuplicateError);
        } else {
          assert UpdateArticle(s, id, caller, patch).Ok?;
          assert UpdateArticle(s, id, caller, t).Ok?;
        }
      }
    }
  }

  /**
   * `updateArticle` as evidently intended: the author, view count and publication time are not
   * taken from the request, and the counter is kept by `RecountMove` instead of the status
   * branch's adjustments. Every error is that of `UpdateArticle`.
   */
  function UpdateArticleCorrected(s: Store, id: ArticleId, caller: Caller, patch: ArticlePatch): (r: Result<Store, ErrorCode>)
    ensures UpdateArticle(s, id, caller, patch).Err? ==> r == UpdateArticle(s, id, caller, patch)
    ensures r.Ok? <==> UpdateArticle(s, id, caller, patch).Ok?
    ensures r.Ok? ==>
      && UpdateArticle(s, id, caller, Trusted(patch)).Ok?
      && r.value.articles == UpdateArticle(s, id, caller, Trusted(patch)).value.articles
    ensures r.Ok? ==>
      && id in s.articles && id in r.value.articles
      && r.value.articles[id].author == s.articles[id].author
      && r.value.articles[id].viewCount == s.articles[id].viewCount
  {
    TrustedSameOutcome(s, id, caller, patch);
    var u := UpdateArticle(s, id, caller, Trusted(patch));
    if u.Err? then Err(u.error)
    else
      var b := u.value.articles[id];
      assert Updated(s.articles[id], Trusted(patch), b);
      Ok(RecountMove(s, s.articles[id], b).(articles := u.value.articles))
  }

  /** With the corrected bookkeeping every successful update keeps the database consistent, for any category id that was issued. */
  lemma UpdateCorrectedPreservesInvariant(s: Store, id: ArticleId, caller: Caller, patch: ArticlePatch)
    requires Invariant(s)
    requires patch.category.Some? ==> patch.category.value < s.nextId
    ensures UpdateArticleCorrected(s, id, caller, patch).Ok? ==> Invariant(UpdateArticleCorrected(s, id, caller, patch).value)
  {
    if UpdateArticleCorrected(s, id, caller, patch).Ok? {
      CorrectedCounts(s, id, caller, patch);
      CorrectedDocuments(s, id, caller, patch);
      CorrectedSlugs(s, id, caller, patch);
    }
  }

  /** The corrected update writes the article `UpdateArticle` would and leaves the categories' documents alone. */
  lemma CorrectedShape(s: Store, id: ArticleId, caller: Caller, patch: ArticlePatch)
    requires UpdateArticleCorrected(s, id, caller, patch).Ok?
    ensures var s' := UpdateArticle(s, id, caller, Trusted(patch)).value;
            var s2 := UpdateArticleCorrected(s, id, caller, patch).value;
            && s2.articles == s.articles[id := s'.articles[id]] && s2.articles == s'.articles
            && s2.nextId == s.nextId && s2.categories.Keys == s.categories.Keys
            && forall k :: k in s.categories ==> s2.categories[k].(articleCount := 0) == s.categories[k].(articleCount := 0)
  {
  }

  /** After a corrected update every category counts exactly its published articles. */
  lemma CorrectedCounts(s: Store, id: ArticleId, caller: Caller, patch: ArticlePatch)
    requires Invariant(s) && UpdateArticleCorrected(s, id, caller, patch).Ok?
    ensures CountsExact(UpdateArticleCorrected(s, id, caller, patch).value)
  {
    var s2 := UpdateArticleCorrected(s, id, caller, patch).value;
    CorrectedShape(s, id, caller, patch);
    forall k | k in s2.categories
      ensures s2.categories[k].articleCount == |PublishedIn(s2, k)|
    {
      CorrectedCountAt(s, id, caller, patch, k);
    }
  }

  lemma CorrectedCountAt(s: Store, id: ArticleId, caller: Caller, patch: ArticlePatch, k: CategoryId)
    requires Invariant(s) && UpdateArticleCorrected(s, id, caller, patch).Ok? && k in s.categories
    ensures var s2 := UpdateArticleCorrected(s, id, caller, patch).value;
            k in s2.categories && s2.categories[k].articleCount == |PublishedIn(s2, k)|
  {
    var s2 := UpdateArticleCorrected(s, id, caller, patch).value;
    var b := s2.articles[id];
    CorrectedShape(s, id, caller, patch);
    CountAfterWrite(s, id, b, k);
    assert PublishedIn(s2, k) == PublishedIn(s.(articles := s.articles[id := b]), k);
  }

  /** After a corrected update the ids, the documents and the publication times stay consistent. */
  lemma CorrectedDocuments(s: Store, id: ArticleId, caller: Caller, patch: ArticlePatch)
    requires Invariant(s) && UpdateArticleCorrected(s, id, caller, patch).Ok?
    requires patch.category.Some? ==> patch.category.value < s.nextId
    ensures var s2 := UpdateArticleCorrected(s, id, caller, patch).value;
            IdsIssued(s2) && DocumentsWellFormed(s2) && Stamped(s2)
  {
    var t := Trusted(patch);
    var s2 := UpdateArticleCorrected(s, id, caller, patch).value;
    CorrectedShape(s, id, caller, patch);
    UpdatedArticleWellFormed(s, id, caller, t);
    assert !ClearsStamp(s.articles[id], t);
    OthersKept(s, s2, id);
  }

  /** After a corrected update no two articles and no two categories share a slug. */
  lemma CorrectedSlugs(s: Store, id: ArticleId, caller: Caller, patch: ArticlePatch)
    requires Invariant(s) && UpdateArticleCorrected(s, id, caller, patch).Ok?
    ensures UniqueSlugs(UpdateArticleCorrected(s, id, caller, patch).value)
  {
    var s2 := UpdateArticleCorrected(s, id, caller, patch).value;
    CorrectedShape(s, id, caller, patch);
    UpdateKeepsSlugsUnique(s, id, caller, Trusted(patch));
    forall i, j | i in s2.categories && j in s2.categories && i != j
      ensures s2.categories[i].slug != s2.categories[j].slug
    {
      assert s2.categories[i].slug == s.categories[i].slug;
      assert s2.categories[j].slug == s.categories[j].slug;
    }
  }

  /** A request that only sends `publishedAt: null`. */
  function ClearStampPatch(): ArticlePatch {
    ArticlePatch(None, None, None, None, None, None, None, None, None, None, None, None, Some(None))
  }

  /** A request that only sends `author`. */
  function AuthorPatch(author: UserId): ArticlePatch {
    ArticlePatch(None, None, None, None, None, None, None, None, None, None, Some(author), None, None)
  }

  /**
   * The body is written as sent: the author of a published article, whatever their role, can
   * clear its publication time, leaving a PUBLISHED article with no stamp. The corrected update
   * ignores the key and keeps the stamp.
   */
  lemma ClearedStampBreaksInvariant(s: Store, id: ArticleId, caller: Caller)
    requires Invariant(s)
    requires id in s.articles && s.articles[id].status == Published && s.articles[id].author == caller.userId
    ensures UpdateArticle(s, id, caller, ClearStampPatch()).Ok?
    ensures !Stamped(UpdateArticle(s, id, caller, ClearStampPatch()).value)
    ensures UpdateArticleCorrected(s, id, caller, ClearStampPatch()).Ok?
    ensures Stamped(UpdateArticleCorrected(s, id, caller, ClearStampPatch()).value)
  {
    var p := ClearStampPatch();
    var s' := UpdateArticle(s, id, caller, p).value;
    assert s'.articles[id].status == Published && s'.articles[id].publishedAt.None? by {
      UpdateSameStatusNoSideEffects(s, id, caller, p);
    }
    UpdateCorrectedPreservesInvariant(s, id, caller, p);
  }

  /**
   * A reporter can hand their own article to another user by sending `author`, after which they
   * may no longer update or delete it. The corrected update keeps the author.
   */
  lemma AuthorKeyHandsOver(s: Store, id: ArticleId, caller: Caller, other: UserId)
    requires id in s.articles && s.articles[id].author == caller.userId && caller.role == Reporter
    requires other != caller.userId
    ensures UpdateArticle(s, id, caller, AuthorPatch(other)).Ok?
    ensures var s' := UpdateArticle(s, id, caller, AuthorPatch(other)).value;
            && s'.articles[id].author == other
            && DeleteArticle(s', id, caller) == Err(Forbidden)
            && UpdateArticle(s', id, caller, AuthorPatch(caller.userId)) == Err(Forbidden)
    ensures UpdateArticleCorrected(s, id, caller, AuthorPatch(other)).Ok?
    ensures UpdateArticleCorrected(s, id, caller, AuthorPatch(other)).value.articles[id].author == caller.userId
  {
  }
}
