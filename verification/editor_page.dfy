/**
 * The admin article editor: the form it keeps, what loading an article puts into it, the list
 * edits of summary points, keywords and tags, merging AI output, the status menu's effect, and the
 * request a save sends.
 */
module EditorPage {
  import opened Wrappers
  import opened Seqs
  import opened Text
  import opened Domain
  import opened ArticleModel

  /** The image URL a save sends when the form has none. */
  const PlaceholderImage: string := "https://via.placeholder.com/800x450"

  /** The editor's state; `id` is the route's article id, present when editing a saved article. */
  datatype EditorForm = EditorForm(
    id: Option<string>,
    title: string,
    content: string,
    summary: seq<string>,
    tags: seq<string>,
    seoTitle: string,
    seoDescription: string,
    seoKeywords: seq<string>,
    category: string,
    featuredImage: string,
    status: Status)

  /** The form before anything is loaded or typed. */
  function EmptyForm(id: Option<string>): (r: EditorForm)
    ensures r.id == id && r.status == Draft
    ensures r.title == [] && r.content == [] && r.category == [] && r.featuredImage == []
    ensures r.summary == [] && r.tags == [] && r.seoKeywords == []
  {
    EditorForm(id, "", "", [], [], "", "", [], "", "", Draft)
  }

  /** An article as `GET /api/articles/id/:id` returns it; optional parts may be missing. */
  datatype LoadedArticle = LoadedArticle(
    title: string,
    content: string,
    summary: Option<seq<string>>,
    tags: Option<seq<string>>,
    seo: Option<Seo>,
    category: Option<string>,
    featuredImage: Option<string>,
    status: Status)

  /** `fetchArticle`: copy the article into the form, a missing part as empty. */
  function Load(id: string, a: LoadedArticle): (r: EditorForm)
    ensures r.id == Some(id) && r.title == a.title && r.content == a.content && r.status == a.status
    ensures r.summary == a.summary.GetOr([]) && r.tags == a.tags.GetOr([])
    ensures r.seoKeywords == (if a.seo.Some? then a.seo.value.keywords else [])
    ensures r.category == a.category.GetOr("") && r.featuredImage == a.featuredImage.GetOr("")
  {
    EditorForm(
      Some(id), a.title, a.content, a.summary.GetOr([]), a.tags.GetOr([]),
      if a.seo.Some? then a.seo.value.title else "",
      if a.seo.Some? then a.seo.value.metaDescription else "",
      if a.seo.Some? then a.seo.value.keywords else [],
      a.category.GetOr(""), a.featuredImage.GetOr(""), a.status)
  }

  // ---------------------------------------------------------------------------------------------
  // Saving
  // ---------------------------------------------------------------------------------------------

  /** The article a save sends. */
  datatype ArticleData = ArticleData(
    title: string,
    content: string,
    summary: seq<string>,
    tags: seq<string>,
    seo: Seo,
    category: string,
    featuredImage: string,
    status: Status)

  /** A save: create a new article, or update the one being edited. */
  datatype SaveRequest = CreateRequest(data: ArticleData) | UpdateRequest(id: string, data: ArticleData)

  /**
   * `handleSave(newStatus?)`: nothing without a title, content and category; otherwise the form's
   * fields, the placeholder for a missing image, and the explicit status if one is given.
   */
  function Save(f: EditorForm, newStatus: Option<Status>): (r: Option<SaveRequest>)
    ensures r.None? <==> f.title == [] || f.content == [] || f.category == []
    ensures r.Some? ==> (r.value.UpdateRequest? <==> f.id.Some?)
    ensures r.Some? && f.id.Some? ==> r.value.id == f.id.value
    ensures r.Some? ==>
      var d := r.value.data;
      && d.title == f.title && d.content == f.content && d.category == f.category
      && d.summary == f.summary && d.tags == f.tags
      && d.seo == Seo(f.seoTitle, f.seoDescription, f.seoKeywords)
      && d.featuredImage != []
      && (f.featuredImage != [] ==> d.featuredImage == f.featuredImage)
      && d.status == newStatus.GetOr(f.status)
  {
    if f.title == [] || f.content == [] || f.category == [] then None
    else
      var data := ArticleData(
        f.title, f.content, f.summary, f.tags,
        Seo(f.seoTitle, f.seoDescription, f.seoKeywords),
        f.category,
        if f.featuredImage == [] then PlaceholderImage else f.featuredImage,
        newStatus.GetOr(f.status));
      match f.id
      case Some(id) => Some(UpdateRequest(id, data))
      case None => Some(CreateRequest(data))
  }

  /**
   * Loading a complete article and saving it untouched sends back exactly what was loaded, the
   * image included.
   */
  lemma LoadSaveRoundTrip(id: string, a: LoadedArticle, seo: Seo, category: string, image: string)
    requires a.title != [] && a.content != []
    requires a.seo == Some(seo) && a.category == Some(category) && category != []
    requires a.featuredImage == Some(image) && image != []
    ensures Save(Load(id, a), None) == Some(UpdateRequest(id,
      ArticleData(a.title, a.content, a.summary.GetOr([]), a.tags.GetOr([]), seo, category, image, a.status)))
  {
  }

  /** An article loaded without an image is saved with the placeholder. */
  lemma MissingImageBecomesPlaceholder(id: string, a: LoadedArticle)
    requires a.title != [] && a.content != [] && a.category.Some? && a.category.value != []
    requires a.featuredImage.None?
    ensures Save(Load(id, a), None).Some?
    ensures Save(Load(id, a), None).value.data.featuredImage == PlaceholderImage
  {
  }

  // ---------------------------------------------------------------------------------------------
  // List edits
  // ---------------------------------------------------------------------------------------------

  /**
   * The Enter handler of the tag and keyword inputs: the trimmed input is appended unless it is
   * empty or already in the list.
   */
  function AddItem(items: seq<string>, input: string): (r: seq<string>)
    ensures NoDuplicates(items) ==> NoDuplicates(r)
    ensures Trim(input) == [] ==> r == items
    ensures Trim(input) != [] ==> Trim(input) in r
    ensures r == items || r == items + [Trim(input)]
    ensures forall k :: 0 <= k < |r| ==> r[k] in items || r[k] == Trim(input)
  {
    var value := Trim(input);
    if value != [] && value !in items then items + [value] else items
  }

  /** Entering the same value twice adds it once. */
  lemma AddItemIdempotent(items: seq<string>, input: string)
    ensures AddItem(AddItem(items, input), input) == AddItem(items, input)
  {
  }

  /** Entering values one after another. */
  function AddAll(items: seq<string>, inputs: seq<string>): seq<string>
    decreases |inputs|
  {
    if inputs == [] then items else AddAll(AddItem(items, inputs[0]), inputs[1..])
  }

  /**
   * However many values are entered, a duplicate-free list stays duplicate-free, keeps what it
   * held, and ends up holding every entered value that is not blank.
   */
  lemma {:induction false} AddAllKeepsDistinct(items: seq<string>, inputs: seq<string>)
    requires NoDuplicates(items)
    ensures NoDuplicates(AddAll(items, inputs))
    ensures forall x :: x in items ==> x in AddAll(items, inputs)
    ensures forall i :: 0 <= i < |inputs| && Trim(inputs[i]) != [] ==> Trim(inputs[i]) in AddAll(items, inputs)
    decreases |inputs|
  {
    if inputs != [] {
      var next := AddItem(items, inputs[0]);
      AddAllKeepsDistinct(next, inputs[1..]);
      forall i | 0 <= i < |inputs| && Trim(inputs[i]) != [] ensures Trim(inputs[i]) in AddAll(items, inputs) {
        if i > 0 {
          assert inputs[i] == inputs[1..][i - 1];
        }
      }
    }
  }

  /** Removing an entry keeps a duplicate-free list duplicate-free. */
  lemma RemoveKeepsDistinct(items: seq<string>, i: nat)
    requires NoDuplicates(items)
    ensures NoDuplicates(RemoveAt(items, i))
  {
    var r := RemoveAt(items, i);
    forall a, b | 0 <= a < b < |r| ensures r[a] != r[b] {
      var a' := if a < i then a else a + 1;
      var b' := if b < i then b else b + 1;
      assert r[a] == items[a'] && r[b] == items[b'] && a' < b';
    }
  }

  /** `handleAddTag`: the tag input's Enter handler; nothing else changes. */
  function AddTag(f: EditorForm, input: string): (r: EditorForm)
    ensures r == f.(tags := r.tags)
    ensures NoDuplicates(f.tags) ==> NoDuplicates(r.tags)
    ensures Trim(input) != [] ==> Trim(input) in r.tags
  {
    f.(tags := AddItem(f.tags, input))
  }

  /** The keyword input's Enter handler; nothing else changes. */
  function AddKeyword(f: EditorForm, input: string): (r: EditorForm)
    ensures r == f.(seoKeywords := r.seoKeywords)
    ensures NoDuplicates(f.seoKeywords) ==> NoDuplicates(r.seoKeywords)
    ensures Trim(input) != [] ==> Trim(input) in r.seoKeywords
  {
    f.(seoKeywords := AddItem(f.seoKeywords, input))
  }

  /** The remove button of tag `i`: that tag goes, the others keep their order. */
  function RemoveTag(f: EditorForm, i: nat): (r: EditorForm)
    ensures r == f.(tags := r.tags)
    ensures i < |f.tags| ==> |r.tags| == |f.tags| - 1 && InsertAt(r.tags, i, f.tags[i]) == f.tags
  {
    if i < |f.tags| then RemoveAtInsertAt(f.tags, i); f.(tags := RemoveAt(f.tags, i))
    else f.(tags := RemoveAt(f.tags, i))
  }

  /** The remove button of keyword `i`. */
  function RemoveKeyword(f: EditorForm, i: nat): (r: EditorForm)
    ensures r == f.(seoKeywords := r.seoKeywords)
    ensures i < |f.seoKeywords| ==> |r.seoKeywords| == |f.seoKeywords| - 1 && InsertAt(r.seoKeywords, i, f.seoKeywords[i]) == f.seoKeywords
  {
    if i < |f.seoKeywords| then RemoveAtInsertAt(f.seoKeywords, i); f.(seoKeywords := RemoveAt(f.seoKeywords, i))
    else f.(seoKeywords := RemoveAt(f.seoKeywords, i))
  }

  /** The remove button of summary point `i`. */
  function RemovePoint(f: EditorForm, i: nat): (r: EditorForm)
    ensures r == f.(summary := r.summary)
    ensures i < |f.summary| ==> |r.summary| == |f.summary| - 1 && InsertAt(r.summary, i, f.summary[i]) == f.summary
  {
    if i < |f.summary| then RemoveAtInsertAt(f.summary, i); f.(summary := RemoveAt(f.summary, i))
    else f.(summary := RemoveAt(f.summary, i))
  }

  /** Typing into summary point `i`: only that point changes. */
  function EditPoint(f: EditorForm, i: nat, value: string): (r: EditorForm)
    requires i < |f.summary|
    ensures r == f.(summary := r.summary)
    ensures |r.summary| == |f.summary| && r.summary[i] == value
    ensures forall j :: 0 <= j < |f.summary| && j != i ==> r.summary[j] == f.summary[j]
  {
    f.(summary := f.summary[i := value])
  }

  /** The add-point button: one empty point at the end. */
  function AddPoint(f: EditorForm): (r: EditorForm)
    ensures r == f.(summary := r.summary)
    ensures |r.summary| == |f.summary| + 1 && r.summary[..|f.summary|] == f.summary && r.summary[|f.summary|] == []
  {
    f.(summary := f.summary + [""])
  }

  // ---------------------------------------------------------------------------------------------
  // AI output and status
  // ---------------------------------------------------------------------------------------------

  /** What the AI panel hands back: any of the three sections. */
  datatype AiPatch = AiPatch(summary: Option<seq<string>>, tags: Option<seq<string>>, seo: Option<Seo>)

  /** `handleAIApply`: replace each section the patch carries; keep the rest. */
  function ApplyAi(f: EditorForm, p: AiPatch): (r: EditorForm)
    ensures r.id == f.id && r.title == f.title && r.content == f.content && r.category == f.category
    ensures r.featuredImage == f.featuredImage && r.status == f.status
    ensures p.summary.None? ==> r.summary == f.summary
    ensures p.tags.None? ==> r.tags == f.tags
    ensures p.seo.None? ==> r.seoTitle == f.seoTitle && r.seoDescription == f.seoDescription && r.seoKeywords == f.seoKeywords
  {
    var withSummary := if p.summary.Some? then f.(summary := p.summary.value) else f;
    var withTags := if p.tags.Some? then withSummary.(tags := p.tags.value) else withSummary;
    match p.seo
    case None => withTags
    case Some(seo) => withTags.(seoTitle := seo.title, seoDescription := seo.metaDescription, seoKeywords := seo.keywords)
  }

  /** Applying the same AI output twice is applying it once. */
  lemma ApplyAiIdempotent(f: EditorForm, p: AiPatch)
    ensures ApplyAi(ApplyAi(f, p), p) == ApplyAi(f, p)
  {
  }

  /** An empty patch changes nothing. */
  lemma ApplyNothing(f: EditorForm)
    ensures ApplyAi(f, AiPatch(None, None, None)) == f
  {
  }

  /** After applying all three sections, a save sends exactly the AI's summary, tags and SEO record. */
  lemma ApplyThenSaveSendsAiOutput(f: EditorForm, summary: seq<string>, tags: seq<string>, seo: Seo)
    requires f.title != [] && f.content != [] && f.category != []
    ensures var r := Save(ApplyAi(f, AiPatch(Some(summary), Some(tags), Some(seo))), None);
      r.Some? && r.value.data.summary == summary && r.value.data.tags == tags && r.value.data.seo == seo
  {
  }

  /**
   * `handleStatusChange(newStatus)`: an unsaved article takes the status at once; a saved one only
   * when the server accepted the update.
   */
  function StatusChange(f: EditorForm, newStatus: Status, accepted: bool): (r: EditorForm)
    ensures r == f.(status := r.status)
    ensures f.id.None? ==> r.status == newStatus
    ensures f.id.Some? ==> (r.status == newStatus || r == f) && (!accepted ==> r == f)
    ensures f.id.Some? && accepted ==> r.status == newStatus
  {
    if f.id.None? || accepted then f.(status := newStatus) else f
  }

  /** The request the status menu sends: none for an unsaved article. */
  function StatusRequest(f: EditorForm, newStatus: Status): (r: Option<(string, Status)>)
    ensures r.Some? <==> f.id.Some?
    ensures r.Some? ==> r.value == (f.id.value, newStatus)
  {
    match f.id
    case None => None
    case Some(id) => Some((id, newStatus))
  }

  /** A status chosen on an unsaved article travels with its first save. */
  lemma UnsavedStatusTravelsWithSave(f: EditorForm, newStatus: Status, accepted: bool)
    requires f.id.None? && f.title != [] && f.content != [] && f.category != []
    ensures StatusRequest(f, newStatus).None?
    ensures Save(StatusChange(f, newStatus, accepted), None) == Some(CreateRequest(Save(f, Some(newStatus)).value.data))
  {
  }
}
