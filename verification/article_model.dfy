/**
 * The Article document: its fields, the setters and validators of its schema, the pre-save hook
 * that stamps the publication time, view counting, and the unique-slug generator.
 */
module ArticleModel {
  import opened Wrappers
  import opened Seqs
  import opened Text
  import opened Domain

  type ArticleId = nat
  type UserId = nat
  type CategoryId = nat

  /** The embedded SEO record; an absent title or description is the empty string. */
  datatype Seo = Seo(title: string, metaDescription: string, keywords: seq<string>)

  /** The schema default for `seo`: an empty record. */
  const EmptySeo := Seo("", "", [])

  /** A stored article. `publishedAt` is a reading of the model clock. */
  datatype Article = Article(
    title: string,
    slug: string,
    content: string,
    summary: seq<string>,
    tags: seq<string>,
    seo: Seo,
    status: Status,
    author: UserId,
    category: CategoryId,
    featuredImage: string,
    pdfUrl: Option<string>,
    publishedAt: Option<nat>,
    viewCount: nat)

  // ---------------------------------------------------------------------------------------------
  // Slugs
  // ---------------------------------------------------------------------------------------------

  /** The characters a generated slug is made of: lower-case ASCII letters, digits, `_` and `-`. */
  predicate IsSlugChar(c: char) {
    IsAsciiLower(c) || IsDigit(c) || c == '_' || c == '-'
  }

  /** The characters `[^\w\s-]` does not remove. */
  predicate KeptInSlug(c: char) {
    IsWordChar(c) || IsSpace(c) || c == '-'
  }

  /** `replace(/\s+/g, '-')`: every maximal run of white space becomes a single hyphen. */
  function CollapseSpaces(s: string): (r: string)
    ensures NoneOf(r, IsSpace)
    ensures |r| <= |s|
    ensures forall i :: 0 <= i < |r| ==> r[i] == '-' || r[i] in s
    ensures NoneOf(s, IsSpace) ==> r == s
    decreases |s|
  {
    if s == [] then []
    else if IsSpace(s[0]) then
      var rest := TrimStart(s);
      assert forall i :: 0 <= i < |rest| ==> rest[i] == s[|s| - |rest| + i];
      "-" + CollapseSpaces(rest)
    else
      [s[0]] + CollapseSpaces(s[1..])
  }

  /** The base slug of a title: lower-cased, symbols removed, white-space runs hyphenated, cut at 100. */
  function BaseSlug(title: string): (r: string)
    ensures |r| <= 100
    ensures All(r, IsSlugChar)
  {
    var lowered := Lower(title);
    var kept := Filter(KeptInSlug, lowered);
    forall i | 0 <= i < |kept| ensures !IsAsciiUpper(kept[i]) {
      var j :| 0 <= j < |lowered| && lowered[j] == kept[i];
    }
    var hyphenated := CollapseSpaces(kept);
    Take(hyphenated, 100)
  }

  /** A string that is already a slug: at most 100 slug characters. */
  predicate IsBaseSlug(s: string) {
    |s| <= 100 && All(s, IsSlugChar)
  }

  /** The base slug of a slug is itself; so deriving a base slug is idempotent. */
  lemma BaseSlugOfSlug(s: string)
    requires IsBaseSlug(s)
    ensures BaseSlug(s) == s
    ensures BaseSlug(BaseSlug(s)) == BaseSlug(s)
  {
    assert Lower(s) == s by {
      LowerIdentity(s);
    }
    assert Filter(KeptInSlug, s) == s by {
      assert forall i :: 0 <= i < |s| ==> KeptInSlug(s[i]);
      FilterKeepsAll(KeptInSlug, s);
    }
    assert CollapseSpaces(s) == s by {
      assert NoneOf(s, IsSpace);
    }
    assert Take(s, 100) == s;
  }

  /** A title with no ASCII word character, white space or hyphen (all Devanagari, say) has an empty base slug. */
  lemma BaseSlugDropsScript(title: string)
    requires NoneOf(title, KeptInSlug)
    ensures BaseSlug(title) == ""
  {
    var lowered := Lower(title);
    assert forall i :: 0 <= i < |lowered| ==> lowered[i] == title[i];
    var kept := Filter(KeptInSlug, lowered);
    if kept != [] {
      var j :| 0 <= j < |lowered| && lowered[j] == kept[0];
      assert false;
    }
  }

  /** `${baseSlug}-${counter}`. */
  function Suffixed(base: string, k: nat): string {
    base + "-" + NatToString(k)
  }

  /** Different counters give different slugs, and a suffixed slug is never the base itself. */
  lemma SuffixedInjective(base: string, j: nat, k: nat)
    ensures Suffixed(base, j) == Suffixed(base, k) ==> j == k
    ensures Suffixed(base, k) != base && |Suffixed(base, k)| > |base|
  {
    if Suffixed(base, j) == Suffixed(base, k) {
      var n := |base| + 1;
      assert NatToString(j) == Suffixed(base, j)[n..];
      assert NatToString(k) == Suffixed(base, k)[n..];
      NatToStringInjective(j, k);
    }
  }

  /** Suffixing a slug keeps it a string of slug characters. */
  lemma SuffixedSlugChars(base: string, k: nat)
    requires All(base, IsSlugChar)
    ensures All(Suffixed(base, k), IsSlugChar)
  {
    var s := Suffixed(base, k);
    forall i | 0 <= i < |s| ensures IsSlugChar(s[i]) {
      if i > |base| {
        assert s[i] == NatToString(k)[i - |base| - 1];
      }
    }
  }

  /** The suffixed slugs `base-1` … `base-k`. */
  function SuffixSet(base: string, k: nat): set<string>
    decreases k
  {
    if k == 0 then {} else SuffixSet(base, k - 1) + {Suffixed(base, k)}
  }

  /** `SuffixSet(base, k)` holds `base-1` … `base-k`, each longer than `base`. */
  lemma {:induction false} SuffixSetMembers(base: string, k: nat)
    ensures forall j :: 1 <= j <= k ==> Suffixed(base, j) in SuffixSet(base, k)
    ensures forall x :: x in SuffixSet(base, k) ==> exists j :: 1 <= j <= k && x == Suffixed(base, j)
    decreases k
  {
    if k > 0 {
      SuffixSetMembers(base, k - 1);
    }
  }

  /** Every member of `SuffixSet(base, k)` is longer than `base`, so `base` is not one of them. */
  lemma SuffixSetExcludesBase(base: string, k: nat)
    ensures base !in SuffixSet(base, k)
  {
    SuffixSetMembers(base, k);
  }

  /** The counters `1` … `k` give `k` distinct slugs. */
  lemma {:induction false} SuffixSetSize(base: string, k: nat)
    ensures |SuffixSet(base, k)| == k
    decreases k
  {
    if k > 0 {
      SuffixSetSize(base, k - 1);
      SuffixSetMembers(base, k - 1);
      if Suffixed(base, k) in SuffixSet(base, k - 1) {
        var j :| 1 <= j <= k - 1 && Suffixed(base, k) == Suffixed(base, j);
        SuffixedInjective(base, j, k);
      }
    }
  }

  /** `base-n` is the first free suffixed slug: it is free and `base-1` … `base-(n-1)` are taken. */
  predicate FirstFree(base: string, taken: set<string>, n: nat) {
    && n >= 1
    && Suffixed(base, n) !in taken
    && forall j :: 1 <= j < n ==> Suffixed(base, j) in taken
  }

  /**
   * The loop of `generateSlug` from counter `k` on, when `base-1` … `base-(k-1)` are known to be
   * taken. Each taken candidate is a distinct member of `taken`, so the search stops by `|taken| + 1`.
   */
  function FirstFreeSuffix(base: string, taken: set<string>, k: nat): (n: nat)
    requires k >= 1
    requires SuffixSet(base, k - 1) <= taken
    ensures k <= n <= |taken| + 1
    ensures Suffixed(base, n) !in taken
    ensures forall j :: k <= j < n ==> Suffixed(base, j) in taken
    ensures SuffixSet(base, n - 1) <= taken
    decreases |taken| + 1 - k
  {
    TakenSuffixesBound(base, taken, k - 1);
    if Suffixed(base, k) !in taken then k
    else
      assert SuffixSet(base, k) == SuffixSet(base, k - 1) + {Suffixed(base, k)};
      TakenSuffixesBound(base, taken, k);
      var n := FirstFreeSuffix(base, taken, k + 1);
      assert forall j :: k < j < n ==> Suffixed(base, j) in taken;
      n
  }

  /** When `base-1` … `base-k` are all taken, there are at least `k` taken slugs. */
  lemma TakenSuffixesBound(base: string, taken: set<string>, k: nat)
    requires SuffixSet(base, k) <= taken
    ensures k <= |taken|
  {
    SuffixSetSize(base, k);
    SubsetCardinality(SuffixSet(base, k), taken);
  }

  /** A subset is no larger than its superset. */
  lemma SubsetCardinality<T>(a: set<T>, b: set<T>)
    requires a <= b
    ensures |a| <= |b|
  {
    assert b == a + (b - a);
  }

  /** `generateSlug`: the base slug when no article uses it, otherwise `base-n` for the first free `n`. */
  function GenerateSlug(title: string, taken: set<string>): (r: string)
    ensures r !in taken
    ensures All(r, IsSlugChar)
    ensures BaseSlug(title) !in taken ==> r == BaseSlug(title)
    ensures BaseSlug(title) in taken ==>
      exists n :: 1 <= n <= |taken| && FirstFree(BaseSlug(title), taken, n) && r == Suffixed(BaseSlug(title), n)
  {
    var base := BaseSlug(title);
    if base !in taken then base
    else
      var n := FirstFreeSuffix(base, taken, 1);
      SuffixedSlugChars(base, n);
      SuffixSetSize(base, n - 1);
      SuffixSetExcludesBase(base, n - 1);
      assert |SuffixSet(base, n - 1) + {base}| <= |taken| by {
        SubsetCardinality(SuffixSet(base, n - 1) + {base}, taken);
      }
      assert FirstFree(base, taken, n);
      Suffixed(base, n)
  }

  /** The first free counter is unique, so `GenerateSlug` is determined by the title and the taken slugs. */
  lemma FirstFreeUnique(base: string, taken: set<string>, m: nat, n: nat)
    requires FirstFree(base, taken, m) && FirstFree(base, taken, n)
    ensures m == n
  {
  }

  /** A title whose base slug is empty yields the empty slug, which the schema then rejects. */
  lemma ScriptOnlyTitleHasNoSlug(title: string, taken: set<string>)
    requires NoneOf(title, KeptInSlug)
    requires "" !in taken
    ensures GenerateSlug(title, taken) == ""
  {
    BaseSlugDropsScript(title);
  }

  // ---------------------------------------------------------------------------------------------
  // Schema setters and validators
  // ---------------------------------------------------------------------------------------------

  /** The setters of a stored document. */
  function ApplySetters(a: Article): (r: Article)
    ensures r.title == Trim(a.title) && r.slug == LowerTrim(a.slug)
    ensures r.summary == Map(Trim, a.summary)
    ensures r.tags == Map(LowerTrim, a.tags)
    ensures r.seo == a.seo.(keywords := Map(Trim, a.seo.keywords))
    ensures r == a.(title := r.title, slug := r.slug, summary := r.summary, tags := r.tags, seo := r.seo)
  {
    a.(title := Trim(a.title),
       slug := LowerTrim(a.slug),
       summary := Map(Trim, a.summary),
       tags := Map(LowerTrim, a.tags),
       seo := a.seo.(keywords := Map(Trim, a.seo.keywords)))
  }

  /** Every string field a setter touches is already in its set form. */
  predicate SettersApplied(a: Article) {
    && Trimmed(a.title)
    && Trimmed(a.slug) && (forall i :: 0 <= i < |a.slug| ==> !IsAsciiUpper(a.slug[i]))
    && (forall i :: 0 <= i < |a.summary| ==> Trimmed(a.summary[i]))
    && (forall i :: 0 <= i < |a.tags| ==> a.tags[i] == LowerTrim(a.tags[i]))
    && (forall i :: 0 <= i < |a.seo.keywords| ==> Trimmed(a.seo.keywords[i]))
  }

  /** The setters bring a document into set form, and a document in set form is their fixed point. */
  lemma ApplySettersFixedPoint(a: Article)
    ensures SettersApplied(ApplySetters(a))
    ensures SettersApplied(a) ==> ApplySetters(a) == a
    ensures ApplySetters(ApplySetters(a)) == ApplySetters(a)
  {
    ApplySettersNormalises(a);
    ApplySettersIdentity(ApplySetters(a));
    if SettersApplied(a) {
      ApplySettersIdentity(a);
    }
  }

  /** The setters bring any document into set form. */
  lemma ApplySettersNormalises(a: Article)
    ensures SettersApplied(ApplySetters(a))
  {
    var r := ApplySetters(a);
    forall i | 0 <= i < |r.tags| ensures r.tags[i] == LowerTrim(r.tags[i]) {
      LowerTrimIdempotent(a.tags[i]);
    }
  }

  /** On a document in set form the setters change nothing. */
  lemma ApplySettersIdentity(a: Article)
    requires SettersApplied(a)
    ensures ApplySetters(a) == a
  {
    LowerIdentity(a.slug);
    var r := ApplySetters(a);
    assert r.summary == a.summary;
    assert r.tags == a.tags;
    assert r.seo.keywords == a.seo.keywords;
  }

  /** The title validators: `required` (a non-empty string) and `maxlength: 200`, in UTF-16 code units. */
  function TitleViolations(title: string): (r: seq<string>)
    ensures r == [] <==> title != "" && Units(title) <= 200
  {
    if title == "" then ["Title is required"]
    else if Units(title) > 200 then ["Title cannot exceed 200 characters"]
    else []
  }

  /** The slug's `required` validator. */
  function SlugViolations(slug: string): (r: seq<string>)
    ensures r == [] <==> slug != ""
  {
    if slug == "" then ["Slug is required"] else []
  }

  /** The content's `required` validator. */
  function ContentViolations(content: string): (r: seq<string>)
    ensures r == [] <==> content != ""
  {
    if content == "" then ["Content is required"] else []
  }

  /** The SEO record's two `maxlength` validators. */
  function SeoViolations(seo: Seo): (r: seq<string>)
    ensures r == [] <==> Units(seo.title) <= 60 && Units(seo.metaDescription) <= 160
    ensures |r| <= 2
  {
    (if Units(seo.title) > 60 then ["SEO title should not exceed 60 characters"] else [])
    + (if Units(seo.metaDescription) > 160 then ["Meta description should not exceed 160 characters"] else [])
  }

  /** The featured image's `required` validator. */
  function ImageViolations(image: string): (r: seq<string>)
    ensures r == [] <==> image != ""
  {
    if image == "" then ["Featured image is required"] else []
  }

  /** The messages of every failing validator of a document (already passed through its setters). */
  function Violations(a: Article): (r: seq<string>)
    ensures r == [] <==> Valid(a)
    ensures |r| <= 6
  {
    TitleViolations(a.title) + SlugViolations(a.slug) + ContentViolations(a.content)
    + SeoViolations(a.seo) + ImageViolations(a.featuredImage)
  }

  /** The schema bounds on a stored article. */
  predicate Valid(a: Article) {
    && a.title != "" && Units(a.title) <= 200
    && a.slug != ""
    && a.content != ""
    && Units(a.seo.title) <= 60 && Units(a.seo.metaDescription) <= 160
    && a.featuredImage != ""
  }

  /** A document as the collection holds it: set form and valid. */
  predicate WellFormed(a: Article) {
    SettersApplied(a) && Valid(a)
  }

  // ---------------------------------------------------------------------------------------------
  // Hooks and instance methods
  // ---------------------------------------------------------------------------------------------

  /**
   * The pre-save hook: when the status was modified to PUBLISHED and no publication time is set,
   * stamp the current time. The time is never overwritten or cleared.
   */
  function PreSave(a: Article, statusModified: bool, now: nat): (r: Article)
    ensures r == a.(publishedAt := r.publishedAt)
    ensures a.publishedAt.Some? ==> r.publishedAt == a.publishedAt
    ensures r.publishedAt != a.publishedAt <==> statusModified && a.status == Published && a.publishedAt.None?
    ensures r.publishedAt != a.publishedAt ==> r.publishedAt == Some(now)
  {
    if statusModified && a.status == Published && a.publishedAt.None? then a.(publishedAt := Some(now))
    else a
  }

  /** After the hook, a document whose status was just set to PUBLISHED carries a publication time. */
  lemma PreSaveStampsPublished(a: Article, now: nat)
    requires a.status == Published
    ensures PreSave(a, true, now).publishedAt.Some?
    ensures a.publishedAt.Some? ==> PreSave(a, true, now) == a
  {
  }

  /** `incrementViews`: add one to the view count and save; the hook sees no status change. */
  function IncrementViews(a: Article, now: nat): (r: Article)
    ensures r.viewCount == a.viewCount + 1
    ensures r.(viewCount := a.viewCount) == a
  {
    PreSave(a.(viewCount := a.viewCount + 1), false, now)
  }

  /** Counting a view keeps a well-formed document well-formed. */
  lemma IncrementViewsWellFormed(a: Article, now: nat)
    requires WellFormed(a)
    ensures WellFormed(IncrementViews(a, now))
  {
  }
}
