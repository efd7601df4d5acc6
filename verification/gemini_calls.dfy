/**
 * The five calls of the Gemini service: what each puts in front of the model and how it reads the
 * reply. The model itself is a parameter `ask`, the text it returns for a prompt, or `None` when
 * every attempt failed and the service throws.
 */
module GeminiCalls {
  import opened Wrappers
  import opened Seqs
  import opened Text
  import opened GeminiService
  import opened GeminiSeo
  import opened GeminiComplete
  import opened ArticleModel

  /** The most UTF-16 code units of the article each prompt quotes. */
  const TagsExcerpt: nat := 2000
  const SeoExcerpt: nat := 3000
  const CompleteExcerpt: nat := 4000

  /** The two languages of the translator. */
  datatype Language = Hindi | English

  /**
   * What a prompt is made from; its fixed wording is left out. The summary and translation prompts
   * quote the whole text, the others an excerpt.
   */
  datatype Prompt =
    | SummaryPrompt(content: string)
    | TagsPrompt(excerpt: string)
    | SeoPrompt(title: string, excerpt: string)
    | TranslatePrompt(from: Language, to: Language, text: string)
    | CompletePrompt(title: string, excerpt: string)

  /** `translate`'s languages: `HI_TO_EN` is Hindi to English, anything else English to Hindi. */
  function Languages(direction: string): (r: (Language, Language))
    ensures r.0 != r.1
    ensures r.0 == Hindi <==> direction == "HI_TO_EN"
  {
    if direction == "HI_TO_EN" then (Hindi, English) else (English, Hindi)
  }

  /** The two accepted directions translate between the same languages, the opposite way round. */
  lemma DirectionsOpposite()
    ensures Languages("HI_TO_EN") == (Languages("EN_TO_HI").1, Languages("EN_TO_HI").0)
  {
  }

  /** `summarizeArticle`: the points of the reply to the summary prompt. */
  function Summarize(content: string, ask: Prompt -> Option<string>): (r: Option<seq<string>>)
    ensures r.None? <==> ask(SummaryPrompt(content)).None?
    ensures r.Some? ==> |r.value| <= SummaryLimit
  {
    match ask(SummaryPrompt(content))
    case None => None
    case Some(reply) => Some(ParseSummary(reply))
  }

  /** `suggestTags`: the tags of the reply to a prompt quoting the first 2000 code units. */
  function SuggestTags(content: string, ask: Prompt -> Option<string>): (r: Option<seq<string>>)
    ensures r.None? <==> ask(TagsPrompt(TakeUnits(content, TagsExcerpt))).None?
    ensures r.Some? ==> |r.value| <= TagLimit
  {
    match ask(TagsPrompt(TakeUnits(content, TagsExcerpt)))
    case None => None
    case Some(reply) => Some(ParseTags(reply))
  }

  /** `generateSEO`: the SEO fields of the reply to a prompt quoting the title and 3000 code units. */
  function GenerateSeo(title: string, content: string, ask: Prompt -> Option<string>): (r: Option<Seo>)
    ensures r.None? <==> ask(SeoPrompt(title, TakeUnits(content, SeoExcerpt))).None?
    ensures r.Some? ==> Units(r.value.title) <= TitleLimit && Units(r.value.metaDescription) <= DescriptionLimit
  {
    match ask(SeoPrompt(title, TakeUnits(content, SeoExcerpt)))
    case None => None
    case Some(reply) => Some(ParseSEO(reply))
  }

  /** `translate`: the reply to the translation prompt, trimmed. */
  function Translate(content: string, direction: string, ask: Prompt -> Option<string>): (r: Option<string>)
    ensures var (from, to) := Languages(direction);
      r.None? <==> ask(TranslatePrompt(from, to, content)).None?
    ensures r.Some? ==> Trimmed(r.value)
  {
    var (from, to) := Languages(direction);
    match ask(TranslatePrompt(from, to, content))
    case None => None
    case Some(reply) => Some(Trim(reply))
  }

  /** `completeAIAssist`: the three sections of the reply to a prompt quoting the title and 4000 code units. */
  function CompleteAssist(title: string, content: string, ask: Prompt -> Option<string>): (r: Option<GeminiOutput>)
    ensures r.None? <==> ask(CompletePrompt(title, TakeUnits(content, CompleteExcerpt))).None?
    ensures r.Some? ==> |r.value.summary| <= SummaryLimit && |r.value.tags| <= TagLimit
  {
    match ask(CompletePrompt(title, TakeUnits(content, CompleteExcerpt)))
    case None => None
    case Some(reply) => Some(ParseComplete(reply))
  }

  /** Two texts that agree on their first `n` code points quote the same excerpt of `n` code units. */
  lemma SameExcerpt(a: string, b: string, n: nat)
    requires |a| >= n && |b| >= n && a[..n] == b[..n]
    ensures TakeUnits(a, n) == TakeUnits(b, n)
  {
    TakeUnitsOfPrefix(a, n, n);
    TakeUnitsOfPrefix(b, n, n);
  }

  /** What follows the first 2000, 3000 or 4000 code points cannot change the answer. */
  lemma ExcerptsIgnoreTail(title: string, a: string, b: string, ask: Prompt -> Option<string>)
    requires |a| >= CompleteExcerpt && |b| >= CompleteExcerpt
    ensures a[..TagsExcerpt] == b[..TagsExcerpt] ==> SuggestTags(a, ask) == SuggestTags(b, ask)
    ensures a[..SeoExcerpt] == b[..SeoExcerpt] ==> GenerateSeo(title, a, ask) == GenerateSeo(title, b, ask)
    ensures a[..CompleteExcerpt] == b[..CompleteExcerpt] ==> CompleteAssist(title, a, ask) == CompleteAssist(title, b, ask)
  {
    if a[..TagsExcerpt] == b[..TagsExcerpt] {
      TagsIgnoreTail(a, b, ask);
    }
    if a[..SeoExcerpt] == b[..SeoExcerpt] {
      SeoIgnoresTail(title, a, b, ask);
    }
    if a[..CompleteExcerpt] == b[..CompleteExcerpt] {
      CompleteIgnoresTail(title, a, b, ask);
    }
  }

  lemma TagsIgnoreTail(a: string, b: string, ask: Prompt -> Option<string>)
    requires |a| >= TagsExcerpt && |b| >= TagsExcerpt && a[..TagsExcerpt] == b[..TagsExcerpt]
    ensures SuggestTags(a, ask) == SuggestTags(b, ask)
  {
    SameExcerpt(a, b, TagsExcerpt);
    assert TagsPrompt(TakeUnits(a, TagsExcerpt)) == TagsPrompt(TakeUnits(b, TagsExcerpt));
  }

  lemma SeoIgnoresTail(title: string, a: string, b: string, ask: Prompt -> Option<string>)
    requires |a| >= SeoExcerpt && |b| >= SeoExcerpt && a[..SeoExcerpt] == b[..SeoExcerpt]
    ensures GenerateSeo(title, a, ask) == GenerateSeo(title, b, ask)
  {
    SameExcerpt(a, b, SeoExcerpt);
    assert SeoPrompt(title, TakeUnits(a, SeoExcerpt)) == SeoPrompt(title, TakeUnits(b, SeoExcerpt));
  }

  lemma CompleteIgnoresTail(title: string, a: string, b: string, ask: Prompt -> Option<string>)
    requires |a| >= CompleteExcerpt && |b| >= CompleteExcerpt && a[..CompleteExcerpt] == b[..CompleteExcerpt]
    ensures CompleteAssist(title, a, ask) == CompleteAssist(title, b, ask)
  {
    SameExcerpt(a, b, CompleteExcerpt);
    assert CompletePrompt(title, TakeUnits(a, CompleteExcerpt)) == CompletePrompt(title, TakeUnits(b, CompleteExcerpt));
  }

  /** A short article is quoted whole. */
  lemma ShortArticleQuotedWhole(content: string)
    requires Units(content) <= TagsExcerpt
    ensures TakeUnits(content, TagsExcerpt) == content && TakeUnits(content, SeoExcerpt) == content
    ensures TakeUnits(content, CompleteExcerpt) == content
  {
  }

  /** A reply that is already trimmed comes back unchanged from the translator. */
  lemma TranslationKeepsTrimmedReply(content: string, direction: string, ask: Prompt -> Option<string>)
    requires var (from, to) := Languages(direction);
      ask(TranslatePrompt(from, to, content)).Some? && Trimmed(ask(TranslatePrompt(from, to, content)).value)
    ensures Translate(content, direction, ask) == ask(TranslatePrompt(Languages(direction).0, Languages(direction).1, content))
  {
  }
}
