/**
 * The five AI endpoints: each checks its request body field by field, answers the first failed
 * check with 400 and its code, and only then calls the service. A service failure is thrown and
 * reaches the client through the error handler as 500 INTERNAL_ERROR.
 */
module AiController {
  import opened Wrappers
  import opened Text
  import opened Domain
  import opened ArticleModel
  import opened GeminiService
  import opened GeminiSeo
  import opened GeminiComplete
  import opened GeminiCalls

  /** A field of the JSON body: absent (or `null`), a string, or a value of another type. */
  datatype Field = Absent | Str(text: string) | NonString

  /** The request body fields the endpoints read. */
  datatype AiBody = AiBody(title: Field, content: Field, direction: Field)

  datatype Endpoint = SummarizeEndpoint | TagsEndpoint | SeoEndpoint | TranslateEndpoint | CompleteEndpoint

  /** The `data` of a successful answer. */
  datatype AiData =
    | SummaryData(summary: seq<string>)
    | TagsData(tags: seq<string>)
    | SeoData(seo: Seo)
    | TranslationData(translation: string)
    | CompleteData(output: GeminiOutput)

  /** The least length of an article to summarise, in UTF-16 code units. */
  const MinSummaryContent: nat := 50

  /** `!x || typeof x !== 'string'` fails: the field is a non-empty string. */
  predicate GivenText(f: Field) {
    f.Str? && f.text != []
  }

  /** `['HI_TO_EN', 'EN_TO_HI'].includes(direction)`: one of the two names, exactly. */
  predicate KnownDirection(f: Field) {
    f == Str("HI_TO_EN") || f == Str("EN_TO_HI")
  }

  function BadRequest(code: ErrorCode): Rejection {
    Rejection(400, code)
  }

  /** The checks of each handler, in the order its code runs them; `None` when all pass. */
  function Validate(e: Endpoint, body: AiBody): (r: Option<Rejection>)
    ensures r.Some? ==> r.value.status == 400
    ensures r.None? ==> GivenText(body.content)
  {
    match e
    case SummarizeEndpoint =>
      if !GivenText(body.content) then Some(BadRequest(InvalidContent))
      else if Units(body.content.text) < MinSummaryContent then Some(BadRequest(ContentTooShort))
      else None
    case TagsEndpoint =>
      if !GivenText(body.content) then Some(BadRequest(InvalidContent)) else None
    case SeoEndpoint =>
      if !GivenText(body.title) then Some(BadRequest(InvalidTitle))
      else if !GivenText(body.content) then Some(BadRequest(InvalidContent))
      else None
    case TranslateEndpoint =>
      if !GivenText(body.content) then Some(BadRequest(InvalidContent))
      else if !KnownDirection(body.direction) then Some(BadRequest(InvalidDirection))
      else None
    case CompleteEndpoint =>
      if !GivenText(body.title) then Some(BadRequest(InvalidTitle))
      else if !GivenText(body.content) then Some(BadRequest(InvalidContent))
      else None
  }

  /** The service call behind each endpoint, on a body that passed its checks; `None` when it throws. */
  function Serve(e: Endpoint, body: AiBody, ask: Prompt -> Option<string>): Option<AiData>
    requires Validate(e, body).None?
  {
    var content := body.content.text;
    match e
    case SummarizeEndpoint =>
      (match Summarize(content, ask) case None => None case Some(p) => Some(SummaryData(p)))
    case TagsEndpoint =>
      (match SuggestTags(content, ask) case None => None case Some(t) => Some(TagsData(t)))
    case SeoEndpoint =>
      (match GenerateSeo(body.title.text, content, ask) case None => None case Some(s) => Some(SeoData(s)))
    case TranslateEndpoint =>
      (match Translate(content, body.direction.text, ask) case None => None case Some(t) => Some(TranslationData(t)))
    case CompleteEndpoint =>
      (match CompleteAssist(body.title.text, content, ask) case None => None case Some(o) => Some(CompleteData(o)))
  }

  /**
   * One endpoint's answer: a rejection, the service's result, or 500 INTERNAL_ERROR when the
   * service throws.
   */
  function HandleAi(e: Endpoint, body: AiBody, ask: Prompt -> Option<string>): (r: Result<AiData, Rejection>)
    ensures Validate(e, body).Some? ==> r == Err(Validate(e, body).value)
    ensures r.Err? && Validate(e, body).None? ==> r.error == Rejection(500, InternalError)
  {
    match Validate(e, body)
    case Some(rejection) => Err(rejection)
    case None =>
      match Serve(e, body, ask)
      case None => Err(Rejection(500, InternalError))
      case Some(data) => Ok(data)
  }

  // ---------------------------------------------------------------------------------------------
  // The checks as a table
  // ---------------------------------------------------------------------------------------------

  /** One check of a request body. */
  datatype Check = TitleCheck | ContentCheck | LengthCheck | DirectionCheck

  /** Each endpoint's checks, in order. */
  function Checks(e: Endpoint): seq<Check> {
    match e
    case SummarizeEndpoint => [ContentCheck, LengthCheck]
    case TagsEndpoint => [ContentCheck]
    case SeoEndpoint => [TitleCheck, ContentCheck]
    case TranslateEndpoint => [ContentCheck, DirectionCheck]
    case CompleteEndpoint => [TitleCheck, ContentCheck]
  }

  /** Whether a body passes one check; the length check reads only a string. */
  predicate Passes(c: Check, body: AiBody) {
    match c
    case TitleCheck => GivenText(body.title)
    case ContentCheck => GivenText(body.content)
    case LengthCheck => body.content.Str? && Units(body.content.text) >= MinSummaryContent
    case DirectionCheck => KnownDirection(body.direction)
  }

  /** The code a failed check answers with. */
  function CheckCode(c: Check): ErrorCode {
    match c
    case TitleCheck => InvalidTitle
    case ContentCheck => InvalidContent
    case LengthCheck => ContentTooShort
    case DirectionCheck => InvalidDirection
  }

  /** The index of the first check from `from` on that the body fails. */
  function FirstFailure(checks: seq<Check>, body: AiBody, from: nat): (r: Option<nat>)
    requires from <= |checks|
    ensures r.None? <==> forall i :: from <= i < |checks| ==> Passes(checks[i], body)
    ensures r.Some? ==> from <= r.value < |checks| && !Passes(checks[r.value], body)
    ensures r.Some? ==> forall j :: from <= j < r.value ==> Passes(checks[j], body)
    decreases |checks| - from
  {
    if from == |checks| then None
    else if !Passes(checks[from], body) then Some(from)
    else FirstFailure(checks, body, from + 1)
  }

  /** Every handler answers the first check of its table that the body fails, and passes a body that fails none. */
  lemma ValidateFollowsTable(e: Endpoint, body: AiBody)
    ensures var first := FirstFailure(Checks(e), body, 0);
      Validate(e, body) == if first.None? then None else Some(BadRequest(CheckCode(Checks(e)[first.value])))
  {
  }

  /** A service call happens only on a body that passes every check, and its result alone decides the answer. */
  lemma RejectedBeforeService(e: Endpoint, body: AiBody, ask: Prompt -> Option<string>, other: Prompt -> Option<string>)
    requires exists i :: 0 <= i < |Checks(e)| && !Passes(Checks(e)[i], body)
    ensures HandleAi(e, body, ask) == HandleAi(e, body, other)
    ensures HandleAi(e, body, ask).Err? && HandleAi(e, body, ask).error.status == 400
  {
    ValidateFollowsTable(e, body);
  }

  /** A bad title is reported before bad content. */
  lemma TitleCheckedFirst(e: Endpoint, body: AiBody, ask: Prompt -> Option<string>)
    requires e == SeoEndpoint || e == CompleteEndpoint
    requires !GivenText(body.title)
    ensures HandleAi(e, body, ask) == Err(Rejection(400, InvalidTitle))
  {
  }

  /** Summarising answers CONTENT_TOO_SHORT exactly for a non-empty string of fewer than fifty characters. */
  lemma ShortContentRejected(body: AiBody, ask: Prompt -> Option<string>)
    ensures HandleAi(SummarizeEndpoint, body, ask) == Err(Rejection(400, ContentTooShort))
      <==> GivenText(body.content) && Units(body.content.text) < MinSummaryContent
  {
  }

  /** Translation runs exactly for the two direction names, each in its own direction. */
  lemma TranslateDirection(body: AiBody, ask: Prompt -> Option<string>)
    requires GivenText(body.content)
    ensures HandleAi(TranslateEndpoint, body, ask) == Err(Rejection(400, InvalidDirection)) <==> !KnownDirection(body.direction)
    ensures body.direction == Str("HI_TO_EN") ==>
      HandleAi(TranslateEndpoint, body, ask) ==
        (match ask(TranslatePrompt(Hindi, English, body.content.text))
         case None => Err(Rejection(500, InternalError))
         case Some(reply) => Ok(TranslationData(Trim(reply))))
  {
  }
}
