/**
 * The enumerations shared by the back end and the admin interface: article statuses, user roles
 * and the machine-readable error codes of the API, with their wire spellings.
 */
module Domain {
  import opened Wrappers

  /** The five editorial states of an article. */
  datatype Status = Draft | SubEditorReview | EditorApproved | Published | Archived

  /** The four staff roles, from least to most privileged. */
  datatype Role = Reporter | SubEditor | Editor | Admin

  /** Every status, in declaration order. */
  const AllStatuses: seq<Status> := [Draft, SubEditorReview, EditorApproved, Published, Archived]

  /** Every role, in declaration order. */
  const AllRoles: seq<Role> := [Reporter, SubEditor, Editor, Admin]

  /** The string a status travels as in JSON and query parameters. */
  function StatusName(s: Status): string {
    match s
    case Draft => "DRAFT"
    case SubEditorReview => "SUB_EDITOR_REVIEW"
    case EditorApproved => "EDITOR_APPROVED"
    case Published => "PUBLISHED"
    case Archived => "ARCHIVED"
  }

  /** The status a string names, if any (the schema's `enum` check). */
  function ParseStatus(name: string): (r: Option<Status>)
    ensures r.Some? ==> StatusName(r.value) == name
  {
    if name == "DRAFT" then Some(Draft)
    else if name == "SUB_EDITOR_REVIEW" then Some(SubEditorReview)
    else if name == "EDITOR_APPROVED" then Some(EditorApproved)
    else if name == "PUBLISHED" then Some(Published)
    else if name == "ARCHIVED" then Some(Archived)
    else None
  }

  /** Status names round-trip, and a string parses exactly when it is some status's name. */
  lemma StatusNameRoundTrip(s: Status, name: string)
    ensures ParseStatus(StatusName(s)) == Some(s)
    ensures ParseStatus(name).Some? <==> exists t :: StatusName(t) == name
  {
  }

  /** The string a role travels as. */
  function RoleName(r: Role): string {
    match r
    case Reporter => "REPORTER"
    case SubEditor => "SUB_EDITOR"
    case Editor => "EDITOR"
    case Admin => "ADMIN"
  }

  /** The role a string names, if any. */
  function ParseRole(name: string): (r: Option<Role>)
    ensures r.Some? ==> RoleName(r.value) == name
  {
    if name == "REPORTER" then Some(Reporter)
    else if name == "SUB_EDITOR" then Some(SubEditor)
    else if name == "EDITOR" then Some(Editor)
    else if name == "ADMIN" then Some(Admin)
    else None
  }

  /** Role names round-trip. */
  lemma RoleNameRoundTrip(r: Role)
    ensures ParseRole(RoleName(r)) == Some(r)
  {
  }

  /** The `code` field of every error response the API sends. */
  datatype ErrorCode =
    | NoToken | UserNotFound | AccountInactive | TokenExpired | InvalidToken | AuthError
    | AuthRequired | Forbidden
    | ArticleNotFound | CategoryNotFound | CategoryExists | CategoryHasArticles
    | ValidationError | DuplicateError | InvalidId | FileUploadError | InternalError
    | UserExists | InvalidCredentials | NoRefreshToken | InvalidRefreshToken | EmailExists
    | InvalidContent | ContentTooShort | InvalidTitle | InvalidDirection

  /** The wire spelling of an error code. */
  function CodeName(c: ErrorCode): string {
    match c
    case NoToken => "NO_TOKEN"
    case UserNotFound => "USER_NOT_FOUND"
    case AccountInactive => "ACCOUNT_INACTIVE"
    case TokenExpired => "TOKEN_EXPIRED"
    case InvalidToken => "INVALID_TOKEN"
    case AuthError => "AUTH_ERROR"
    case AuthRequired => "AUTH_REQUIRED"
    case Forbidden => "FORBIDDEN"
    case ArticleNotFound => "ARTICLE_NOT_FOUND"
    case CategoryNotFound => "CATEGORY_NOT_FOUND"
    case CategoryExists => "CATEGORY_EXISTS"
    case CategoryHasArticles => "CATEGORY_HAS_ARTICLES"
    case ValidationError => "VALIDATION_ERROR"
    case DuplicateError => "DUPLICATE_ERROR"
    case InvalidId => "INVALID_ID"
    case FileUploadError => "FILE_UPLOAD_ERROR"
    case InternalError => "INTERNAL_ERROR"
    case UserExists => "USER_EXISTS"
    case InvalidCredentials => "INVALID_CREDENTIALS"
    case NoRefreshToken => "NO_REFRESH_TOKEN"
    case InvalidRefreshToken => "INVALID_REFRESH_TOKEN"
    case EmailExists => "EMAIL_EXISTS"
    case InvalidContent => "INVALID_CONTENT"
    case ContentTooShort => "CONTENT_TOO_SHORT"
    case InvalidTitle => "INVALID_TITLE"
    case InvalidDirection => "INVALID_DIRECTION"
  }

  /** A rejected request as the client sees it: the HTTP status and the error code. */
  datatype Rejection = Rejection(status: nat, code: ErrorCode)

  /**
   * The HTTP status the article and category controllers attach to each error they raise, and the
   * status the error handler gives a schema validation failure or a duplicate key.
   */
  function StoreErrorStatus(c: ErrorCode): nat {
    match c
    case ArticleNotFound => 404
    case CategoryNotFound => 404
    case Forbidden => 403
    case CategoryExists => 409
    case CategoryHasArticles => 400
    case ValidationError => 400
    case DuplicateError => 409
    case _ => 500
  }
}
