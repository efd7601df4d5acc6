# Lokswami newsroom CMS: a Dafny model

Lokswami is a Hindi newsroom content-management system. It has two parts:

- an Express/Mongoose back end, where staff draft, review, approve and publish articles filed under categories, and an AI service drafts summaries, tags and SEO fields;
- a React admin panel, where editors write articles, move them through the editorial workflow and manage categories.

This project models the core of both parts as pure functions over immutable data, and proves properties of that model.

**Editorial workflow.** The admin panel has a status menu with a successor table and a per-target role table (`StatusChanger`). The server has its own create, update and delete rules for articles (`ArticleController`). It keeps a publication timestamp and a denormalised per-category counter of published articles (`Storage`, `ArticleModel`, `CategoryController`). `Workflow` states where the two rule sets agree and where they do not.

**The database.** A `Store` holds:
- a map from article id to article;
- a map from category id to category;
- the next free id;
- a clock.

Every handler maps a store to a new store or to an error code. A handler that fails changes nothing.

**Access control and errors:**
- `AuthMiddleware`: the `authenticate`, `authorize` and `optionalAuth` middleware;
- `Routes`: the per-route role tables and first-match route dispatch;
- `AuthController` and `UserModel`: the outcome ladders of register, login, refresh and profile update;
- `ErrorHandler`: the error handler's mapping from error kind to status and code.

JWT signing and verification, and bcrypt hashing and comparison, are function parameters.

**Article listing.** `ArticleListing` models `GET /api/articles`: the status filter a caller may choose, the sort on `publishedAt` or `viewCount`, and the clamped page arithmetic.

**Validators.** The Article, Category and User schemas are modelled as lists of violation messages, with their setters. `AiController` models the request checks of the five AI endpoints.

**AI replies.** These modules model the parsers of the Gemini replies:
- `GeminiService`: the bullet summary and the tag list;
- `GeminiSeo`: the `/i` field patterns `LABEL\s*(.+)`, with their greedy and backtracking behaviour written out;
- `GeminiComplete`: the three-section reply.

Each parser comes with a round trip: a reply in the format the prompt asks for parses back to what was written. `GeminiCalls` models what each service call quotes from the article and how it reads the reply. The language model itself is a parameter.

**Admin panel logic:**
- `EditorPage`: the article editor's form, list edits, AI merge, save request and status change;
- `CategoriesPage`: slug derivation in the category dialog;
- `ArticlesPage`: the article list's status parameter and title search;
- `Dashboard`: the dashboard figures;
- `AdminLayout`: sidebar highlighting and the breadcrumb;
- `AuthStore`: the authentication store, including its `persist` snapshot.

**Shared strings.** `Text` models the JavaScript string operations the source relies on:
- `trim`, the `\s` class, ASCII `toLowerCase`, `split`, `includes`;
- lengths in UTF-16 code units and `substring(0, n)`;
- decimal rendering.

`Seqs`, `Sorting` and `Wrappers` hold generic sequence helpers, a stable insertion sort and `Option`/`Result`.

## Model

| member | source | states |
|---|---|---|
| Domain.ParseStatus | lokswami/backend/src/types/index.ts:21-27 | a string parses to a status only when it is that status's wire name |
| Domain.StatusNameRoundTrip | lokswami/backend/src/types/index.ts:21-27 | every status's name parses back to it, and a string parses exactly when some status has that name |
| Domain.ParseRole | lokswami/backend/src/types/index.ts:2-7 | a string parses to a role only when it is that role's wire name |
| Domain.RoleNameRoundTrip | lokswami/backend/src/types/index.ts:2-7 | every role's name parses back to that role |
| Text.Lower | lokswami/backend/src/models/Article.ts:116 | `toLowerCase` as modelled keeps the length, leaves no upper-case ASCII letter and changes nothing else |
| Text.LowerIdentity | lokswami/backend/src/models/Article.ts:116 | a string without upper-case ASCII letters is its own lower case, so lower-casing is idempotent |
| Text.Trim | lokswami/backend/src/services/gemini.service.ts:206 | `trim()` returns a trimmed string drawn from the input, and a trimmed input unchanged |
| Text.TrimIsInfix | lokswami/backend/src/services/gemini.service.ts:206 | `trim()` removes white space from the two ends and nothing else |
| Text.TrimIdempotent | lokswami/backend/src/services/gemini.service.ts:206 | trimming twice is trimming once |
| Text.TrimPadded | lokswami/backend/src/services/gemini.service.ts:224 | trimming a clean text padded with white space gives back the text |
| Text.Split | lokswami/backend/src/services/gemini.service.ts:223 | `split` yields at least one piece and no piece holds a separator |
| Text.SplitConcat | lokswami/backend/src/services/gemini.service.ts:223 | the pieces put back together are the input without its separators |
| Text.SplitNoSeparator | lokswami/backend/src/services/gemini.service.ts:223 | a string without separators is one piece |
| Text.SplitAtSeparator | lokswami/backend/src/services/gemini.service.ts:223 | the text before the first separator is the first piece and the rest splits on its own |
| Text.NatToString | lokswami/backend/src/models/Article.ts:125 | a counter renders as at least one decimal digit, a single digit exactly below ten |
| Text.NatToStringInjective | lokswami/backend/src/models/Article.ts:125 | different counters render differently, so suffixed slugs are distinct |
| Text.StrLeTotal | lokswami/backend/src/controllers/category.controller.ts:13 | any two names are comparable under the sort order |
| Text.StrLeTrans | lokswami/backend/src/controllers/category.controller.ts:13 | the sort order is transitive |
| Text.StrLeAntisym | lokswami/backend/src/controllers/category.controller.ts:13 | the sort order is antisymmetric |
| Text.Units | lokswami/backend/src/services/gemini.service.ts:245 | a string's `length` counts one or two UTF-16 units per code point |
| Text.UnitsInBasicPlane | lokswami/backend/src/services/gemini.service.ts:245 | in the basic plane the length in units is the number of code points |
| Text.UnitsAppend | lokswami/backend/src/services/gemini.service.ts:245 | lengths in units add up over a concatenation |
| Text.TakeUnits | lokswami/backend/src/services/gemini.service.ts:245 | `substring(0, n)` stays within n units and keeps a string that already fits |
| Text.TakeUnitsLongestPrefix | lokswami/backend/src/services/gemini.service.ts:245 | the kept text is a prefix, and the next code point would not have fitted |
| Text.TakeUnitsInBasicPlane | lokswami/backend/src/services/gemini.service.ts:245 | in the basic plane `substring(0, n)` keeps the first n code points |
| Text.TakeUnitsOfPrefix | lokswami/backend/src/services/gemini.service.ts:62 | `substring(0, n)` reads no further than the first n code points |
| AuthMiddleware.BearerToken | lokswami/backend/src/middleware/auth.ts:24-36 | a header yields a token exactly when it starts with `Bearer `, and the token is everything after that prefix |
| AuthMiddleware.BearerTokenRoundTrip | lokswami/backend/src/middleware/auth.ts:36 | the header a client builds as `Bearer <token>` gives back exactly that token |
| AuthMiddleware.Authenticate | lokswami/backend/src/middleware/auth.ts:18-98 | no bearer header is 401 NO_TOKEN; a missing or empty secret is 500 AUTH_ERROR; an expired token is 401 TOKEN_EXPIRED, any other bad token 401 INVALID_TOKEN; an unknown user is 401 USER_NOT_FOUND, a deactivated one 403 ACCOUNT_INACTIVE; otherwise the decoded payload is attached |
| AuthMiddleware.AuthenticateAccepts | lokswami/backend/src/middleware/auth.ts:18-98 | a request is admitted exactly when its token verifies under a set secret for a stored, active user, and the attached payload is the token's |
| AuthMiddleware.AuthenticateRejections | lokswami/backend/src/middleware/auth.ts:26-97 | every rejection is one of the six codes, each with its own HTTP status |
| AuthMiddleware.Authorize | lokswami/backend/src/middleware/auth.ts:103-127 | the request proceeds exactly when a user is attached and their role is listed; no user is 401 AUTH_REQUIRED, an unlisted role 403 FORBIDDEN |
| AuthMiddleware.OptionalAuth | lokswami/backend/src/middleware/auth.ts:132-158 | a user is attached exactly when a bearer token verifies under a set secret; it never rejects |
| AuthMiddleware.OptionalAuthAdmitsAuthenticated | lokswami/backend/src/middleware/auth.ts:132-158 | whoever `authenticate` admits, `optionalAuth` attaches with the same payload |
| AuthMiddleware.OptionalAuthIgnoresDeactivation | lokswami/backend/src/middleware/auth.ts:46-66 | a valid token of a deleted or deactivated user is refused by `authenticate` but still attached by `optionalAuth`, which does no lookup |
| AuthMiddleware.EmptySecretIsMissing | lokswami/backend/src/middleware/auth.ts:39-41 | an empty secret behaves exactly like an unset one: `authenticate` answers 500 AUTH_ERROR and `optionalAuth` attaches nobody |
| Routes.Dispatch | lokswami/backend/src/routes/article.routes.ts:17-26 | the chosen route matches the request and no earlier route does; no route is chosen exactly when none matches |
| Routes.TrendingShadowsSlug | lokswami/backend/src/routes/article.routes.ts:18-20 | a GET of `trending`, in any letter case, reaches the trending handler and never the by-slug one |
| Routes.OtherSegmentsReachSlug | lokswami/backend/src/routes/article.routes.ts:18-20 | every other non-empty single segment reaches the by-slug handler |
| Routes.Admit | lokswami/backend/src/routes/article.routes.ts:19-26 | the guard chain in front of a handler: public routes admit with no user, `optionalAuth` never rejects, `authenticate` passes its verdict on, and `authorize` admits only an authenticated user whose role is listed |
| Routes.ReadsNeverRejected | lokswami/backend/src/routes/article.routes.ts:18-21 | public and optional-auth routes never reject a request |
| Routes.ArticleRouteGuards | lokswami/backend/src/routes/article.routes.ts:17-26 | an article route is open exactly when it is a GET, and creating an article admits all four roles |
| Routes.CategoryRouteGuards | lokswami/backend/src/routes/category.routes.ts:14-21 | category reads are public; create and update need EDITOR or ADMIN and never admit REPORTER or SUB_EDITOR; delete needs ADMIN alone |
| Routes.DeleteCategoryRequest | lokswami/backend/src/routes/category.routes.ts:21 | a category delete succeeds only for an authenticated ADMIN on a stored category whose counter is not positive, removing just that category; any other authenticated role gets 403 FORBIDDEN |
| Routes.DeleteCategoryRouted | lokswami/backend/src/routes/category.routes.ts:21 | `DELETE /:id` with a non-empty id reaches the delete handler |
| ErrorHandler.NewAppError | lokswami/backend/src/middleware/errorHandler.ts:3-13 | an `AppError` keeps its message, with status 500 and code INTERNAL_ERROR unless others are given |
| ErrorHandler.FirstKey | lokswami/backend/src/middleware/errorHandler.ts:49 | the field named in a duplicate-key message is the first key, or `undefined` when there is none |
| ErrorHandler.Handle | lokswami/backend/src/middleware/errorHandler.ts:15-111 | an `AppError` is answered with its own status, code and message; a validation error is 400 with the field messages as details, and only it has details; a duplicate key is 409 naming the first key; an unclassified error is 500 with the generic text in production and its own message otherwise |
| ErrorHandler.Lookup | lokswami/backend/src/middleware/errorHandler.ts:34-100 | the outcome of the first table row that applies to a name and server code, and none exactly when no row applies |
| ErrorHandler.RulesDistinct | lokswami/backend/src/middleware/errorHandler.ts:35-92 | no two named branches test the same name, so at most one applies to any error |
| ErrorHandler.LookupFinds | lokswami/backend/src/middleware/errorHandler.ts:34-100 | an error that a row applies to is looked up as that row's outcome |
| ErrorHandler.HandleFollowsTable | lokswami/backend/src/middleware/errorHandler.ts:34-110 | every non-`AppError` gets the status and code of the table row for its name, or 500 INTERNAL_ERROR |
| ErrorHandler.HandleRow | lokswami/backend/src/middleware/errorHandler.ts:34-100 | an error that a table row applies to gets that row's status and code |
| ErrorHandler.HandleUnclaimed | lokswami/backend/src/middleware/errorHandler.ts:102-110 | an error that no row applies to gets 500 INTERNAL_ERROR |
| ErrorHandler.UnknownIsInternal | lokswami/backend/src/middleware/errorHandler.ts:102-110 | an error whose name is not in the table gets 500 INTERNAL_ERROR |
| ErrorHandler.RejectionRoundTrip | lokswami/backend/src/middleware/errorHandler.ts:24-32 | a rejection raised by a controller as an `AppError` reaches the client with its status, code and message unchanged |
| ErrorHandler.ProductionMasksOnlyUnclassified | lokswami/backend/src/middleware/errorHandler.ts:102-110 | production mode never changes a status or code, and changes the message only of an unclassified error, to the generic text |
| ErrorHandler.OtherServerErrorsAreInternal | lokswami/backend/src/middleware/errorHandler.ts:48 | a `MongoServerError` with any server code other than 11000 is not a duplicate and gets 500 |
| UserModel.EmailShape | lokswami/backend/src/models/User.ts:24 | every address of the form `local@host.tld`, with a 2- to 4-character top-level label and allowed characters, matches the address pattern |
| UserModel.EmailNeedsDottedDomain | lokswami/backend/src/models/User.ts:24 | an address with no dot after its `@` never matches the pattern |
| UserModel.NameViolations | lokswami/backend/src/models/User.ts:14-16 | a name fails exactly when it is empty or longer than 100 UTF-16 units, with one message |
| UserModel.EmailViolations | lokswami/backend/src/models/User.ts:24 | an address fails exactly when it does not match the pattern, with one message |
| UserModel.PasswordViolations | lokswami/backend/src/models/User.ts:28-29 | a plain-text password fails exactly when it is shorter than 8 UTF-16 units, with one message |
| UserModel.RoleOf | lokswami/backend/src/models/User.ts:32-36 | an absent role is REPORTER; a given one is accepted exactly when it names a role, and then it is that role |
| UserModel.NewUser | lokswami/backend/src/models/User.ts:10-47 | a new user is accepted exactly when the trimmed name is non-empty and at most 100 units, the normalised address matches, the password has 8 or more units and any given role is valid; the document then is well formed, active, and holds the trimmed name, the normalised address, the given password and the requested role, REPORTER by default; a refusal carries at least one message |
| UserModel.Created | lokswami/backend/src/models/User.ts:10-40 | a document built from input that passes the validators is well formed and active and keeps the normalised values |
| UserModel.Violations | lokswami/backend/src/models/User.ts:12-36 | no validator message exactly when every field passes |
| UserModel.PreSave | lokswami/backend/src/models/User.ts:52-64 | the hook replaces a modified password by its hash, keeps an unmodified one, and changes no other field |
| UserModel.SaveUnmodifiedKeepsHash | lokswami/backend/src/models/User.ts:53 | saving again without touching the password never hashes the hash a second time |
| AuthController.StoreKeepsWellFormed | lokswami/backend/src/models/User.ts:10-47 | storing a document that passed the validators keeps every stored user well formed |
| AuthController.StoreKeepsUnique | lokswami/backend/src/models/User.ts:21 | storing a document whose address no other user has keeps the unique index on `email` satisfied |
| AuthController.StoreUserPreserves | lokswami/backend/src/models/User.ts:10-47 | storing such a document under an issued id keeps the whole collection invariant |
| AuthController.FindByEmail | lokswami/backend/src/controllers/auth.controller.ts:42 | the user found has the normalised address, and none is found exactly when no stored user has it |
| AuthController.PayloadOf | lokswami/backend/src/controllers/auth.controller.ts:62-66 | a token's payload carries the user's id and their stored address and role |
| AuthController.RequestedRole | lokswami/backend/src/controllers/auth.controller.ts:58 | `role \|\| 'REPORTER'`: an absent or empty role means the default, any other is passed on unchanged |
| AuthController.Register | lokswami/backend/src/controllers/auth.controller.ts:38-82 | a taken address is 409 USER_EXISTS; any other failure is 400 VALIDATION_ERROR; registration succeeds exactly when the address is free and the schema accepts the user, who is then stored under a fresh id with the password hashed and signed in |
| AuthController.RegisteredPreservesInvariant | lokswami/backend/src/controllers/auth.controller.ts:54-59 | storing a well-formed user under a fresh id and an unused address keeps ids issued, documents well formed and addresses unique |
| AuthController.RegisteredPayload | lokswami/backend/src/controllers/auth.controller.ts:62-67 | the payload of the issued tokens describes the user just stored |
| AuthController.RegisterPreservesInvariant | lokswami/backend/src/controllers/auth.controller.ts:38-82 | a successful registration keeps the collection invariant, and its payload describes an active stored user |
| AuthController.SelfRegisterAsAdmin | lokswami/backend/src/controllers/auth.controller.ts:39-59 | the role comes from the request body on a public route, so anyone can open an ADMIN account under a free address |
| AuthController.Login | lokswami/backend/src/controllers/auth.controller.ts:88-147 | an unknown address is 401 INVALID_CREDENTIALS; a deactivated account is 403 ACCOUNT_INACTIVE before the password is compared; a wrong password is 401 INVALID_CREDENTIALS; otherwise the payload of the stored user |
| AuthController.LoginFailuresIndistinguishable | lokswami/backend/src/controllers/auth.controller.ts:93-124 | an unknown address and a wrong password for an active account get the same answer |
| AuthController.InactiveRefusedRegardlessOfPassword | lokswami/backend/src/controllers/auth.controller.ts:104-112 | a deactivated account is refused whatever password is given |
| AuthController.Refresh | lokswami/backend/src/controllers/auth.controller.ts:153-203 | a missing or empty refresh token is 401 NO_REFRESH_TOKEN; it succeeds exactly when the token verifies under a set secret for a stored, active user, with a payload read from the stored user; every other failure is 401 INVALID_REFRESH_TOKEN |
| AuthController.RefreshReadsCurrentRole | lokswami/backend/src/controllers/auth.controller.ts:171-188 | a refreshed token carries the user's current stored role, not the role in the old token |
| AuthController.GetMe | lokswami/backend/src/controllers/auth.controller.ts:209-233 | the caller's own profile, or 404 USER_NOT_FOUND exactly when the account is gone |
| AuthController.UpdateProfile | lokswami/backend/src/controllers/auth.controller.ts:239-283 | a non-empty address that another user has is 409 EMAIL_EXISTS; every failure is EMAIL_EXISTS, VALIDATION_ERROR or USER_NOT_FOUND, and a missing account always fails; on success only the caller's document changes, taking the trimmed name and the normalised address where they are given |
| AuthController.UpdateProfileKeepsPrivileges | lokswami/backend/src/controllers/auth.controller.ts:257-261 | a profile update never changes the role, the active flag or the password |
| AuthController.ValidEmailNotEmpty | lokswami/backend/src/controllers/auth.controller.ts:244 | an address that passes validation is never the empty string that skips the clash check |
| AuthController.UpdateProfilePreservesInvariant | lokswami/backend/src/controllers/auth.controller.ts:239-283 | a profile update keeps addresses unique and every user well formed |
| ArticleModel.CollapseSpaces | lokswami/backend/src/models/Article.ts:118 | the result has no white space, is no longer than the input, holds only hyphens and characters of the input, and leaves a string without white space unchanged |
| ArticleModel.BaseSlug | lokswami/backend/src/models/Article.ts:115-119 | a base slug is at most 100 characters, all lower-case ASCII letters, digits, `_` or `-` |
| ArticleModel.BaseSlugOfSlug | lokswami/backend/src/models/Article.ts:115-119 | a string that is already a base slug is its own base slug, so deriving one is idempotent |
| ArticleModel.BaseSlugDropsScript | lokswami/backend/src/models/Article.ts:117 | a title with no ASCII word character, white space or hyphen (all Devanagari, say) has an empty base slug |
| ArticleModel.SuffixedInjective | lokswami/backend/src/models/Article.ts:125 | different counters give different `base-n` slugs, and none of them is the base itself |
| ArticleModel.SuffixedSlugChars | lokswami/backend/src/models/Article.ts:125 | appending `-n` to a slug keeps it made of slug characters |
| ArticleModel.SuffixSetMembers | lokswami/backend/src/models/Article.ts:121-127 | the candidates tried after `k` rounds are exactly `base-1` … `base-k` |
| ArticleModel.SuffixSetSize | lokswami/backend/src/models/Article.ts:121-127 | those `k` candidates are `k` distinct slugs |
| ArticleModel.FirstFreeSuffix | lokswami/backend/src/models/Article.ts:121-127 | the loop stops at a free counter no larger than the number of taken slugs plus one, and every counter before it was taken |
| ArticleModel.TakenSuffixesBound | lokswami/backend/src/models/Article.ts:124 | if `base-1` … `base-k` are all taken there are at least `k` taken slugs, so the loop ends |
| ArticleModel.GenerateSlug | lokswami/backend/src/models/Article.ts:114-130 | the slug is never taken and is made of slug characters; it is the base slug when that is free and otherwise `base-n` for the first free `n`, with `n` at most the number of taken slugs |
| ArticleModel.FirstFreeUnique | lokswami/backend/src/models/Article.ts:121-127 | the first free counter is unique, so the generated slug is determined by the title and the taken slugs |
| ArticleModel.ScriptOnlyTitleHasNoSlug | lokswami/backend/src/models/Article.ts:114-130 | a title with no character the slug keeps yields the empty slug when no article has one, and the schema's `required` then rejects it |
| Text.LowerTrim | lokswami/backend/src/models/Article.ts:42-43 | the `lowercase` and `trim` setters (the same on an article's slug and tags, a category's slug and a user's `email`, User.ts:22-23) leave no surrounding white space and no upper-case ASCII letter |
| Text.LowerTrimIdempotent | lokswami/backend/src/models/Article.ts:42-43 | applying `lowercase` and `trim` again changes nothing |
| Text.LowerTrimOfLowered | lokswami/backend/src/models/Article.ts:54-58 | lower-casing a value before the setters run makes no difference |
| ArticleModel.ApplySetters | lokswami/backend/src/models/Article.ts:23-58 | the setters trim the title, each summary point and each keyword, lower-case and trim the slug and each tag, and change nothing else |
| ArticleModel.ApplySettersFixedPoint | lokswami/backend/src/models/Article.ts:23-58 | the setters bring any document into set form, leave a document in set form unchanged, and are idempotent |
| ArticleModel.ApplySettersNormalises | lokswami/backend/src/models/Article.ts:23-58 | the setters bring any document into set form |
| ArticleModel.ApplySettersIdentity | lokswami/backend/src/models/Article.ts:23-58 | on a document already in set form the setters change nothing |
| ArticleModel.TitleViolations | lokswami/backend/src/models/Article.ts:31-37 | a title fails exactly when it is empty or longer than 200 UTF-16 units |
| ArticleModel.SlugViolations | lokswami/backend/src/models/Article.ts:40 | a slug fails exactly when it is empty |
| ArticleModel.ContentViolations | lokswami/backend/src/models/Article.ts:46-49 | content fails exactly when it is empty |
| ArticleModel.SeoViolations | lokswami/backend/src/models/Article.ts:14-22 | an SEO record fails exactly when its title is over 60 or its description over 160 UTF-16 units |
| ArticleModel.ImageViolations | lokswami/backend/src/models/Article.ts:79-82 | a featured image fails exactly when it is empty |
| ArticleModel.Violations | lokswami/backend/src/models/Article.ts:29-100 | no validator message exactly when the document meets every schema bound |
| ArticleModel.PreSave | lokswami/backend/src/models/Article.ts:107-112 | the hook changes only the publication time: it stamps `now` exactly when the status was modified to PUBLISHED and no time is set, and never overwrites or clears a time |
| ArticleModel.PreSaveStampsPublished | lokswami/backend/src/models/Article.ts:107-112 | a document saved with its status just set to PUBLISHED carries a publication time, and one that had a time is left alone |
| ArticleModel.IncrementViews | lokswami/backend/src/models/Article.ts:132-136 | counting a view adds exactly one to the view count and changes nothing else |
| ArticleModel.IncrementViewsWellFormed | lokswami/backend/src/models/Article.ts:132-136 | counting a view keeps a well-formed document well formed |
| ArticleModel.SuffixSetExcludesBase | lokswami/backend/src/models/Article.ts:121-127 | no suffixed slug equals the base slug |
| CategoryModel.HexColorShape | lokswami/backend/src/models/Category.ts:29 | a colour passes exactly when it is `#` followed by three or six hexadecimal digits |
| CategoryModel.NameViolations | lokswami/backend/src/models/Category.ts:8-13 | a name fails exactly when it is empty or longer than 100 UTF-16 units, with one message |
| CategoryModel.SlugViolations | lokswami/backend/src/models/Category.ts:14-21 | a slug fails exactly when it is empty or has a character other than `a-z`, `0-9` and `-` |
| CategoryModel.DescriptionViolations | lokswami/backend/src/models/Category.ts:22-25 | a description fails exactly when one is given and it is longer than 500 UTF-16 units |
| CategoryModel.ColorViolations | lokswami/backend/src/models/Category.ts:26-30 | a colour fails exactly when it does not match the hex pattern (an empty one included) |
| CategoryModel.ApplySetters | lokswami/backend/src/models/Category.ts:11-19 | the name is trimmed and the slug trimmed and lower-cased; no other field changes |
| CategoryModel.Violations | lokswami/backend/src/models/Category.ts:6-41 | no message exactly when every schema bound holds, at most one message per path |
| CategoryModel.NewCategory | lokswami/backend/src/models/Category.ts:6-41 | a new category is either well formed with the trimmed name, the lower-cased trimmed slug, the given colour and description and a count of 0, or refused with the non-empty messages of its failing validators |
| Storage.Empty | lokswami/backend/src/models/Category.ts:31-34 | an empty database satisfies the invariant |
| Storage.FindBelow | lokswami/backend/src/controllers/article.controller.ts:94 | `findOne` returns a document that satisfies the query and no older one does; it returns none exactly when no document does |
| Storage.ValuesBelow | lokswami/backend/src/controllers/category.controller.ts:12-14 | a `find` without filter returns only stored documents, every one of them, and one entry per stored document |
| Storage.FindArticleBySlug | lokswami/backend/src/controllers/article.controller.ts:94 | the article found has the slug the setters make of the query value, and none is found exactly when no article has it |
| Storage.FindCategoryBySlug | lokswami/backend/src/controllers/category.controller.ts:29 | the category found has the slug the setters make of the query value, and none is found exactly when no category has it |
| Storage.AdjustCount | lokswami/backend/src/controllers/article.controller.ts:213 | `$inc` on `articleCount` changes only that category's counter, by the given amount, and does nothing when the category is gone |
| Storage.RewriteCategoryKeepsInvariant | lokswami/backend/src/controllers/category.controller.ts:74-85 | rewriting a category with a well-formed document of the same slug and counter keeps the database consistent |
| Storage.RewriteCategoryKeepsSlugs | lokswami/backend/src/models/Category.ts:17 | such a rewrite keeps both unique slug indexes satisfied |
| Storage.RewriteCategoryKeepsDocuments | lokswami/backend/src/models/Category.ts:6-41 | such a rewrite keeps every stored document well formed |
| Storage.RewriteCategoryKeepsCounts | lokswami/backend/src/models/Category.ts:31-34 | such a rewrite keeps every counter equal to its number of published articles |
| Storage.PublishedInAfterWrite | lokswami/backend/src/controllers/article.controller.ts:224-228 | writing an article changes each category's set of published articles by at most that article |
| Storage.PublishedInAfterRemove | lokswami/backend/src/controllers/article.controller.ts:264 | deleting an article removes at most that article from each category's published set |
| Storage.CountAfterWrite | lokswami/backend/src/controllers/article.controller.ts:209-217 | after a write a category's published count rises by one when the article becomes published under it, falls by one when it stops being, and is otherwise unchanged |
| Storage.CountAfterRemove | lokswami/backend/src/controllers/article.controller.ts:259-264 | after a delete a category's published count falls by one exactly when the article was published under it |
| Storage.CountAfterInsert | lokswami/backend/src/controllers/article.controller.ts:163-167 | after inserting a new article a category's published count rises by one exactly when the article is published under it |
| ArticleController.NewDocument | lokswami/backend/src/controllers/article.controller.ts:142-161 | the created document has a slug no article uses, is in set form with the trimmed title, names the caller as author and the requested category, has the requested status or DRAFT, carries a publication time exactly when PUBLISHED, and has no views |
| ArticleController.CreateArticle | lokswami/backend/src/controllers/article.controller.ts:123-177 | a missing or unknown category is CATEGORY_NOT_FOUND; a missing title with a known category is INTERNAL_ERROR; the only other failure is VALIDATION_ERROR; on success one new article is stored under the next id as the create describes |
| ArticleController.SlugCharsSurviveSetters | lokswami/backend/src/models/Article.ts:42-43 | a generated slug is already lower-case and trimmed, so the slug setters leave it alone |
| ArticleController.CreatePreservesInvariant | lokswami/backend/src/controllers/article.controller.ts:123-177 | creating an article keeps the database consistent: ids issued, slugs unique, documents well formed, published articles stamped, counters exact |
| ArticleController.CreatedPreservesInvariant | lokswami/backend/src/controllers/article.controller.ts:148-167 | any state a successful create can leave behind is consistent when the state before it was |
| ArticleController.CreatedDocuments | lokswami/backend/src/controllers/article.controller.ts:146-161 | after a create the ids stay issued, every document is well formed and every published article is stamped |
| ArticleController.CreatedCounts | lokswami/backend/src/controllers/article.controller.ts:163-167 | after a create each counter still equals its number of published articles |
| ArticleController.CreatedSlugs | lokswami/backend/src/controllers/article.controller.ts:143 | after a create no two articles share a slug |
| ArticleController.PatchSettersSetForm | lokswami/backend/src/controllers/article.controller.ts:224-228 | the setters put every value an update sets into set form |
| ArticleController.PatchKeepsWellFormed | lokswami/backend/src/controllers/article.controller.ts:224-228 | writing validated, set-form values over a well-formed article gives a well-formed article |
| ArticleController.StatusEffects | lokswami/backend/src/controllers/article.controller.ts:208-217 | only a status different from the current one has effects: a first publication stamps now over anything sent and adds one to the stored category; leaving PUBLISHED takes one from it; no article changes; otherwise the publication time is the one sent, else the stored one |
| ArticleController.UpdateDocument | lokswami/backend/src/controllers/article.controller.ts:219-228 | the update document is the request after the setters, with a fresh unused slug when the title changed and the request's own slug otherwise; status, category, content and image pass through unchanged |
| ArticleController.UpdateArticle | lokswami/backend/src/controllers/article.controller.ts:183-237 | an unknown id is ARTICLE_NOT_FOUND; a caller who is neither the author nor an editor is FORBIDDEN; a sub-editor asking for any status other than SUB_EDITOR_REVIEW is FORBIDDEN; the only other failures are VALIDATION_ERROR and DUPLICATE_ERROR; on success only this article changes and it takes the requested status, category, author and view count |
| ArticleController.UpdateFields | lokswami/backend/src/controllers/article.controller.ts:219-228 | fields the request leaves out are unchanged; a given title is stored trimmed; a changed title brings a new slug no article had; otherwise the slug changes only to the request's own slug |
| ArticleController.UpdateSameStatusNoSideEffects | lokswami/backend/src/controllers/article.controller.ts:209 | a request with no status, or the current one, changes no counter and keeps the stored publication time unless it sends one |
| ArticleController.UpdateFirstPublish | lokswami/backend/src/controllers/article.controller.ts:211-213 | first publication stamps the current time whatever the request sent and adds one to the stored category |
| ArticleController.UpdateRepublish | lokswami/backend/src/controllers/article.controller.ts:209-217 | re-publishing an article that has a publication time neither re-stamps it nor counts it again |
| ArticleController.UpdateUnpublish | lokswami/backend/src/controllers/article.controller.ts:214-215 | leaving PUBLISHED takes one from the category the article was in before the update, and keeps the publication time unless the request sends one |
| ArticleController.ReporterAuthorMayPublish | lokswami/backend/src/controllers/article.controller.ts:192-217 | a reporter may publish their own article directly from any status: the server has no workflow rule for reporters |
| ArticleController.SubEditorRules | lokswami/backend/src/controllers/article.controller.ts:193-206 | a sub-editor's update succeeds only on their own article, and leaves its status either unchanged or SUB_EDITOR_REVIEW |
| ArticleController.UpdatePreservesInvariant | lokswami/backend/src/controllers/article.controller.ts:183-237 | the update as written keeps the database consistent when the article does not end up published in another category, is not re-published, and does not get its stamp cleared |
| ArticleController.UpdateShape | lokswami/backend/src/controllers/article.controller.ts:208-228 | a successful update is the status effects followed by writing the update document, which passed its validators and whose slug no other article has |
| ArticleController.UpdateKeepsDocuments | lokswami/backend/src/controllers/article.controller.ts:224-228 | a successful update keeps ids issued, slugs unique and documents well formed, and keeps published articles stamped unless the request clears the stamp |
| ArticleController.UpdateTouchesOnlyCounts | lokswami/backend/src/controllers/article.controller.ts:213-215 | of the categories, an update changes at most the counters |
| ArticleController.UpdatedArticleWellFormed | lokswami/backend/src/controllers/article.controller.ts:224-228 | the updated article is well formed, filed under an issued id, and stamped if published unless the request clears the stamp |
| ArticleController.OthersKept | lokswami/backend/src/controllers/article.controller.ts:224-228 | writing one article and adjusting counters keeps every other document well formed, issued and stamped |
| ArticleController.UpdateKeepsSlugsUnique | lokswami/backend/src/controllers/article.controller.ts:219-228 | a successful update leaves no two articles with the same slug |
| ArticleController.DeleteArticle | lokswami/backend/src/controllers/article.controller.ts:243-270 | an unknown id is ARTICLE_NOT_FOUND; a caller who is neither author nor editor is FORBIDDEN; otherwise the delete succeeds, removes exactly that article and takes one from its category exactly when it was published there |
| ArticleController.DeletePreservesInvariant | lokswami/backend/src/controllers/article.controller.ts:243-270 | deleting an article keeps the database consistent |
| ArticleController.ReadArticle | lokswami/backend/src/controllers/article.controller.ts:91-117 | an unknown slug, or an unpublished article for an anonymous reader, is ARTICLE_NOT_FOUND; otherwise the article with that slug, and the categories and article ids are unchanged |
| ArticleController.ReadArticleCountsOneView | lokswami/backend/src/controllers/article.controller.ts:107-111 | a read changes only that article's view count: one more when it is published, none otherwise |
| ArticleController.ReadArticlePreservesInvariant | lokswami/backend/src/controllers/article.controller.ts:91-117 | reading an article keeps the database consistent |
| ArticleController.UnpublishKeepsStamp | lokswami/backend/src/controllers/article.controller.ts:214-215 | an editor can unpublish a published article; the database stays consistent and the article keeps its publication time |
| ArticleController.RepublishBreaksCount | lokswami/backend/src/controllers/article.controller.ts:211 | re-publishing an article that was published before succeeds but leaves its category's counter one short (see Findings) |
| ArticleController.MovePublishedBreaksCount | lokswami/backend/src/controllers/article.controller.ts:208-228 | moving a published article to another category succeeds but changes no counter, so the counts go wrong (see Findings) |
| ArticleController.RecountMove | lokswami/backend/src/controllers/article.controller.ts:208-217 | the corrected bookkeeping takes one from the category the article was published in before and adds one to the category it is published in after, and changes nothing else |
| ArticleController.Trusted | lokswami/backend/src/controllers/article.controller.ts:185 | the request with the author, view count and publication time dropped, and nothing else changed |
| ArticleController.PatchSettersTrusted | lokswami/backend/src/controllers/article.controller.ts:185 | the setters and dropping the untrusted keys commute |
| ArticleController.UpdateDocumentTrusted | lokswami/backend/src/controllers/article.controller.ts:185-228 | the update document of the trusted part is the trusted part of the update document |
| ArticleController.TrustedSameOutcome | lokswami/backend/src/controllers/article.controller.ts:185-228 | the dropped keys decide no error: a request and its trusted part fail alike and succeed alike |
| ArticleController.UpdateArticleCorrected | lokswami/backend/src/controllers/article.controller.ts:183-237 | the corrected update fails exactly when the update as written does, with the same error; it writes the articles the trusted request would and never changes the author or the view count |
| ArticleController.UpdateCorrectedPreservesInvariant | lokswami/backend/src/controllers/article.controller.ts:183-237 | every successful corrected update keeps the database consistent, with no proviso on the request |
| ArticleController.CorrectedShape | lokswami/backend/src/controllers/article.controller.ts:224-228 | the corrected update writes the article that the trusted request writes and changes only counters among the categories |
| ArticleController.CorrectedCounts | lokswami/backend/src/controllers/article.controller.ts:208-217 | after a corrected update every category counts exactly its published articles |
| ArticleController.CorrectedDocuments | lokswami/backend/src/controllers/article.controller.ts:224-228 | after a corrected update ids stay issued, documents well formed and published articles stamped |
| ArticleController.CorrectedSlugs | lokswami/backend/src/controllers/article.controller.ts:219-222 | after a corrected update no two articles and no two categories share a slug |
| ArticleController.ClearedStampBreaksInvariant | lokswami/backend/src/controllers/article.controller.ts:185 | the author of a published article can send `publishedAt: null` and leave it published with no stamp; the corrected update keeps the stamp (see Findings) |
| ArticleController.AuthorKeyHandsOver | lokswami/backend/src/controllers/article.controller.ts:185 | a reporter can send `author` to hand their article to someone else, after which they can neither update nor delete it; the corrected update keeps the author (see Findings) |
| ArticleListing.SortField | lokswami/backend/src/controllers/article.controller.ts:57-59 | the sort key of a document: its publication time, with an unset time below every time; its view count; the same value for every document under any other field |
| ArticleListing.StatusFilter | lokswami/backend/src/controllers/article.controller.ts:26-31 | the status filtered on is the caller's own non-empty choice when signed in, and PUBLISHED in every other case |
| ArticleListing.Selected | lokswami/backend/src/controllers/article.controller.ts:24-46 | every document selected is a stored article that passes the status, category and author filters |
| ArticleListing.Matching | lokswami/backend/src/controllers/article.controller.ts:61-65 | the sorted matches are a rearrangement of the selected articles, each listed as often as it is selected, and all pass the filters |
| ArticleListing.MatchingSorted | lokswami/backend/src/controllers/article.controller.ts:57-65 | the matches come in the order the sort field and direction ask for |
| ArticleListing.MatchingComplete | lokswami/backend/src/controllers/article.controller.ts:61-62 | no stored article the query selects is missing from the matches |
| ArticleListing.DefaultSortNewestFirst | lokswami/backend/src/controllers/article.controller.ts:20-21 | by default the newest publication comes first and never-published articles come last; `order=asc` gives the opposite order |
| ArticleListing.PageNumber | lokswami/backend/src/controllers/article.controller.ts:53 | the page number is at least 1, and equals the requested page (default 1) when that is at least 1 |
| ArticleListing.PageSize | lokswami/backend/src/controllers/article.controller.ts:54 | the page size lies between 1 and 50: the requested limit (default 10) when in range, 50 above it, 1 below it |
| ArticleListing.Paginate | lokswami/backend/src/controllers/article.controller.ts:76-82 | `pages` is the fewest pages of `limit` items that hold all matches, and `hasMore` holds exactly when `page * limit < total` |
| ArticleListing.CeilingBounds | lokswami/backend/src/controllers/article.controller.ts:80 | the integer ceiling of `total / limit` is the fewest pages that hold `total` items |
| ArticleListing.HasMoreBeforeLastPage | lokswami/backend/src/controllers/article.controller.ts:80-81 | `hasMore` holds exactly on the pages before the last one |
| ArticleListing.PageListing | lokswami/backend/src/controllers/article.controller.ts:53-67 | a page holds the matches from number `(page - 1) * limit` on, in order, and no more than `limit` of them; only the last page is short; the block reports the clamped page and limit and the full count |
| ArticleListing.ListArticles | lokswami/backend/src/controllers/article.controller.ts:11-85 | a listing is one page of the sorted matches; `total` counts every match; every listed article is stored and passes the filters |
| ArticleListing.PageOf | lokswami/backend/src/controllers/article.controller.ts:66-67 | `skip` then `limit` keeps items from number `skip` on, in order, at most `limit` of them, and is short only at the end of the list |
| ArticleListing.EveryMatchOnItsPage | lokswami/backend/src/controllers/article.controller.ts:53-67 | match number `i` (from 0) appears as item `i % limit` of page `i / limit + 1`, so paging visits every match |
| ArticleListing.PageListingHolds | lokswami/backend/src/controllers/article.controller.ts:53-67 | item `i` of a list appears as item `i % limit` of page `i / limit + 1` |
| ArticleListing.SkipOfIndex | lokswami/backend/src/controllers/article.controller.ts:55 | page `i / limit + 1` starts `i % limit` places before item `i` |
| ArticleListing.PageOfHolds | lokswami/backend/src/controllers/article.controller.ts:66-67 | a page holds every item from its start up to `limit` places on, as far as the list goes |
| ArticleListing.PublicListingIsPublished | lokswami/backend/src/controllers/article.controller.ts:26-31 | an anonymous caller, or one who names no status, sees only published articles |
| Sorting.Insert | lokswami/backend/src/controllers/article.controller.ts:65 | placing an element into a list adds exactly that element |
| Sorting.SortBy | lokswami/backend/src/controllers/article.controller.ts:65 | a sort is a permutation of its input in ascending order of the rank |
| Sorting.InsertSorted | lokswami/backend/src/controllers/article.controller.ts:65 | inserting into a sorted list keeps it sorted |
| Sorting.SortByMembers | lokswami/backend/src/controllers/article.controller.ts:65 | an element is in the sorted list exactly when it is in the input |
| CategoryController.InsertByName | lokswami/backend/src/controllers/category.controller.ts:12-14 | inserting a category into a list ordered by name keeps it ordered and adds exactly that category |
| CategoryController.SortByName | lokswami/backend/src/controllers/category.controller.ts:12-14 | sorting by name gives a permutation of the list in ascending name order |
| CategoryController.ListCategories | lokswami/backend/src/controllers/category.controller.ts:9-20 | the list holds exactly the stored categories, each once (as many entries as stored categories), in ascending name order |
| CategoryController.GetCategoryBySlug | lokswami/backend/src/controllers/category.controller.ts:26-39 | the stored category with the slug the setters make of the parameter, or CATEGORY_NOT_FOUND exactly when there is none |
| CategoryController.CreateCategory | lokswami/backend/src/controllers/category.controller.ts:45-66 | a missing slug makes `toLowerCase` throw, giving INTERNAL_ERROR; a slug already in use is CATEGORY_EXISTS; the only other failure is VALIDATION_ERROR; on success one new well-formed category is stored under the next id with a zero counter |
| CategoryController.InsertCategory | lokswami/backend/src/controllers/category.controller.ts:54-59 | saving a new category stores it under the next id and issues that id |
| CategoryController.CreateCategoryPreservesInvariant | lokswami/backend/src/controllers/category.controller.ts:45-66 | creating a category keeps the database consistent |
| CategoryController.CategoryCreatedPreservesInvariant | lokswami/backend/src/controllers/category.controller.ts:54-59 | any state a successful create can leave behind is consistent when the state before it was |
| CategoryController.UpdateCategory | lokswami/backend/src/controllers/category.controller.ts:72-92 | an unknown id is CATEGORY_NOT_FOUND, the only other failure is VALIDATION_ERROR; on success only that category changes, taking the trimmed name, the description and the colour where given, and its slug and counter never change |
| CategoryController.UpdateCategoryPreservesInvariant | lokswami/backend/src/controllers/category.controller.ts:72-92 | updating a category keeps the database consistent |
| CategoryController.DeleteCategory | lokswami/backend/src/controllers/category.controller.ts:98-121 | an unknown id is CATEGORY_NOT_FOUND; CATEGORY_HAS_ARTICLES exactly when the counter is positive; the delete succeeds exactly when the category exists with a counter of 0 or less, and removes only that category |
| CategoryController.DeleteCategoryOnlyWhenNothingPublished | lokswami/backend/src/controllers/category.controller.ts:106-115 | in a consistent database a category is deleted only when no published article is filed under it, and the database stays consistent |
| CategoryController.MovedArticleOutlivesCategory | lokswami/backend/src/controllers/category.controller.ts:107 | once a published article has been moved into an empty category, that category's counter still reads 0, so it can be deleted while the article stays filed under it (see Findings) |
| CategoryController.CorrectedMoveBlocksDelete | lokswami/backend/src/controllers/category.controller.ts:107-113 | with the corrected update bookkeeping, a category that receives a published article counts it and refuses deletion with CATEGORY_HAS_ARTICLES |
| AiController.Validate | lokswami/backend/src/controllers/ai.controller.ts:12-30 | every rejection of a body check is a 400, and a body that passes every check carries non-empty string content |
| AiController.HandleAi | lokswami/backend/src/controllers/ai.controller.ts:9-173 | a failed check is answered with its rejection before the service is called; once the checks pass, the only failure is the service throwing, which gives 500 INTERNAL_ERROR |
| AiController.FirstFailure | lokswami/backend/src/controllers/ai.controller.ts:143-164 | the first check that the body fails, with every earlier check passed, or none exactly when all pass |
| AiController.ValidateFollowsTable | lokswami/backend/src/controllers/ai.controller.ts:9-173 | each endpoint answers the first check in its list that the body fails, with that check's code: summarise checks content then length, tags checks content, SEO and complete check title then content, translate checks content then direction |
| AiController.RejectedBeforeService | lokswami/backend/src/controllers/ai.controller.ts:9-173 | a body that fails any check gets a 400 whatever the model service would say, so the service is never consulted |
| AiController.TitleCheckedFirst | lokswami/backend/src/controllers/ai.controller.ts:74-92 | for SEO and complete, a missing or non-string title is INVALID_TITLE even when the content is bad too |
| AiController.ShortContentRejected | lokswami/backend/src/controllers/ai.controller.ts:22-30 | summarising answers CONTENT_TOO_SHORT exactly for non-empty string content of fewer than 50 UTF-16 units |
| AiController.TranslateDirection | lokswami/backend/src/controllers/ai.controller.ts:107-137 | with valid content, translation is refused with INVALID_DIRECTION exactly when the direction is neither `HI_TO_EN` nor `EN_TO_HI`; `HI_TO_EN` asks for Hindi to English and answers the trimmed reply |
| GeminiService.BulletText | lokswami/backend/src/services/gemini.service.ts:210 | the text of a bullet line, with its marker and the white space around it removed, is trimmed |
| GeminiService.PointOf | lokswami/backend/src/services/gemini.service.ts:207-211 | a line contributes at most one point, non-empty and trimmed |
| GeminiService.SummaryItems | lokswami/backend/src/services/gemini.service.ts:204-211 | a list of lines yields no more points than it has lines |
| GeminiService.SummaryItemsClean | lokswami/backend/src/services/gemini.service.ts:204-211 | every point taken from a list of lines is non-empty and trimmed |
| GeminiService.SummaryItemsIsPipeline | lokswami/backend/src/services/gemini.service.ts:204-211 | the points are those of the source's pipeline: trim each line, keep the bullet lines, strip the markers, drop empty texts |
| GeminiService.ParseSummary | lokswami/backend/src/services/gemini.service.ts:203-213 | a parsed summary has at most three points, each non-empty and trimmed |
| GeminiService.SummaryItemsCons | lokswami/backend/src/services/gemini.service.ts:204-211 | a line contributes its point, if it has one, ahead of the points of the lines after it |
| GeminiService.BulletedText | lokswami/backend/src/services/gemini.service.ts:38-40 | a point written as the prompt asks, `• text`, is a bullet line whose text is that point |
| GeminiService.SplitRenderSummary | lokswami/backend/src/services/gemini.service.ts:205 | a rendered summary followed by more text splits into its bulleted lines and then the lines of that text |
| GeminiService.SummaryItemsOfBulleted | lokswami/backend/src/services/gemini.service.ts:204-211 | bulleted lines give back their points, ahead of the points of whatever lines follow |
| GeminiService.RenderedSummaryLines | lokswami/backend/src/services/gemini.service.ts:205 | a rendered summary splits into its bulleted lines and one empty line |
| GeminiService.RenderedSummaryItems | lokswami/backend/src/services/gemini.service.ts:204-211 | the points of a rendered summary, before the cut to three, are exactly the points rendered |
| GeminiService.SummaryRoundTrip | lokswami/backend/src/services/gemini.service.ts:37-40 | a reply in the requested bullet format with at most three single-line points parses back to exactly those points |
| GeminiService.SummaryKeepsFirstThree | lokswami/backend/src/services/gemini.service.ts:212 | of a longer bulleted reply only the first three points are kept |
| GeminiService.NonBulletLineIgnored | lokswami/backend/src/services/gemini.service.ts:207 | a line that does not start with a bullet once trimmed contributes nothing, so a preamble is ignored |
| GeminiService.TagLabelLength | lokswami/backend/src/services/gemini.service.ts:220 | the label found at the start of a reply lies within it and ends with its colon |
| GeminiService.StripTagLabel | lokswami/backend/src/services/gemini.service.ts:220 | a reply without a label is left as it is |
| GeminiService.ListItems | lokswami/backend/src/services/gemini.service.ts:224-225 | no more items than pieces, each non-empty and trimmed |
| GeminiService.ListItemsIsPipeline | lokswami/backend/src/services/gemini.service.ts:224-225 | the items are those of the source's `trim` then drop-empty pipeline |
| GeminiService.ListItemsKeepFree | lokswami/backend/src/services/gemini.service.ts:224 | trimming introduces no separator characters |
| GeminiService.SplitList | lokswami/backend/src/services/gemini.service.ts:223-225 | every item of a split list is non-empty, trimmed and free of the three comma characters |
| GeminiService.ParseTags | lokswami/backend/src/services/gemini.service.ts:218-227 | at most seven tags, each non-empty, trimmed and free of commas |
| GeminiService.SplitJoinFrom | lokswami/backend/src/services/gemini.service.ts:223 | a list written with `, ` splits into one piece per item, each padded with what surrounds it |
| GeminiService.ListItemsOfPadded | lokswami/backend/src/services/gemini.service.ts:224-225 | pieces whose trimmed forms are the non-empty items give back exactly the items |
| GeminiService.SplitListJoin | lokswami/backend/src/services/gemini.service.ts:223-225 | a list written with `, ` and followed only by white space splits back into exactly its items |
| GeminiService.NoColonNoLabel | lokswami/backend/src/services/gemini.service.ts:220 | text without a colon carries no tag label |
| GeminiService.TagsRoundTrip | lokswami/backend/src/services/gemini.service.ts:218-227 | a reply `Tags: a, b, …` with at most seven clean tags parses back to exactly those tags |
| GeminiService.PointOfBulleted | lokswami/backend/src/services/gemini.service.ts:207-211 | a clean point written as a bullet line gives back exactly that point |
| GeminiService.SummaryItemsOfBulletedHead | lokswami/backend/src/services/gemini.service.ts:204-211 | the first bulleted line contributes its point ahead of the points of the lines after it |
| GeminiSeo.SpaceRunEnd | lokswami/backend/src/services/gemini.service.ts:233-235 | the greedy `\s*` of a field pattern stops within the reply, at or after where it starts |
| GeminiSeo.SpaceRunEndSpec | lokswami/backend/src/services/gemini.service.ts:233-235 | `\s*` takes a maximal run: white space all the way, and none where it stops |
| GeminiSeo.LineEnd | lokswami/backend/src/services/gemini.service.ts:233-235 | the greedy `.+` stops within the reply, at or after where it starts |
| GeminiSeo.LineEndSpec | lokswami/backend/src/services/gemini.service.ts:233-235 | `.` never crosses a line terminator and the run stops only at one or at the end |
| GeminiSeo.LineEndAt | lokswami/backend/src/services/gemini.service.ts:233-235 | `.+` stops at the first line terminator, whatever precedes it |
| GeminiSeo.CaptureStart | lokswami/backend/src/services/gemini.service.ts:233-235 | when backtracking out of `\s*` finds a start for `(.+)` it is a character of the reply within the white-space run |
| GeminiSeo.CaptureStartSpec | lokswami/backend/src/services/gemini.service.ts:233-235 | backtracking picks the last position that is not a line terminator, and fails exactly when all of them are |
| GeminiSeo.CaptureSpec | lokswami/backend/src/services/gemini.service.ts:233-235 | `\s*(.+)` captures a non-empty one-line run reaching the end of its line after white space only, and fails exactly when the run and the character after it are all line terminators |
| GeminiSeo.CaptureAfterSpace | lokswami/backend/src/services/gemini.service.ts:233-235 | a value written after one space and ending its line is captured whole |
| GeminiSeo.FirstFrom | lokswami/backend/src/services/gemini.service.ts:233-235 | a regular-expression search reports the leftmost start position that matches, and none exactly when no position does |
| GeminiSeo.FirstFromAt | lokswami/backend/src/services/gemini.service.ts:233-235 | the search reports the first qualifying position and no later one |
| GeminiSeo.FindField | lokswami/backend/src/services/gemini.service.ts:233-235 | the `/i` field pattern matches at the position found, at no earlier one, and is missing exactly when it matches nowhere |
| GeminiSeo.Field | lokswami/backend/src/services/gemini.service.ts:233-235 | `match(...)?.[1]` is undefined exactly when the pattern matches nowhere in the reply |
| GeminiSeo.FieldFoundAt | lokswami/backend/src/services/gemini.service.ts:233-235 | the first occurrence of the key decides the field when the rest of the pattern matches there |
| GeminiSeo.LabelEndsWithColon | lokswami/backend/src/services/gemini.service.ts:233-235 | an occurrence of a key ends with the colon of that key |
| GeminiSeo.NoLabelBefore | lokswami/backend/src/services/gemini.service.ts:233-235 | text whose colons cannot end the key hides no occurrence of it before the written label |
| GeminiSeo.FieldFound | lokswami/backend/src/services/gemini.service.ts:233-235 | a key written in any letter case, a space and a one-line value are found as that value when nothing before could end the key |
| GeminiSeo.FieldLineFound | lokswami/backend/src/services/gemini.service.ts:233-235 | a field on a line of its own is found as its value |
| GeminiSeo.FieldLineColons | lokswami/backend/src/services/gemini.service.ts:233-235 | a field line adds no colon that could end another key |
| GeminiSeo.JoinFromFree | lokswami/backend/src/services/gemini.service.ts:93 | joining keywords with `, ` adds no character outside the comma and the space |
| GeminiSeo.JoinFromHead | lokswami/backend/src/services/gemini.service.ts:93 | a joined list starts with its first keyword |
| GeminiSeo.NoLabelEndJoin | lokswami/backend/src/services/gemini.service.ts:233-235 | two texts whose colons cannot end a key still cannot when joined, if no colon starts the second |
| GeminiSeo.NoColonNoLabelEnd | lokswami/backend/src/services/gemini.service.ts:233-235 | text without a colon cannot end any key |
| GeminiSeo.WrittenLabel | lokswami/backend/src/services/gemini.service.ts:91-93 | a label written in capitals as the prompt does matches its key case-insensitively |
| GeminiSeo.WrittenTitleLabel | lokswami/backend/src/services/gemini.service.ts:91 | `SEO_TITLE:` matches the title key and cannot end the other keys |
| GeminiSeo.WrittenDescriptionLabel | lokswami/backend/src/services/gemini.service.ts:92 | `META_DESCRIPTION:` matches the description key and cannot end the keywords key |
| GeminiSeo.WrittenLabels | lokswami/backend/src/services/gemini.service.ts:91-93 | the three labels the prompt writes match their keys and do not end one another |
| GeminiSeo.CutField | lokswami/backend/src/services/gemini.service.ts:245-246 | a field is trimmed and cut to its limit in UTF-16 units, empty when missing, and a clean value within the limit passes unchanged |
| GeminiSeo.ParseSEO | lokswami/backend/src/services/gemini.service.ts:232-249 | title at most 60 and description at most 160 UTF-16 units, at most seven clean keywords, and each missing field empty |
| GeminiSeo.TitleFound | lokswami/backend/src/services/gemini.service.ts:233 | the title pattern finds the title in a reply in the requested format |
| GeminiSeo.DescriptionFound | lokswami/backend/src/services/gemini.service.ts:234 | the description pattern finds the description in such a reply |
| GeminiSeo.KeywordsFound | lokswami/backend/src/services/gemini.service.ts:235 | the keywords pattern finds the joined keyword list in such a reply |
| GeminiSeo.ParseFound | lokswami/backend/src/services/gemini.service.ts:237-248 | a reply whose three fields carry clean values within the limits yields exactly those values |
| GeminiSeo.KeywordsRoundTrip | lokswami/backend/src/services/gemini.service.ts:237-242 | at most seven clean keywords joined with `, ` split back into themselves |
| GeminiSeo.SeoRoundTrip | lokswami/backend/src/services/gemini.service.ts:90-93 | a reply in the three-line format the prompt asks for, with values within the limits, parses back to exactly the values written |
| GeminiSeo.EmptyTitleTakesNextLine | lokswami/backend/src/services/gemini.service.ts:233 | because `\s*` crosses line breaks, an empty title line takes the whole next line, cut to 60 units, as the title |
| GeminiComplete.IndexOf | lokswami/backend/src/services/gemini.service.ts:255-257 | an unanchored header pattern matches at the leftmost place the header is written, and nowhere exactly when it is written nowhere |
| GeminiComplete.SectionEnd | lokswami/backend/src/services/gemini.service.ts:255-256 | the lazy section body ends within the reply, at or after where it starts |
| GeminiComplete.SectionEndSpec | lokswami/backend/src/services/gemini.service.ts:255-256 | `[\s\S]*?(?=STOP\|$)` stops at the first stop marker after the header or at the end, and at no earlier place |
| GeminiComplete.SectionEndAt | lokswami/backend/src/services/gemini.service.ts:255-256 | the section runs to the first place the stop marker is written |
| GeminiComplete.Section | lokswami/backend/src/services/gemini.service.ts:255-257 | a section is missing exactly when its header is written nowhere |
| GeminiComplete.ParseComplete | lokswami/backend/src/services/gemini.service.ts:254-272 | at most three points and seven tags, and each part whose header is missing is empty |
| GeminiComplete.PlacedHalves | lokswami/backend/src/services/gemini.service.ts:254-272 | both halves of a concatenation are written where they stand |
| GeminiComplete.PlacedWithin | lokswami/backend/src/services/gemini.service.ts:254-272 | what is written inside a part is written in the whole reply |
| GeminiComplete.PlacedSplit | lokswami/backend/src/services/gemini.service.ts:254-272 | the halves of a written part are written one after the other |
| GeminiComplete.DashFreeRegion | lokswami/backend/src/services/gemini.service.ts:255-257 | no header starts inside text without a dash |
| GeminiComplete.ClashRegion | lokswami/backend/src/services/gemini.service.ts:255-257 | no header starts inside another header that clashes with it |
| GeminiComplete.HeaderClashAt | lokswami/backend/src/services/gemini.service.ts:143-151 | at any position of one header the other header differs within it |
| GeminiComplete.HeadersClash | lokswami/backend/src/services/gemini.service.ts:143-151 | no header the prompt asks for can start inside another |
| GeminiComplete.AssembleLayout | lokswami/backend/src/services/gemini.service.ts:143-154 | where each header and each body is written in a reply in the requested format |
| GeminiComplete.RenderSummaryFree | lokswami/backend/src/services/gemini.service.ts:144-146 | the bulleted summary adds no character but the bullet, the space and the line break |
| GeminiComplete.SummaryBlockRoundTrip | lokswami/backend/src/services/gemini.service.ts:143-147 | the summary block holds no dash and parses back to its points |
| GeminiComplete.TagsBlockRoundTrip | lokswami/backend/src/services/gemini.service.ts:148-150 | the tags block holds no dash and parses back to its tags |
| GeminiComplete.IndexOfAt | lokswami/backend/src/services/gemini.service.ts:255-257 | a header written at one place and nowhere before is found there |
| GeminiComplete.SummarySectionOf | lokswami/backend/src/services/gemini.service.ts:255 | the summary pattern captures exactly the summary body of a reply in the requested format |
| GeminiComplete.TagsSectionOf | lokswami/backend/src/services/gemini.service.ts:256 | the tags pattern captures exactly the tags body |
| GeminiComplete.SeoHeaderFirst | lokswami/backend/src/services/gemini.service.ts:257 | the first SEO header of such a reply is the one the format puts there |
| GeminiComplete.SeoSectionOf | lokswami/backend/src/services/gemini.service.ts:257 | the SEO pattern captures everything after its header |
| GeminiComplete.CompleteRoundTrip | lokswami/backend/src/services/gemini.service.ts:143-154 | a reply in the three-section format the prompt asks for, with parts each parser can carry back, parses back to exactly those parts |
| GeminiCalls.Languages | lokswami/backend/src/services/gemini.service.ts:107-108 | `HI_TO_EN` translates from Hindi to English, any other direction from English to Hindi, never a language to itself |
| GeminiCalls.DirectionsOpposite | lokswami/backend/src/services/gemini.service.ts:107-108 | the two accepted directions are each other's reverse |
| GeminiCalls.Summarize | lokswami/backend/src/services/gemini.service.ts:23-45 | the service fails exactly when the model gives no reply to the prompt quoting the whole article, and otherwise returns at most three points |
| GeminiCalls.SuggestTags | lokswami/backend/src/services/gemini.service.ts:50-70 | the service fails exactly when the model gives no reply to the prompt quoting the first 2000 units, and otherwise returns at most seven tags |
| GeminiCalls.GenerateSeo | lokswami/backend/src/services/gemini.service.ts:75-98 | the service fails exactly when the model gives no reply to the prompt quoting the title and the first 3000 units; the title and description keep their limits |
| GeminiCalls.Translate | lokswami/backend/src/services/gemini.service.ts:103-127 | the service fails exactly when the model gives no reply to the prompt naming the two languages, and otherwise returns the reply trimmed |
| GeminiCalls.CompleteAssist | lokswami/backend/src/services/gemini.service.ts:132-159 | the service fails exactly when the model gives no reply to the prompt quoting the title and the first 4000 units; the summary and tags keep their limits |
| GeminiCalls.SameExcerpt | lokswami/backend/src/services/gemini.service.ts:62 | two articles that agree on their first n code points quote the same excerpt |
| GeminiCalls.ExcerptsIgnoreTail | lokswami/backend/src/services/gemini.service.ts:62 | what follows the first 2000, 3000 or 4000 code points cannot change the tags, the SEO fields or the complete answer |
| GeminiCalls.TagsIgnoreTail | lokswami/backend/src/services/gemini.service.ts:62 | what follows the first 2000 code points cannot change the suggested tags |
| GeminiCalls.SeoIgnoresTail | lokswami/backend/src/services/gemini.service.ts:88 | what follows the first 3000 code points cannot change the SEO fields |
| GeminiCalls.CompleteIgnoresTail | lokswami/backend/src/services/gemini.service.ts:139 | what follows the first 4000 code points cannot change the complete answer |
| GeminiCalls.ShortArticleQuotedWhole | lokswami/backend/src/services/gemini.service.ts:62 | an article within the excerpt length is quoted whole |
| GeminiCalls.TranslationKeepsTrimmedReply | lokswami/backend/src/services/gemini.service.ts:126 | a reply that is already trimmed is returned unchanged |
| AuthStore.GetAuthToken | lokswami/admin/src/stores/auth.store.ts:29-31 | the token is found exactly when the storage holds the `adminToken` key, and it is that key's value |
| AuthStore.SetState | lokswami/admin/src/stores/auth.store.ts:5-7 | a `set` under `persist` installs the new state and writes its snapshot under `lokswami-auth`, which reads back as that state; the token key and every other key are left alone |
| AuthStore.Initial | lokswami/admin/src/stores/auth.store.ts:5-25 | on page load the store takes the state of a snapshot that parses; with no snapshot it starts signed out and writes one; with an unparsable one it starts signed out and leaves the storage as it is; the token key and other keys are never touched |
| AuthStore.Login | lokswami/admin/src/stores/auth.store.ts:12-15 | after `login` the store is signed in as that user, the stored token is the given one and agrees with the state, the snapshot reads back as the state, and no other key changes |
| AuthStore.Logout | lokswami/admin/src/stores/auth.store.ts:17-20 | after `logout` nobody is signed in, no token is stored, the snapshot reads back as the signed-out state, and no other key changes |
| AuthStore.RunConsistent | lokswami/admin/src/stores/auth.store.ts:12-20 | after any sequence of logins and logouts, user, token and the signed-in flag stay in step: all present or all absent |
| AuthStore.LastActionDecides | lokswami/admin/src/stores/auth.store.ts:12-24 | after a non-empty sequence the last action alone decides the outcome: signed in with its user and stored token after a login, signed out after a logout; the stored token and the snapshot agree with the state either way |
| AuthStore.RunKeepsOtherKeys | lokswami/admin/src/stores/auth.store.ts:12-24 | no action changes any storage key besides `adminToken` and `lokswami-auth` |
| AuthStore.RunWritesSnapshot | lokswami/admin/src/stores/auth.store.ts:22-24 | after any action the `lokswami-auth` key holds the written form of the current state |
| AuthStore.ReloadRestores | lokswami/admin/src/stores/auth.store.ts:5-25 | reloading the page after any action gives back exactly the same state and storage |
| AuthStore.LoginThenLogout | lokswami/admin/src/stores/auth.store.ts:12-20 | signing out after signing in leaves no token and a signed-out snapshot |
| AuthStore.StaleTokenBeforeLogin | lokswami/admin/src/stores/auth.store.ts:29-31 | a token left in storage from an earlier session is what `getAuthToken` returns before anyone signs in, while the store says signed out |
| AuthStore.Unauthorized | lokswami/admin/src/services/api.ts:40-45 | the client's answer to a 401 removes the stored token and reloads at the login page; no other key changes |
| AuthStore.UnauthorizedKeepsSignedIn | lokswami/admin/src/services/api.ts:40-45 | after a login and then a 401, the reloaded store is still signed in with the old token while the client has no token to send (see Findings) |
| AuthStore.UnauthorizedCorrected | lokswami/admin/src/services/api.ts:40-45 | signing out through the store before the reload leaves a signed-out state in step with the storage and its snapshot |
| StatusChanger.Offered | lokswami/admin/src/components/workflow/StatusChanger.tsx:35-52 | with no signed-in user nothing is offered; otherwise exactly the successors of the current status that the user's role may set, in table order |
| StatusChanger.Choose | lokswami/admin/src/components/workflow/StatusChanger.tsx:63-69 | an item exists exactly for each offered move, and clicking one hands on a successor the user's role may set |
| StatusChanger.NoSelfLoops | lokswami/admin/src/components/workflow/StatusChanger.tsx:27-33 | no status leads to itself, and a draft can only be sent for review |
| StatusChanger.PrivilegedTargets | lokswami/admin/src/components/workflow/StatusChanger.tsx:19-25 | only editors and admins are offered PUBLISHED or ARCHIVED, and a reporter is never offered EDITOR_APPROVED |
| StatusChanger.OfferedNonEmpty | lokswami/admin/src/components/workflow/StatusChanger.tsx:49-52 | a signed-in user is always offered at least one move, so the component's empty exit is never taken |
| StatusChanger.FilterPair | lokswami/admin/src/components/workflow/StatusChanger.tsx:45-47 | filtering a two-element successor list keeps each element the test admits, in order |
| StatusChanger.OfferedMatchesTable | lokswami/admin/src/components/workflow/StatusChanger.tsx:19-47 | the filtered tables agree, for all twenty status and role pairs, with a drop-down written out case by case |
| StatusChanger.OfferedFromReview | lokswami/admin/src/components/workflow/StatusChanger.tsx:19-47 | from SUB_EDITOR_REVIEW a reporter is offered only DRAFT and every other role also EDITOR_APPROVED |
| StatusChanger.OfferedFromApproved | lokswami/admin/src/components/workflow/StatusChanger.tsx:19-47 | from EDITOR_APPROVED only editors and admins are offered PUBLISHED |
| StatusChanger.OfferedFromPublished | lokswami/admin/src/components/workflow/StatusChanger.tsx:19-47 | from PUBLISHED only editors and admins are offered ARCHIVED |
| StatusChanger.Predecessors | lokswami/admin/src/components/workflow/StatusChanger.tsx:27-33 | only EDITOR_APPROVED leads to PUBLISHED, and only SUB_EDITOR_REVIEW leads to EDITOR_APPROVED |
| StatusChanger.DraftToPublishedReviewed | lokswami/admin/src/components/workflow/StatusChanger.tsx:27-33 | every walk from DRAFT to PUBLISHED passes review and then approval immediately before publishing, so it takes at least three moves |
| EditorPage.EmptyForm | lokswami/admin/src/pages/ArticleEditorPage.tsx:34-43 | a fresh form is empty and in DRAFT |
| EditorPage.Load | lokswami/admin/src/pages/ArticleEditorPage.tsx:61-85 | loading copies the article into the form, each missing part becoming empty |
| EditorPage.Save | lokswami/admin/src/pages/ArticleEditorPage.tsx:87-125 | nothing is sent without a title, content and category; otherwise an update exactly when editing, carrying the form's fields, a non-empty image (the placeholder when none) and the explicit status when one is given |
| EditorPage.LoadSaveRoundTrip | lokswami/admin/src/pages/ArticleEditorPage.tsx:61-125 | loading a complete article and saving it untouched sends back exactly what was loaded |
| EditorPage.MissingImageBecomesPlaceholder | lokswami/admin/src/pages/ArticleEditorPage.tsx:77-107 | an article loaded without an image is saved with the placeholder URL |
| EditorPage.AddItem | lokswami/admin/src/pages/ArticleEditorPage.tsx:303-311 | entering a value appends it trimmed unless it is blank or already present, so a duplicate-free list stays duplicate-free |
| EditorPage.AddItemIdempotent | lokswami/admin/src/pages/ArticleEditorPage.tsx:303-311 | entering the same value twice adds it once |
| EditorPage.AddAllKeepsDistinct | lokswami/admin/src/pages/ArticleEditorPage.tsx:398-406 | any sequence of entries keeps the list duplicate-free, keeps what it held and ends up holding every non-blank entry |
| EditorPage.RemoveKeepsDistinct | lokswami/admin/src/pages/ArticleEditorPage.tsx:388 | removing an entry keeps the list duplicate-free |
| EditorPage.AddTag | lokswami/admin/src/pages/ArticleEditorPage.tsx:398-406 | only the tags change, stay duplicate-free and gain the trimmed input |
| EditorPage.AddKeyword | lokswami/admin/src/pages/ArticleEditorPage.tsx:303-311 | only the keywords change, stay duplicate-free and gain the trimmed input |
| EditorPage.RemoveTag | lokswami/admin/src/pages/ArticleEditorPage.tsx:388 | only the tags change: the one at the index goes and putting it back restores the list |
| EditorPage.RemoveKeyword | lokswami/admin/src/pages/ArticleEditorPage.tsx:293 | only the keywords change: the one at the index goes and putting it back restores the list |
| EditorPage.RemovePoint | lokswami/admin/src/pages/ArticleEditorPage.tsx:239-241 | only the summary changes: the point at the index goes and putting it back restores it |
| EditorPage.EditPoint | lokswami/admin/src/pages/ArticleEditorPage.tsx:228-232 | typing changes that one summary point and nothing else |
| EditorPage.AddPoint | lokswami/admin/src/pages/ArticleEditorPage.tsx:249 | one empty point is appended and the rest is kept |
| EditorPage.ApplyAi | lokswami/admin/src/pages/ArticleEditorPage.tsx:127-135 | each section the AI output carries replaces the form's, everything else is kept |
| EditorPage.ApplyAiIdempotent | lokswami/admin/src/pages/ArticleEditorPage.tsx:127-135 | applying the same AI output twice is applying it once |
| EditorPage.ApplyNothing | lokswami/admin/src/pages/ArticleEditorPage.tsx:127-135 | an empty AI output changes nothing |
| EditorPage.ApplyThenSaveSendsAiOutput | lokswami/admin/src/pages/ArticleEditorPage.tsx:96-135 | after applying all three sections a save sends exactly the AI's summary, tags and SEO record |
| EditorPage.StatusChange | lokswami/admin/src/pages/ArticleEditorPage.tsx:137-151 | only the status changes: at once on an unsaved article, on a saved one only when the server accepts |
| EditorPage.StatusRequest | lokswami/admin/src/pages/ArticleEditorPage.tsx:138-144 | a request goes out exactly for a saved article, carrying its id and the chosen status |
| EditorPage.UnsavedStatusTravelsWithSave | lokswami/admin/src/pages/ArticleEditorPage.tsx:108-139 | a status chosen on an unsaved article sends nothing and travels with the first save |
| CategoriesPage.DeriveSlug | lokswami/admin/src/pages/CategoriesPage.tsx:121 | the derived slug holds only lower-case ASCII letters, digits and hyphens, is no longer than the name, and when non-empty matches the category slug pattern |
| CategoriesPage.DeriveSlugOfSlug | lokswami/admin/src/pages/CategoriesPage.tsx:121 | a string of slug characters derives to itself |
| CategoriesPage.DeriveSlugFixedPoints | lokswami/admin/src/pages/CategoriesPage.tsx:121 | a string derives to itself exactly when it consists of slug characters |
| CategoriesPage.DeriveSlugIdempotent | lokswami/admin/src/pages/CategoriesPage.tsx:121 | deriving twice gives what deriving once gives |
| CategoriesPage.LeadingSpacesOfRun | lokswami/admin/src/pages/CategoriesPage.tsx:121 | `\s+` starting at a run of white space takes the whole run |
| CategoriesPage.CollapseSpacesJoin | lokswami/admin/src/pages/CategoriesPage.tsx:121 | one run of white space between two space-free words becomes one hyphen |
| CategoriesPage.DeriveSlugJoinsWords | lokswami/admin/src/pages/CategoriesPage.tsx:121 | two words of slug characters separated by any white space derive to the words joined by one hyphen |
| CategoriesPage.OpenDialog | lokswami/admin/src/pages/CategoriesPage.tsx:60-75 | opening loads the category's four fields, or empty fields and the default colour `#8B0000` for a new one |
| CategoriesPage.NameChange | lokswami/admin/src/pages/CategoriesPage.tsx:118-123 | the name is set; the slug follows the name only while creating and is kept while editing |
| CategoriesPage.Save | lokswami/admin/src/pages/CategoriesPage.tsx:77-100 | nothing is sent without a name and a slug; otherwise the four fields, as an update exactly when a category is being edited |
| CategoriesPage.ReopenSaveRoundTrip | lokswami/admin/src/pages/CategoriesPage.tsx:60-92 | opening an existing category and saving it unchanged sends its own fields back to it |
| CategoriesPage.RenameKeepsSlug | lokswami/admin/src/pages/CategoriesPage.tsx:118-123 | renaming a category being edited never changes its slug |
| CategoriesPage.NewCategorySlugValid | lokswami/admin/src/pages/CategoriesPage.tsx:77-123 | a new category's save sends a slug matching the server's pattern, and sends nothing exactly when the name has no ASCII letter, digit, hyphen or white space |
| CategoriesPage.SpacedScriptNameSlugIsHyphen | lokswami/admin/src/pages/CategoriesPage.tsx:77-123 | white space between two words of another script (a spaced Hindi name) derives the slug `-`, and the save sends it, so all such names ask for one slug |
| CategoriesPage.BlankNameSlugIsHyphen | lokswami/admin/src/pages/CategoriesPage.tsx:77-123 | a name of one space derives the slug `-`, and the save sends it |
| ArticlesPage.StatusParam | lokswami/admin/src/pages/ArticlesPage.tsx:54 | no status is sent exactly for the `all` choice, any other choice is sent as it is |
| ArticlesPage.ChosenStatusListed | lokswami/admin/src/pages/ArticlesPage.tsx:50-57 | choosing a status lists, to a signed-in user, articles of that status only |
| ArticlesPage.AllChoiceListsPublishedOnly | lokswami/backend/src/controllers/article.controller.ts:26-31 | under the `all` choice the server lists published articles only, so drafts and articles in review never appear there |
| ArticlesPage.FilterByTitle | lokswami/admin/src/pages/ArticlesPage.tsx:81-83 | the search keeps, in order, exactly the fetched articles whose title contains the query ignoring case |
| ArticlesPage.EmptyQueryKeepsAll | lokswami/admin/src/pages/ArticlesPage.tsx:81-83 | an empty search box shows every fetched article |
| ArticlesPage.QueryCaseIgnored | lokswami/admin/src/pages/ArticlesPage.tsx:81-83 | the case of the query does not matter |
| ArticlesPage.SearchIdempotent | lokswami/admin/src/pages/ArticlesPage.tsx:81-83 | searching the result again with the same query changes nothing |
| ArticlesPage.VerbatimTitleFound | lokswami/admin/src/pages/ArticlesPage.tsx:81-83 | a title containing the query verbatim is found |
| Dashboard.Listed | lokswami/admin/src/pages/DashboardPage.tsx:28-34 | the list screens read an article's title, status and view count as stored |
| Dashboard.CountStatus | lokswami/admin/src/pages/DashboardPage.tsx:32-33 | the count is zero exactly when no article has the status, and the whole list when all have it |
| Dashboard.CountStatusAppend | lokswami/admin/src/pages/DashboardPage.tsx:32-33 | counting by status adds up over two lists |
| Dashboard.TotalViews | lokswami/admin/src/pages/DashboardPage.tsx:34 | the total is at least every article's views, a missing count taken as zero, and zero exactly when every article has none |
| Dashboard.TotalViewsAppend | lokswami/admin/src/pages/DashboardPage.tsx:34 | total views add up over two lists |
| Dashboard.TotalViewsOne | lokswami/admin/src/pages/DashboardPage.tsx:34 | one article totals its own views, a missing count as zero; with the append rule the total is the sum of the views |
| Dashboard.Stats | lokswami/admin/src/pages/DashboardPage.tsx:31-41 | the figures are the list's length, the published and draft counts, the total views and its first five articles |
| Dashboard.DashboardFeed | lokswami/admin/src/pages/DashboardPage.tsx:28 | the list the dashboard receives holds at most 50 articles, all published |
| Dashboard.DashboardCountsOnlyPublished | lokswami/backend/src/controllers/article.controller.ts:26-31 | because the request names no status the dashboard counts no drafts and every article it sees as published |
| AdminLayout.ActiveFrom | lokswami/admin/src/components/layout/AdminLayout.tsx:43-48 | the link found from a position on is active, and none is found exactly when none from there is |
| AdminLayout.HrefsDifferEarly | lokswami/admin/src/components/layout/AdminLayout.tsx:19-25 | after the leading slash the five links begin with different characters |
| AdminLayout.AtMostOneActive | lokswami/admin/src/components/layout/AdminLayout.tsx:43-48 | no path highlights two sidebar links |
| AdminLayout.OnlyActive | lokswami/admin/src/components/layout/AdminLayout.tsx:43-48 | an active link is the only active one |
| AdminLayout.ActiveLink | lokswami/admin/src/components/layout/AdminLayout.tsx:43-78 | the highlighted link is the only one active for the path, and none is highlighted exactly when none is active |
| AdminLayout.RootActiveOnlyAtRoot | lokswami/admin/src/components/layout/AdminLayout.tsx:44-45 | the dashboard link is highlighted on the root path and only there |
| AdminLayout.ArticlesActiveBelow | lokswami/admin/src/components/layout/AdminLayout.tsx:47 | the articles link is highlighted on every path that begins with its letters, pages below it included |
| AdminLayout.Breadcrumb | lokswami/admin/src/components/layout/AdminLayout.tsx:137-141 | no breadcrumb exactly on the root path, and a breadcrumb never contains a slash |
| AdminLayout.BreadcrumbIsFirstSegment | lokswami/admin/src/components/layout/AdminLayout.tsx:141 | the breadcrumb of a path is its first segment |
| Workflow.MenuChange | lokswami/admin/src/pages/ArticleEditorPage.tsx:137-151 | an unsaved article changes locally with nothing sent; a saved one follows the server's answer to the status-only update, keeping everything when refused |
| Workflow.UpdateStatusPatch | lokswami/backend/src/controllers/article.controller.ts:208-228 | a status-only update the server accepts sets that status |
| Workflow.SubEditorOfferedApprovalRejected | lokswami/backend/src/controllers/article.controller.ts:193-206 | a sub-editor reviewing their own article is offered EDITOR_APPROVED, the server refuses it as FORBIDDEN and the editor keeps the old status |
| Workflow.SubEditorMenuOffersRefusedMove | lokswami/backend/src/controllers/article.controller.ts:202-206 | from every status but DRAFT a sub-editor's menu offers DRAFT, which the server refuses |
| Workflow.ReporterPublishesPastTheMenu | lokswami/backend/src/controllers/article.controller.ts:192-217 | a reporter is never offered PUBLISHED yet the server publishes the reporter's own article when asked directly |
| Workflow.EditorMovesAccepted | lokswami/backend/src/controllers/article.controller.ts:192-228 | for editors and administrators every move the menu offers is accepted by the server and shown |

## Left out

- ArticleController.UpdateArticle: a failed update changes nothing in the model. In `updateArticle` the counter adjustment (lokswami/backend/src/controllers/article.controller.ts:213, 215) is written before the article (:224). When the article write then fails, on a validator or on the unique slug index, the adjustment stays. Each handler is modelled as one atomic step.
- ArticleController.UpdateArticle: the request's status is an `Option<Status>`, so a status string outside the five values cannot be sent. In the source such a string on a PUBLISHED article first decrements the counter (:214-215). The enum validator then rejects the write with VALIDATION_ERROR, and the drift stays behind.
- ArticleController.UpdateArticle, ArticleController.DeleteArticle, ArticleController.ReadArticle, CategoryController.UpdateCategory, CategoryController.DeleteCategory: ids are natural numbers. A malformed ObjectId, which Mongoose rejects with a CastError that the error handler turns into 400 INVALID_ID, cannot be written. `ErrorHandler.Handle` still maps a CastError to INVALID_ID.
- ArticleController.UpdatePreservesInvariant, ArticleController.UpdateKeepsDocuments, ArticleController.UpdatedArticleWellFormed, ArticleController.UpdateCorrectedPreservesInvariant, ArticleController.CorrectedDocuments: these require that a category id sent in the request was issued at some time (below the store's next id). A well-formed ObjectId that was never issued is not covered.
- Text.Lower: only ASCII letters are lower-cased. JavaScript's `toLowerCase` also maps other letters, and some of them become ASCII: 'İ' (U+0130) becomes "i̇" and the Kelvin sign becomes 'k'. After the filters in lokswami/admin/src/pages/CategoriesPage.tsx:121 and lokswami/backend/src/models/Article.ts:116-117 an 'i' or 'k' survives in the source but not in the model. The same applies wherever `Lower` is used: email and slug setters, tags, and the title search.
- Text.TakeUnits: where `substring(0, n)` would cut a surrogate pair, the model leaves the whole code point out. JavaScript keeps the lone high surrogate, which a Dafny `string` of code points cannot hold.
- ArticleListing.PageNumber, ArticleListing.PageSize: `page` and `limit` arrive as integers or not at all. `parseInt` of a non-numeric string gives NaN in the source, which then reaches the database's `skip` and `limit`; that case is not modelled.
- ArticleListing.ListArticles: the `tag` filter and the `$text` search of `getArticles` (lokswami/backend/src/controllers/article.controller.ts:38-46) are not modelled.
- ArticleListing.SortField: only `publishedAt` and `viewCount` are held as sort keys. Any other `sortBy` field compares every document equal.
- ArticleListing.Matching: documents that tie on the sort key stay in id order, but the database leaves their order unspecified. For a tie on `publishedAt` the model therefore fixes one order of several possible ones.
- GeminiCalls.Summarize, GeminiCalls.SuggestTags, GeminiCalls.GenerateSeo, GeminiCalls.Translate, GeminiCalls.CompleteAssist: the retry loop `callWithRetry` (lokswami/backend/src/services/gemini.service.ts:164-194) is not modelled, nor is its delay or the HTTP call. The model is a parameter that returns a reply or nothing. The fixed wording of the prompts is left out too; only what they quote is kept.
- AuthController.Register: token signing is a parameter that always succeeds. In the source, `generateTokens` can throw after `User.create` has stored the user (for example with no JWT secret configured), giving 500 with the user already stored. Here the user is stored and signed in.
- Storage.FindArticleBySlug, AuthController.FindByEmail: the schema's `lowercase`/`trim` setters are assumed to run on query values as well, as Mongoose does for `findOne` filters on paths with setters.
- CategoryController.UpdateCategory, AuthController.UpdateProfile: a key absent from the body is left unchanged, relying on Mongoose dropping `undefined` values from an update document.
- ArticleModel.IncrementViews: `viewCount` is a natural number without a 2^53 ceiling.
- AuthStore.Initial: the JSON text of the `persist` snapshot is an uninterpreted codec. The version field and migration of `persist`, and storage that throws, are left out.
- EditorPage.ApplyAi: AI tags and keywords replace the lists without de-duplication, as in the source. Only the Enter handlers de-duplicate.
- Routes.Dispatch: the handlers of the related-articles and trending routes, rate limiting and the Express wiring outside the route tables are not modelled.
- EditorPage.Save, CategoriesPage.Save: toasts, navigation after a create, and loading states are left out. The AI assistant panel, the login, media and settings pages and the status badge are not part of this model.
- ArticleController.CreateArticle: a missing title makes `generateSlug` throw on `undefined`. The model reports that as INTERNAL_ERROR, as the error handler does for an unclassified error.
- StatusChanger.Offered: the server consults neither the workflow graph nor the per-target role table, so no server-side "invalid transition" error exists. The model follows the code: `ArticleController.UpdateArticle` accepts any status from an author or editor, subject only to the sub-editor rule. `Workflow` states where the two tiers differ.
- ArticleController.UpdateRepublish: re-entering PUBLISHED with a timestamp already set does not increment the counter, following the code (lokswami/backend/src/controllers/article.controller.ts:211). The corrected bookkeeping is under Findings.

## Findings

| source | as written | input that shows it | evidently intended | confidence | as-written member | corrected member |
|---|---|---|---|---|---|---|
| lokswami/backend/src/controllers/article.controller.ts:211 | the counter is raised only when `publishedAt` is unset, but unpublishing keeps `publishedAt` | an editor publishes an article, moves it back to DRAFT (counter −1), then publishes it again (counter unchanged) | every entry into PUBLISHED counts the article in its category, so the counter equals the published articles filed there | high; not executed | ArticleController.RepublishBreaksCount | ArticleController.UpdateArticleCorrected |
| lokswami/backend/src/controllers/article.controller.ts:224 | a category change on a PUBLISHED article adjusts no counter | an editor sends `{category: c2}` for a published article filed under c1 | the article's count moves from c1 to c2 | high; not executed | ArticleController.MovePublishedBreaksCount | ArticleController.UpdateArticleCorrected |
| lokswami/backend/src/controllers/category.controller.ts:107 | the delete guard trusts a counter that a move leaves at 0 | move a published article into a category with nothing published, then delete that category as ADMIN | a category with a published article cannot be deleted | high; not executed | CategoryController.MovedArticleOutlivesCategory | CategoryController.CorrectedMoveBlocksDelete |
| lokswami/backend/src/controllers/article.controller.ts:185 | the request body is written as sent, `publishedAt` included | the author of a published article sends `{publishedAt: null}` | `publishedAt` is set once, on first publication, and never cleared | high; not executed | ArticleController.ClearedStampBreaksInvariant | ArticleController.UpdateArticleCorrected |
| lokswami/backend/src/controllers/article.controller.ts:185 | the request body is written as sent, `author` included | a reporter sends `{author: other}` for their own article and then can no longer edit or delete it | the author is fixed at creation | medium; not executed | ArticleController.AuthorKeyHandsOver | ArticleController.UpdateArticleCorrected |
| lokswami/admin/src/services/api.ts:41-44 | a 401 removes `adminToken` but leaves the `persist` snapshot | sign in, then receive any 401: the reloaded store is still signed in while requests go out without a token | a 401 signs the user out of the store as well | high; not executed | AuthStore.UnauthorizedKeepsSignedIn | AuthStore.UnauthorizedCorrected |

`ArticleController.UpdateArticleCorrected` ignores `author`, `viewCount` and `publishedAt` in the request, stamps on first publication only, and keeps the counter through `RecountMove`. `UpdateCorrectedPreservesInvariant` proves that it keeps every counter equal to the number of published articles filed in its category. `UpdateArticle` models the code as written and is what `Workflow` uses, because that module describes the behaviour users actually see.

Documented behaviour that looks unintended but has no single intended form is stated as ordinary model rows:
- `Workflow.SubEditorMenuOffersRefusedMove`: the menu offers a sub-editor moves the server refuses.
- `ArticlesPage.AllChoiceListsPublishedOnly` and `Dashboard.DashboardCountsOnlyPublished`: a listing with no status shows only published articles, even to staff.
- `ArticleModel.ScriptOnlyTitleHasNoSlug`: a Devanagari-only title yields an empty slug.
- `GeminiSeo.EmptyTitleTakesNextLine`: `\s*` crosses a line break.
