/**
 * The last middleware: every error a handler throws becomes a JSON failure with an HTTP status and a
 * code, chosen by the first matching branch.
 */
module ErrorHandler {
  import opened Wrappers
  import opened Domain

  /**
   * A thrown error. `AppErr` is the application's own class; every other error is known by its
   * `name`, with the fields the branches read: the server code of a `MongoServerError`, the
   * messages of a validation error's field errors, the keys of a duplicate-key error, and a cast
   * error's path and value.
   */
  datatype Failure =
    | AppErr(message: string, statusCode: int, code: string)
    | Thrown(name: string, message: string, serverCode: Option<int>, fieldMessages: seq<string>, duplicateKeys: seq<string>, castPath: string, castValue: string)

  /** The `AppError` constructor: status 500 and code INTERNAL_ERROR unless given. */
  function NewAppError(message: string, statusCode: Option<int>, code: Option<string>): (e: Failure)
    ensures e.AppErr? && e.message == message
    ensures e.statusCode == (if statusCode.Some? then statusCode.value else 500)
    ensures e.code == (if code.Some? then code.value else CodeName(InternalError))
  {
    AppErr(message, statusCode.GetOr(500), code.GetOr("INTERNAL_ERROR"))
  }

  /** The body sent with `success: false` and a timestamp; `details` only for validation errors. */
  datatype ErrorResponse = ErrorResponse(status: int, error: string, code: string, details: Option<seq<string>>)

  /** The error a controller raises for a rejection: its status and the wire spelling of its code. */
  function RaiseRejection(message: string, r: Rejection): Failure {
    NewAppError(message, Some(r.status), Some(CodeName(r.code)))
  }

  /** `${field}` of a template literal: the first key, or `undefined` when there is none. */
  function FirstKey(keys: seq<string>): (r: string)
    ensures keys != [] ==> r == keys[0]
    ensures keys == [] ==> r == "undefined"
  {
    if keys == [] then "undefined" else keys[0]
  }

  /** The duplicate-key test: a `MongoServerError` with server code 11000. */
  predicate IsDuplicateKey(e: Failure) {
    e.Thrown? && e.name == "MongoServerError" && e.serverCode == Some(11000)
  }

  /**
   * `errorHandler`: the response for a thrown error. In production the message of an
   * unclassified error is replaced by a generic text.
   */
  function Handle(e: Failure, production: bool): (r: ErrorResponse)
    ensures e.AppErr? ==> r.status == e.statusCode && r.code == e.code && r.error == e.message
    ensures e.Thrown? && e.name == "ValidationError" ==>
      r == ErrorResponse(400, "Validation Error", CodeName(ValidationError), Some(e.fieldMessages))
    ensures IsDuplicateKey(e) && e.name != "ValidationError" ==>
      r.status == 409 && r.code == CodeName(DuplicateError) && r.error == FirstKey(e.duplicateKeys) + " already exists"
    ensures r.details.Some? <==> e.Thrown? && e.name == "ValidationError"
    ensures e.Thrown? && r.code == CodeName(InternalError) ==>
      r.status == 500 && r.error == (if production then "Internal server error" else e.message)
  {
    match e
    case AppErr(message, status, code) => ErrorResponse(status, message, code, None)
    case Thrown(name, message, serverCode, fieldMessages, keys, path, value) =>
      if name == "ValidationError" then
        ErrorResponse(400, "Validation Error", "VALIDATION_ERROR", Some(fieldMessages))
      else if name == "MongoServerError" && serverCode == Some(11000) then
        ErrorResponse(409, FirstKey(keys) + " already exists", "DUPLICATE_ERROR", None)
      else if name == "CastError" then
        ErrorResponse(400, "Invalid " + path + ": " + value, "INVALID_ID", None)
      else if name == "JsonWebTokenError" then
        ErrorResponse(401, "Invalid token", "INVALID_TOKEN", None)
      else if name == "TokenExpiredError" then
        ErrorResponse(401, "Token expired", "TOKEN_EXPIRED", None)
      else if name == "MulterError" then
        ErrorResponse(400, message, "FILE_UPLOAD_ERROR", None)
      else
        ErrorResponse(500, if production then "Internal server error" else message, "INTERNAL_ERROR", None)
  }

  /**
   * One row of the handler's table of named errors: the name, whether the row also needs the
   * duplicate-key server code, and the status and code it answers with.
   */
  datatype Rule = Rule(name: string, duplicateOnly: bool, outcome: Rejection)

  /** The named errors the handler recognises, in the order it tries them. */
  const Rules: seq<Rule> := [
    Rule("ValidationError", false, Rejection(400, ValidationError)),
    Rule("MongoServerError", true, Rejection(409, DuplicateError)),
    Rule("CastError", false, Rejection(400, InvalidId)),
    Rule("JsonWebTokenError", false, Rejection(401, InvalidToken)),
    Rule("TokenExpiredError", false, Rejection(401, TokenExpired)),
    Rule("MulterError", false, Rejection(400, FileUploadError))
  ]

  /** The status and code of an error no row claims. */
  const Fallback: Rejection := Rejection(500, InternalError)

  /** The names of the table, in order. */
  const KnownNames: seq<string> := seq(|Rules|, i requires 0 <= i < |Rules| => Rules[i].name)

  predicate Applies(rule: Rule, name: string, serverCode: Option<int>) {
    rule.name == name && (rule.duplicateOnly ==> serverCode == Some(11000))
  }

  /** The outcome of the first row that applies, if any does. */
  function Lookup(rules: seq<Rule>, name: string, serverCode: Option<int>): (r: Option<Rejection>)
    ensures r.None? <==> forall i :: 0 <= i < |rules| ==> !Applies(rules[i], name, serverCode)
    ensures r.Some? ==> exists i ::
      && 0 <= i < |rules| && Applies(rules[i], name, serverCode) && r.value == rules[i].outcome
      && forall k :: 0 <= k < i ==> !Applies(rules[k], name, serverCode)
  {
    if rules == [] then None
    else if Applies(rules[0], name, serverCode) then Some(rules[0].outcome)
    else
      var rest := Lookup(rules[1..], name, serverCode);
      assert forall i :: 1 <= i < |rules| ==> rules[i] == rules[1..][i - 1];
      if rest.Some? then
        var j :| 0 <= j < |rules[1..]| && Applies(rules[1..][j], name, serverCode) && rest.value == rules[1..][j].outcome
          && forall k :: 0 <= k < j ==> !Applies(rules[1..][k], name, serverCode);
        assert Applies(rules[j + 1], name, serverCode) && forall k :: 0 <= k < j + 1 ==> !Applies(rules[k], name, serverCode);
        rest
      else rest
  }

  /** No two rows share a name, so at most one row applies to an error and the order of the rows decides nothing. */
  lemma RulesDistinct()
    ensures forall i, j :: 0 <= i < j < |Rules| ==> Rules[i].name != Rules[j].name
  {
  }

  /** The row of a given position is the one the lookup finds for an error it applies to. */
  lemma LookupFinds(name: string, serverCode: Option<int>, i: nat)
    requires i < |Rules| && Applies(Rules[i], name, serverCode)
    ensures Lookup(Rules, name, serverCode) == Some(Rules[i].outcome)
  {
    RulesDistinct();
    var r := Lookup(Rules, name, serverCode);
    var j :| 0 <= j < |Rules| && Applies(Rules[j], name, serverCode) && r.value == Rules[j].outcome;
    assert Rules[j].name == Rules[i].name;
  }

  /** The handler answers a named error with the status and code of its table row, or 500 INTERNAL_ERROR. */
  lemma HandleFollowsTable(e: Failure, production: bool)
    requires e.Thrown?
    ensures var c := Lookup(Rules, e.name, e.serverCode).GetOr(Fallback);
            Handle(e, production).status == c.status && Handle(e, production).code == CodeName(c.code)
  {
    if i :| 0 <= i < |Rules| && Applies(Rules[i], e.name, e.serverCode) {
      LookupFinds(e.name, e.serverCode, i);
      HandleRow(e, production, i);
    } else {
      HandleUnclaimed(e, production);
    }
  }

  /** An error a row applies to gets that row's status and code. */
  lemma HandleRow(e: Failure, production: bool, i: nat)
    requires e.Thrown? && i < |Rules| && Applies(Rules[i], e.name, e.serverCode)
    ensures Handle(e, production).status == Rules[i].outcome.status
    ensures Handle(e, production).code == CodeName(Rules[i].outcome.code)
  {
    var h := Handle(e, production);
    if i == 0 {
      assert e.name == "ValidationError" && h.code == "VALIDATION_ERROR";
    } else if i == 1 {
      assert IsDuplicateKey(e) && h.code == "DUPLICATE_ERROR";
    } else if i == 2 {
      assert e.name == "CastError" && h.code == "INVALID_ID";
    } else if i == 3 {
      assert e.name == "JsonWebTokenError" && h.code == "INVALID_TOKEN";
    } else if i == 4 {
      assert e.name == "TokenExpiredError" && h.code == "TOKEN_EXPIRED";
    } else {
      assert e.name == "MulterError" && h.code == "FILE_UPLOAD_ERROR";
    }
  }

  /** An error no row applies to gets 500 INTERNAL_ERROR. */
  lemma HandleUnclaimed(e: Failure, production: bool)
    requires e.Thrown? && forall i :: 0 <= i < |Rules| ==> !Applies(Rules[i], e.name, e.serverCode)
    ensures Handle(e, production).status == Fallback.status
    ensures Handle(e, production).code == CodeName(Fallback.code)
  {
    assert !Applies(Rules[0], e.name, e.serverCode) && !Applies(Rules[1], e.name, e.serverCode);
    assert !Applies(Rules[2], e.name, e.serverCode) && !Applies(Rules[3], e.name, e.serverCode);
    assert !Applies(Rules[4], e.name, e.serverCode) && !Applies(Rules[5], e.name, e.serverCode);
    assert Handle(e, production).code == "INTERNAL_ERROR";
  }

  /** An error that is neither an `AppError` nor of a known name gives 500 INTERNAL_ERROR. */
  lemma UnknownIsInternal(e: Failure, production: bool)
    requires e.Thrown? && e.name !in KnownNames
    ensures Handle(e, production).status == 500 && Handle(e, production).code == CodeName(InternalError)
  {
    assert e.name != KnownNames[0] && e.name != KnownNames[1] && e.name != KnownNames[2];
    assert e.name != KnownNames[3] && e.name != KnownNames[4] && e.name != KnownNames[5];
  }

  /** A rejection raised by a controller reaches the client unchanged. */
  lemma RejectionRoundTrip(message: string, r: Rejection, production: bool)
    ensures Handle(RaiseRejection(message, r), production).status == r.status
    ensures Handle(RaiseRejection(message, r), production).code == CodeName(r.code)
    ensures Handle(RaiseRejection(message, r), production).error == message
  {
  }

  /** Production mode changes nothing but the message of an unclassified error. */
  lemma ProductionMasksOnlyUnclassified(e: Failure)
    ensures Handle(e, true).status == Handle(e, false).status && Handle(e, true).code == Handle(e, false).code
    ensures Handle(e, true).error != Handle(e, false).error ==>
      e.Thrown? && Handle(e, true).code == CodeName(InternalError) && Handle(e, true).error == "Internal server error"
  {
  }

  /** A MongoServerError with any other server code is not a duplicate: it falls through to 500. */
  lemma OtherServerErrorsAreInternal(e: Failure, production: bool)
    requires e.Thrown? && e.name == "MongoServerError" && e.serverCode != Some(11000)
    ensures Handle(e, production).status == 500
  {
  }
}
