/**
 * The User document: name, e-mail address, password hash, role and the active flag, with its
 * setters, validators and the hook that hashes a changed password.
 */
module UserModel {
  import opened Wrappers
  import opened Seqs
  import opened Text
  import opened Domain

  type UserId = nat

  datatype User = User(name: string, email: string, password: string, role: Role, isActive: bool)

  predicate IsAt(c: char) { c == '@' }
  predicate IsDot(c: char) { c == '.' }

  /** `[\w-.]`, the characters before the `@`. */
  predicate IsLocalChar(c: char) { IsWordChar(c) || c == '-' || c == '.' }

  /** `[\w-]`, the characters of a domain label. */
  predicate IsLabelChar(c: char) { IsWordChar(c) || c == '-' }

  /** `([\w-]+\.)+[\w-]{2,4}`: two or more non-empty labels joined by dots, the last of 2 to 4 characters. */
  predicate IsDomain(d: string) {
    var labels := Split(d, IsDot);
    && |labels| >= 2
    && (forall k :: 0 <= k < |labels| ==> labels[k] != [] && All(labels[k], IsLabelChar))
    && 2 <= |labels[|labels| - 1]| <= 4
  }

  /**
   * The address pattern `^[\w-\.]+@([\w-]+\.)+[\w-]{2,4}$`. No allowed character is an `@`, so an
   * address has exactly one, with a local part before it and a domain after it.
   */
  predicate IsEmail(s: string) {
    var parts := Split(s, IsAt);
    && |parts| == 2
    && parts[0] != [] && All(parts[0], IsLocalChar)
    && IsDomain(parts[1])
  }

  /** Every address of the shape `local@host.tld` matches the pattern. */
  lemma EmailShape(local: string, host: string, tld: string)
    requires local != [] && All(local, IsLocalChar)
    requires host != [] && All(host, IsLabelChar)
    requires 2 <= |tld| <= 4 && All(tld, IsLabelChar)
    ensures IsEmail(local + "@" + host + "." + tld)
  {
    var domain := host + "." + tld;
    SplitNoSeparator(domain, IsAt);
    SplitAtSeparator(local, '@', domain, IsAt);
    assert local + "@" + host + "." + tld == local + ['@'] + domain;
    SplitNoSeparator(tld, IsDot);
    SplitAtSeparator(host, '.', tld, IsDot);
    assert domain == host + ['.'] + tld;
    assert Split(domain, IsDot) == [host, tld];
  }

  /** An address with no dot after the `@` does not match. */
  lemma EmailNeedsDottedDomain(local: string, host: string)
    requires NoneOf(host, IsDot) && NoneOf(local, IsAt) && NoneOf(host, IsAt)
    ensures !IsEmail(local + "@" + host)
  {
    SplitNoSeparator(host, IsAt);
    SplitAtSeparator(local, '@', host, IsAt);
    assert local + "@" + host == local + ['@'] + host;
    SplitNoSeparator(host, IsDot);
  }

  function NameViolations(name: string): (r: seq<string>)
    ensures r == [] <==> name != "" && Units(name) <= 100
    ensures |r| <= 1
  {
    if name == "" then ["Name is required"]
    else if Units(name) > 100 then ["Name cannot exceed 100 characters"]
    else []
  }

  function EmailViolations(email: string): (r: seq<string>)
    ensures r == [] <==> IsEmail(email)
    ensures |r| <= 1
  {
    if email == "" then ["Email is required"]
    else if !IsEmail(email) then ["Please enter a valid email"]
    else []
  }

  /** Checked on the plain text, before the hook hashes it. */
  function PasswordViolations(password: string): (r: seq<string>)
    ensures r == [] <==> Units(password) >= 8
    ensures |r| <= 1
  {
    if password == "" then ["Password is required"]
    else if Units(password) < 8 then ["Password must be at least 8 characters"]
    else []
  }

  /** The `role` enum: one of the four names; absent means the default, REPORTER. */
  function RoleOf(name: Option<string>): (r: Result<Role, seq<string>>)
    ensures name.None? ==> r == Ok(Reporter)
    ensures name.Some? ==> (r.Ok? <==> ParseRole(name.value).Some?)
    ensures r.Ok? && name.Some? ==> RoleName(r.value) == name.value
  {
    match name
    case None => Ok(Reporter)
    case Some(n) =>
      match ParseRole(n)
      case None => Err(["`" + n + "` is not a valid enum value for path `role`."])
      case Some(role) => Ok(role)
  }

  /** A stored user: the setters applied and every validator passed. */
  predicate WellFormed(u: User) {
    && Trimmed(u.name) && u.name != "" && Units(u.name) <= 100
    && u.email == LowerTrim(u.email) && IsEmail(u.email)
  }

  /**
   * `new User({...})` and validation: the new document with `isActive` true and the password still
   * in plain text, or the messages of the failing validators.
   */
  function NewUser(name: string, email: string, password: string, role: Option<string>): (r: Result<User, seq<string>>)
    ensures r.Ok? <==>
      && Trim(name) != "" && Units(Trim(name)) <= 100 && IsEmail(LowerTrim(email)) && Units(password) >= 8
      && (role.Some? ==> ParseRole(role.value).Some?)
    ensures r.Ok? ==> WellFormed(r.value) && r.value.isActive
    ensures r.Ok? ==> r.value.name == Trim(name) && r.value.email == LowerTrim(email) && r.value.password == password
    ensures r.Ok? && role.Some? ==> ParseRole(role.value) == Some(r.value.role)
    ensures r.Ok? && role.None? ==> r.value.role == Reporter
    ensures r.Err? ==> r.error != []
  {
    var errors := Violations(name, email, password, role);
    if errors == [] then Ok(Created(name, email, password, RoleOf(role).value))
    else Err(errors)
  }

  /** The document `new User` builds from input that passes the validators. */
  function Created(name: string, email: string, password: string, role: Role): (u: User)
    requires Trim(name) != "" && Units(Trim(name)) <= 100 && IsEmail(LowerTrim(email))
    ensures WellFormed(u) && u.isActive
    ensures u.name == Trim(name) && u.email == LowerTrim(email) && u.password == password && u.role == role
  {
    LowerTrimIdempotent(email);
    TrimIdempotent(name);
    User(Trim(name), LowerTrim(email), password, role, true)
  }

  /** The messages of every failing validator, in schema order; none exactly when all pass. */
  function Violations(name: string, email: string, password: string, role: Option<string>): (r: seq<string>)
    ensures r == [] <==>
      && Trim(name) != "" && Units(Trim(name)) <= 100 && IsEmail(LowerTrim(email)) && Units(password) >= 8
      && RoleOf(role).Ok?
  {
    var roleResult := RoleOf(role);
    var roleErrors := if roleResult.Err? then roleResult.error else [];
    assert roleResult.Err? ==> roleErrors != [];
    var errors := NameViolations(Trim(name)) + EmailViolations(LowerTrim(email)) + PasswordViolations(password) + roleErrors;
    assert |errors| == |NameViolations(Trim(name))| + |EmailViolations(LowerTrim(email))| + |PasswordViolations(password)| + |roleErrors|;
    errors
  }

  /**
   * The pre-save hook: a modified password is replaced by its hash; otherwise the stored hash is
   * kept. `hash` stands for bcrypt with a fresh salt.
   */
  function PreSave(u: User, passwordModified: bool, hash: string -> string): (r: User)
    ensures r.(password := u.password) == u
    ensures passwordModified ==> r.password == hash(u.password)
    ensures !passwordModified ==> r.password == u.password
  {
    if passwordModified then u.(password := hash(u.password)) else u
  }

  /** Saving again without touching the password never hashes the hash. */
  lemma SaveUnmodifiedKeepsHash(u: User, hash: string -> string)
    ensures PreSave(PreSave(u, true, hash), false, hash).password == hash(u.password)
  {
  }
}
