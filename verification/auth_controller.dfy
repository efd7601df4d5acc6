/**
 * The account endpoints: register, login, token refresh, the caller's profile and its update.
 * Token signing and password hashing are parameters: the model returns the payload a token would
 * carry.
 */
module AuthController {
  import opened Wrappers
  import opened Text
  import opened Domain
  import opened UserModel
  import opened AuthMiddleware
  import Storage

  /** The users collection: documents by id, ids issued by a counter. */
  datatype Users = Users(byId: map<UserId, User>, nextId: nat)

  /** Every id in use was issued. */
  predicate UsersIssued(db: Users) {
    forall id :: id in db.byId ==> id < db.nextId
  }

  /** Every stored document passed the setters and validators. */
  predicate AllWellFormed(m: map<UserId, User>) {
    forall id :: id in m ==> WellFormed(m[id])
  }

  /** The unique index on `email`. */
  predicate UniqueEmails(m: map<UserId, User>) {
    forall i, j :: i in m && j in m && i != j ==> m[i].email != m[j].email
  }

  /** The invariant of the collection: ids issued, documents well formed, addresses unique. */
  predicate UsersInvariant(db: Users) {
    UsersIssued(db) && AllWellFormed(db.byId) && UniqueEmails(db.byId)
  }

  /** Storing a well-formed document keeps every document well formed. */
  lemma StoreKeepsWellFormed(m: map<UserId, User>, id: UserId, u: User)
    requires AllWellFormed(m) && WellFormed(u)
    ensures AllWellFormed(m[id := u])
  {
    var m' := m[id := u];
    forall k | k in m' ensures WellFormed(m'[k]) {
      if k != id { assert m'[k] == m[k]; }
    }
  }

  /** Storing a document whose address no other document has keeps the addresses unique. */
  lemma StoreKeepsUnique(m: map<UserId, User>, id: UserId, u: User)
    requires UniqueEmails(m)
    requires forall other :: other in m && other != id ==> m[other].email != u.email
    ensures UniqueEmails(m[id := u])
  {
    var m' := m[id := u];
    forall i, j | i in m' && j in m' && i != j ensures m'[i].email != m'[j].email {
      if i != id && j != id {
        assert m'[i] == m[i] && m'[j] == m[j];
      } else if i == id {
        assert m'[j] == m[j];
      } else {
        assert m'[i] == m[i];
      }
    }
  }

  /**
   * Storing a well-formed document at `id`, below the new counter, keeps the invariant when no
   * other document has its address.
   */
  lemma StoreUserPreserves(db: Users, id: UserId, u: User, nextId: nat)
    requires UsersInvariant(db)
    requires WellFormed(u)
    requires forall other :: other in db.byId && other != id ==> db.byId[other].email != u.email
    requires db.nextId <= nextId && id < nextId
    ensures UsersInvariant(Users(db.byId[id := u], nextId))
  {
    StoreKeepsWellFormed(db.byId, id, u);
    StoreKeepsUnique(db.byId, id, u);
  }

  /** The test of a user query on `email`. */
  function HasEmail(email: string): User -> bool {
    (u: User) => u.email == email
  }

  /** `User.findOne({ email })`, the query value passed through the address setters. */
  function FindByEmail(db: Users, email: string): (r: Option<UserId>)
    requires UsersIssued(db)
    ensures r.Some? ==> r.value in db.byId && db.byId[r.value].email == LowerTrim(email)
    ensures r.None? <==> forall id :: id in db.byId ==> db.byId[id].email != LowerTrim(email)
  {
    var q := LowerTrim(email);
    var r := Storage.FindBelow(db.byId, HasEmail(q), db.nextId);
    assert r.None? ==> forall id :: id in db.byId ==> db.byId[id].email != q by {
      if r.None? {
        forall id | id in db.byId ensures db.byId[id].email != q {
          assert !HasEmail(q)(db.byId[id]);
        }
      }
    }
    r
  }

  /** What the token of user `id` carries: the id and the stored address and role. */
  function PayloadOf(db: Users, id: UserId): (p: Payload)
    requires id in db.byId
    ensures p.userId == id && p.email == db.byId[id].email && p.role == db.byId[id].role
  {
    Payload(id, db.byId[id].email, db.byId[id].role)
  }

  // ---------------------------------------------------------------------------------------------
  // register
  // ---------------------------------------------------------------------------------------------

  datatype RegisterRequest = RegisterRequest(name: string, email: string, password: string, role: Option<string>)

  /** `role || 'REPORTER'`: an absent or empty role is the default. */
  function RequestedRole(role: Option<string>): (r: Option<string>)
    ensures r.Some? <==> role.Some? && role.value != ""
    ensures r.Some? ==> r == role
  {
    if role.Some? && role.value != "" then role else None
  }

  /** A signed-in session: the collection after the call and the payload of the tokens issued. */
  datatype Session = Session(db: Users, payload: Payload)

  /** `u` stored under the next id, its password hashed by the hook, and that user signed in. */
  predicate Registered(db: Users, u: User, hash: string -> string, r: Session) {
    && r.db == Users(db.byId[db.nextId := PreSave(u, true, hash)], db.nextId + 1)
    && r.payload == Payload(db.nextId, u.email, u.role)
  }

  /**
   * `register`: USER_EXISTS for a taken address; VALIDATION_ERROR from the schema; otherwise the
   * new active user, stored with its password hashed, and the payload of its tokens.
   */
  function Register(db: Users, req: RegisterRequest, hash: string -> string): (r: Result<Session, Rejection>)
    requires UsersIssued(db)
    ensures FindByEmail(db, req.email).Some? ==> r == Err(Rejection(409, UserExists))
    ensures r.Err? ==> r.error in {Rejection(409, UserExists), Rejection(400, ValidationError)}
    ensures r.Ok? <==> FindByEmail(db, req.email).None? && NewUser(req.name, req.email, req.password, RequestedRole(req.role)).Ok?
    ensures r.Ok? ==> Registered(db, NewUser(req.name, req.email, req.password, RequestedRole(req.role)).value, hash, r.value)
  {
    if FindByEmail(db, req.email).Some? then Err(Rejection(409, UserExists))
    else match NewUser(req.name, req.email, req.password, RequestedRole(req.role))
      case Err(_) => Err(Rejection(400, ValidationError))
      case Ok(u) =>
        Ok(Session(Users(db.byId[db.nextId := PreSave(u, true, hash)], db.nextId + 1), Payload(db.nextId, u.email, u.role)))
  }

  /** Storing a well-formed user under a fresh id and an unused address keeps the invariant. */
  lemma RegisteredPreservesInvariant(db: Users, u: User, hash: string -> string, r: Session)
    requires UsersInvariant(db)
    requires WellFormed(u)
    requires forall id :: id in db.byId ==> db.byId[id].email != u.email
    requires Registered(db, u, hash, r)
    ensures UsersInvariant(r.db)
  {
    var stored := PreSave(u, true, hash);
    assert WellFormed(stored) by {
      assert stored.name == u.name && stored.email == u.email;
    }
    assert forall other :: other in db.byId && other != db.nextId ==> db.byId[other].email != stored.email by {
      assert stored.email == u.email;
    }
    StoreUserPreserves(db, db.nextId, stored, db.nextId + 1);
  }

  /** The payload of a registration describes the user just stored. */
  lemma RegisteredPayload(db: Users, u: User, hash: string -> string, r: Session)
    requires Registered(db, u, hash, r)
    ensures r.payload.userId in r.db.byId && r.payload == PayloadOf(r.db, r.payload.userId)
    ensures r.db.byId[r.payload.userId].isActive == u.isActive
  {
    assert r.db.byId[r.payload.userId] == PreSave(u, true, hash);
  }

  /** Registering keeps the collection consistent, and the payload describes the active user stored. */
  lemma RegisterPreservesInvariant(db: Users, req: RegisterRequest, hash: string -> string)
    requires UsersInvariant(db)
    ensures Register(db, req, hash).Ok? ==> UsersInvariant(Register(db, req, hash).value.db)
    ensures Register(db, req, hash).Ok? ==>
      var r := Register(db, req, hash).value;
      r.payload.userId in r.db.byId && r.payload == PayloadOf(r.db, r.payload.userId) && r.db.byId[r.payload.userId].isActive
  {
    if Register(db, req, hash).Ok? {
      var u := NewUser(req.name, req.email, req.password, RequestedRole(req.role)).value;
      RegisteredPreservesInvariant(db, u, hash, Register(db, req, hash).value);
      RegisteredPayload(db, u, hash, Register(db, req, hash).value);
    }
  }

  /**
   * The role comes from the request body and the route is public: anyone may open an ADMIN account
   * under a fresh address.
   */
  lemma SelfRegisterAsAdmin(db: Users, name: string, email: string, password: string, hash: string -> string)
    requires UsersIssued(db)
    requires FindByEmail(db, email).None?
    requires Trim(name) != "" && Units(Trim(name)) <= 100 && IsEmail(LowerTrim(email)) && Units(password) >= 8
    ensures Register(db, RegisterRequest(name, email, password, Some("ADMIN")), hash).Ok?
    ensures Register(db, RegisterRequest(name, email, password, Some("ADMIN")), hash).value.payload.role == Admin
  {
    assert RequestedRole(Some("ADMIN")) == Some("ADMIN");
    assert ParseRole("ADMIN") == Some(Admin);
    var u := NewUser(name, email, password, Some("ADMIN"));
    assert u.Ok? && u.value.role == Admin;
  }

  // ---------------------------------------------------------------------------------------------
  // login
  // ---------------------------------------------------------------------------------------------

  /**
   * `login`: INVALID_CREDENTIALS for an unknown address, ACCOUNT_INACTIVE for a deactivated account
   * (before the password is looked at), INVALID_CREDENTIALS for a wrong password. `matches` is
   * bcrypt's comparison of a candidate with the stored hash.
   */
  function Login(db: Users, email: string, password: string, matches: (string, string) -> bool): (r: Result<Payload, Rejection>)
    requires UsersIssued(db)
    ensures FindByEmail(db, email).None? ==> r == Err(Rejection(401, InvalidCredentials))
    ensures FindByEmail(db, email).Some? ==>
      var u := db.byId[FindByEmail(db, email).value];
      && (!u.isActive ==> r == Err(Rejection(403, AccountInactive)))
      && (u.isActive && !matches(password, u.password) ==> r == Err(Rejection(401, InvalidCredentials)))
      && (u.isActive && matches(password, u.password) ==> r == Ok(PayloadOf(db, FindByEmail(db, email).value)))
  {
    match FindByEmail(db, email)
    case None => Err(Rejection(401, InvalidCredentials))
    case Some(id) =>
      var u := db.byId[id];
      if !u.isActive then Err(Rejection(403, AccountInactive))
      else if !matches(password, u.password) then Err(Rejection(401, InvalidCredentials))
      else Ok(PayloadOf(db, id))
  }

  /** An unknown address and a wrong password are answered alike. */
  lemma LoginFailuresIndistinguishable(db: Users, unknown: string, known: string, wrong: string, matches: (string, string) -> bool)
    requires UsersIssued(db)
    requires FindByEmail(db, unknown).None?
    requires FindByEmail(db, known).Some?
    requires var u := db.byId[FindByEmail(db, known).value]; u.isActive && !matches(wrong, u.password)
    ensures Login(db, unknown, wrong, matches) == Login(db, known, wrong, matches)
  {
  }

  /** A deactivated account is refused whatever the password: the password is never compared. */
  lemma InactiveRefusedRegardlessOfPassword(db: Users, email: string, p1: string, p2: string, matches: (string, string) -> bool)
    requires UsersIssued(db)
    requires FindByEmail(db, email).Some? && !db.byId[FindByEmail(db, email).value].isActive
    ensures Login(db, email, p1, matches) == Login(db, email, p2, matches) == Err(Rejection(403, AccountInactive))
  {
  }

  // ---------------------------------------------------------------------------------------------
  // refreshToken
  // ---------------------------------------------------------------------------------------------

  /**
   * `refreshToken`: NO_REFRESH_TOKEN without a token; INVALID_REFRESH_TOKEN when it does not
   * verify (an unset or empty secret included) or its user is gone or inactive; otherwise a new payload
   * read from the stored user.
   */
  function Refresh(db: Users, token: Option<string>, secret: Option<string>, verify: Verifier): (r: Result<Payload, Rejection>)
    ensures token.None? || token == Some("") ==> r == Err(Rejection(401, NoRefreshToken))
    ensures r.Err? ==> r.error in {Rejection(401, NoRefreshToken), Rejection(401, InvalidRefreshToken)}
    ensures r.Ok? <==>
      && token.Some? && token.value != "" && SecretSet(secret)
      && verify(token.value, secret.value).Valid?
      && var id := verify(token.value, secret.value).payload.userId;
         id in db.byId && db.byId[id].isActive
    ensures r.Ok? ==> r.value == PayloadOf(db, verify(token.value, secret.value).payload.userId)
  {
    if token.None? || token.value == "" then Err(Rejection(401, NoRefreshToken))
    else if !SecretSet(secret) then Err(Rejection(401, InvalidRefreshToken))
    else match verify(token.value, secret.value)
      case Valid(p) =>
        if p.userId !in db.byId || !db.byId[p.userId].isActive then Err(Rejection(401, InvalidRefreshToken))
        else Ok(PayloadOf(db, p.userId))
      case _ => Err(Rejection(401, InvalidRefreshToken))
  }

  /**
   * A refreshed token carries the user's current role, not the one in the old token: a demotion
   * or promotion takes effect at the next refresh.
   */
  lemma RefreshReadsCurrentRole(db: Users, token: string, secret: string, verify: Verifier)
    requires Refresh(db, Some(token), Some(secret), verify).Ok?
    ensures Refresh(db, Some(token), Some(secret), verify).value.role == db.byId[verify(token, secret).payload.userId].role
  {
  }

  // ---------------------------------------------------------------------------------------------
  // getMe, updateProfile
  // ---------------------------------------------------------------------------------------------

  /** The profile `getMe` returns. */
  datatype Profile = Profile(id: UserId, name: string, email: string, role: Role, isActive: bool)

  /** `getMe`: the caller's own profile, or USER_NOT_FOUND (404) when the account is gone. */
  function GetMe(db: Users, caller: Payload): (r: Result<Profile, Rejection>)
    ensures caller.userId !in db.byId <==> r == Err(Rejection(404, UserNotFound))
    ensures r.Ok? ==>
      var u := db.byId[caller.userId];
      r.value == Profile(caller.userId, u.name, u.email, u.role, u.isActive)
  {
    if caller.userId !in db.byId then Err(Rejection(404, UserNotFound))
    else
      var u := db.byId[caller.userId];
      Ok(Profile(caller.userId, u.name, u.email, u.role, u.isActive))
  }

  /** Another user already has the address `email` would be stored as. */
  predicate EmailTakenByOther(db: Users, id: UserId, email: string) {
    exists other :: other in db.byId && other != id && db.byId[other].email == LowerTrim(email)
  }

  /** The update validators of the two paths `updateProfile` sets. */
  function ProfileViolations(name: Option<string>, email: Option<string>): seq<string> {
    (if name.Some? then NameViolations(Trim(name.value)) else [])
    + (if email.Some? then EmailViolations(LowerTrim(email.value)) else [])
  }

  /**
   * `updateProfile`: EMAIL_EXISTS when a non-empty address belongs to another user; VALIDATION_ERROR
   * from the update validators; USER_NOT_FOUND when the account is gone; otherwise the name and
   * address are written where given and nothing else changes.
   */
  function UpdateProfile(db: Users, id: UserId, name: Option<string>, email: Option<string>): (r: Result<Users, Rejection>)
    ensures email.Some? && email.value != "" && EmailTakenByOther(db, id, email.value) ==> r == Err(Rejection(409, EmailExists))
    ensures r.Err? ==> r.error in {Rejection(409, EmailExists), Rejection(400, ValidationError), Rejection(404, UserNotFound)}
    ensures id !in db.byId ==> r.Err?
    ensures r.Ok? ==>
      && id in db.byId && id in r.value.byId
      && var u := db.byId[id];
      && r.value == db.(byId := db.byId[id := r.value.byId[id]])
      && r.value.byId[id] == u.(name := if name.Some? then Trim(name.value) else u.name,
                                email := if email.Some? then LowerTrim(email.value) else u.email)
  {
    if email.Some? && email.value != "" && EmailTakenByOther(db, id, email.value) then Err(Rejection(409, EmailExists))
    else if ProfileViolations(name, email) != [] then Err(Rejection(400, ValidationError))
    else if id !in db.byId then Err(Rejection(404, UserNotFound))
    else
      var u := db.byId[id];
      var u' := u.(name := if name.Some? then Trim(name.value) else u.name,
                   email := if email.Some? then LowerTrim(email.value) else u.email);
      Ok(db.(byId := db.byId[id := u']))
  }

  /** A profile update never changes the role, the active flag or the password. */
  lemma UpdateProfileKeepsPrivileges(db: Users, id: UserId, name: Option<string>, email: Option<string>)
    requires UpdateProfile(db, id, name, email).Ok?
    ensures var u' := UpdateProfile(db, id, name, email).value.byId[id];
            u'.role == db.byId[id].role && u'.isActive == db.byId[id].isActive && u'.password == db.byId[id].password
  {
  }

  /** An address that passes validation is not empty. */
  lemma ValidEmailNotEmpty(email: string)
    requires IsEmail(LowerTrim(email))
    ensures email != ""
  {
  }

  /** A profile update keeps the collection consistent: addresses stay unique and valid. */
  lemma UpdateProfilePreservesInvariant(db: Users, id: UserId, name: Option<string>, email: Option<string>)
    requires UsersInvariant(db)
    ensures UpdateProfile(db, id, name, email).Ok? ==> UsersInvariant(UpdateProfile(db, id, name, email).value)
  {
    if UpdateProfile(db, id, name, email).Ok? {
      var db' := UpdateProfile(db, id, name, email).value;
      var u' := db'.byId[id];
      assert ProfileViolations(name, email) == [];
      if email.Some? {
        assert EmailViolations(LowerTrim(email.value)) == [];
        LowerTrimIdempotent(email.value);
        ValidEmailNotEmpty(email.value);
        assert !EmailTakenByOther(db, id, email.value);
      }
      if name.Some? {
        assert NameViolations(Trim(name.value)) == [];
        TrimIdempotent(name.value);
      }
      assert WellFormed(u');
      if email.None? {
        assert u'.email == db.byId[id].email;
      }
      StoreUserPreserves(db, id, u', db.nextId);
    }
  }
}
