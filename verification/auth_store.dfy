/**
 * The admin panel's authentication store: who is signed in and with which token. The store is
 * wrapped in zustand's `persist`, which writes a snapshot of the whole state to the browser's
 * key-value storage under `lokswami-auth` on every change and reads it back when the page loads;
 * the actions themselves also keep the token under `adminToken`, where the API client reads it.
 */
module AuthStore {
  import opened Wrappers
  import opened Domain

  /** The signed-in user as the admin panel holds it. */
  datatype AdminUser = AdminUser(id: string, name: string, email: string, role: Role, isActive: bool)

  /** The store's state. */
  datatype AuthState = AuthState(user: Option<AdminUser>, token: Option<string>, isAuthenticated: bool)

  /** The browser's `localStorage`: string keys to string values. */
  type Storage = map<string, string>

  /**
   * The text form of a snapshot, left uninterpreted: `JSON.stringify` of the state and `JSON.parse`
   * back, `None` when the text does not parse.
   */
  datatype Codec = Codec(encode: AuthState -> string, decode: string -> Option<AuthState>)

  /** Parsing a written snapshot gives back the state it was written from. */
  ghost predicate Faithful(codec: Codec) {
    forall a: AuthState :: codec.decode(codec.encode(a)) == Some(a)
  }

  /** The store together with the storage it writes. */
  datatype Session = Session(state: AuthState, storage: Storage)

  /** The storage key of the token. */
  const TokenKey: string := "adminToken"

  /** The key `persist` keeps the snapshot under. */
  const PersistKey: string := "lokswami-auth"

  /** The state before anyone signs in. */
  const SignedOut: AuthState := AuthState(None, None, false)

  /** User, token and flag agree: all present when signed in, all absent when not. */
  predicate Consistent(a: AuthState) {
    && (a.isAuthenticated <==> a.token.Some?)
    && (a.user.Some? <==> a.token.Some?)
  }

  /** `getAuthToken`: the token the storage holds, `None` for `null`. */
  function GetAuthToken(storage: Storage): (r: Option<string>)
    ensures r.Some? <==> TokenKey in storage
    ensures r.Some? ==> r.value == storage[TokenKey]
  {
    if TokenKey in storage then Some(storage[TokenKey]) else None
  }

  /** The storage agrees with the store about the token. */
  predicate Synced(s: Session) {
    GetAuthToken(s.storage) == s.state.token
  }

  /** The snapshot in the storage reads back as the store's state. */
  predicate Persisted(s: Session, codec: Codec) {
    PersistKey in s.storage && codec.decode(s.storage[PersistKey]) == Some(s.state)
  }

  /** Two storages that agree on every key the store does not write. */
  ghost predicate SameOtherKeys(a: Storage, b: Storage) {
    forall k :: k != TokenKey && k != PersistKey ==> (k in a <==> k in b) && (k in a ==> a[k] == b[k])
  }

  /** `set(state)` under `persist`: the new state, and its snapshot written at once. */
  function SetState(s: Session, state: AuthState, codec: Codec): (r: Session)
    ensures r.state == state
    ensures PersistKey in r.storage && r.storage[PersistKey] == codec.encode(state)
    ensures Faithful(codec) ==> Persisted(r, codec)
    ensures GetAuthToken(r.storage) == GetAuthToken(s.storage)
    ensures SameOtherKeys(s.storage, r.storage)
  {
    Session(state, s.storage[PersistKey := codec.encode(state)])
  }

  /**
   * The store as the page load creates it: the state of a snapshot that parses, written back; the
   * signed-out state with its snapshot written when there is none; and the signed-out state with
   * the storage untouched when the snapshot does not parse.
   */
  function Initial(storage: Storage, codec: Codec): (r: Session)
    ensures PersistKey !in storage ==> r.state == SignedOut && r.storage == storage[PersistKey := codec.encode(SignedOut)]
    ensures PersistKey in storage && codec.decode(storage[PersistKey]).Some? ==>
      r.state == codec.decode(storage[PersistKey]).value
    ensures PersistKey in storage && codec.decode(storage[PersistKey]).None? ==> r == Session(SignedOut, storage)
    ensures Faithful(codec) && (PersistKey !in storage || codec.decode(storage[PersistKey]).Some?) ==> Persisted(r, codec)
    ensures GetAuthToken(r.storage) == GetAuthToken(storage)
    ensures SameOtherKeys(storage, r.storage)
  {
    var start := Session(SignedOut, storage);
    if PersistKey !in storage then SetState(start, SignedOut, codec)
    else match codec.decode(storage[PersistKey])
      case Some(restored) => SetState(start, restored, codec)
      case None => start
  }

  /** `login(user, token)`: sign in, then store the token. */
  function Login(s: Session, user: AdminUser, token: string, codec: Codec): (r: Session)
    ensures Consistent(r.state) && r.state.isAuthenticated
    ensures r.state.user == Some(user)
    ensures GetAuthToken(r.storage) == Some(token) && Synced(r)
    ensures Faithful(codec) ==> Persisted(r, codec)
    ensures SameOtherKeys(s.storage, r.storage)
  {
    var t := SetState(s, AuthState(Some(user), Some(token), true), codec);
    t.(storage := t.storage[TokenKey := token])
  }

  /** `logout()`: forget user and token, then remove the stored token. */
  function Logout(s: Session, codec: Codec): (r: Session)
    ensures Consistent(r.state) && !r.state.isAuthenticated && r.state.user.None?
    ensures GetAuthToken(r.storage) == None && Synced(r)
    ensures Faithful(codec) ==> Persisted(r, codec)
    ensures SameOtherKeys(s.storage, r.storage)
  {
    var t := SetState(s, SignedOut, codec);
    t.(storage := t.storage - {TokenKey})
  }

  /** The two actions of the store. */
  datatype Action = LoginAction(user: AdminUser, token: string) | LogoutAction

  function Step(s: Session, a: Action, codec: Codec): Session {
    match a
    case LoginAction(user, token) => Login(s, user, token, codec)
    case LogoutAction => Logout(s, codec)
  }

  /** The session after a sequence of actions, first to last. */
  function Run(s: Session, actions: seq<Action>, codec: Codec): Session
    decreases |actions|
  {
    if actions == [] then s else Run(Step(s, actions[0], codec), actions[1..], codec)
  }

  /** Signed in exactly when a token is held, after any sequence of logins and logouts. */
  lemma {:induction false} RunConsistent(s: Session, actions: seq<Action>, codec: Codec)
    requires Consistent(s.state)
    ensures Consistent(Run(s, actions, codec).state)
    ensures Run(s, actions, codec).state.isAuthenticated <==> Run(s, actions, codec).state.token.Some?
    decreases |actions|
  {
    if actions != [] {
      RunConsistent(Step(s, actions[0], codec), actions[1..], codec);
    }
  }

  /**
   * After at least one action the last one alone decides the outcome: signed in with its token
   * after a login, signed out after a logout; the stored token and the snapshot agree either way.
   */
  lemma {:induction false} LastActionDecides(s: Session, actions: seq<Action>, codec: Codec)
    requires actions != []
    ensures var last := actions[|actions| - 1];
      && Synced(Run(s, actions, codec))
      && (Faithful(codec) ==> Persisted(Run(s, actions, codec), codec))
      && Run(s, actions, codec).state.isAuthenticated == last.LoginAction?
      && (last.LoginAction? ==> GetAuthToken(Run(s, actions, codec).storage) == Some(last.token)
                                && Run(s, actions, codec).state.user == Some(last.user))
    decreases |actions|
  {
    if |actions| > 1 {
      LastActionDecides(Step(s, actions[0], codec), actions[1..], codec);
      assert actions[1..][|actions[1..]| - 1] == actions[|actions| - 1];
    }
  }

  /** No action touches any storage key but the token's and the snapshot's. */
  lemma {:induction false} RunKeepsOtherKeys(s: Session, actions: seq<Action>, codec: Codec)
    ensures SameOtherKeys(s.storage, Run(s, actions, codec).storage)
    decreases |actions|
  {
    if actions != [] {
      RunKeepsOtherKeys(Step(s, actions[0], codec), actions[1..], codec);
    }
  }

  /**
   * Reloading the page after any action restores the session exactly: the snapshot gives back the
   * state, and writing it again leaves the storage as it was.
   */
  lemma ReloadRestores(s: Session, actions: seq<Action>, codec: Codec)
    requires Faithful(codec) && actions != []
    ensures Initial(Run(s, actions, codec).storage, codec) == Run(s, actions, codec)
  {
    LastActionDecides(s, actions, codec);
    var r := Run(s, actions, codec);
    RunWritesSnapshot(s, actions, codec);
    assert r.storage[PersistKey := codec.encode(r.state)] == r.storage;
  }

  /** After any action the snapshot is the written form of the state. */
  lemma {:induction false} RunWritesSnapshot(s: Session, actions: seq<Action>, codec: Codec)
    requires actions != []
    ensures PersistKey in Run(s, actions, codec).storage
    ensures Run(s, actions, codec).storage[PersistKey] == codec.encode(Run(s, actions, codec).state)
    decreases |actions|
  {
    if |actions| > 1 {
      RunWritesSnapshot(Step(s, actions[0], codec), actions[1..], codec);
    }
  }

  /** Signing out after signing in reads back no token and leaves the signed-out snapshot. */
  lemma LoginThenLogout(storage: Storage, user: AdminUser, token: string, codec: Codec)
    requires Faithful(codec)
    ensures var s := Logout(Login(Initial(storage, codec), user, token, codec), codec);
      s.state == SignedOut && GetAuthToken(s.storage) == None && Persisted(s, codec)
  {
  }

  /** A stale token in the storage is what `getAuthToken` reads before any action, when no snapshot says otherwise. */
  lemma StaleTokenBeforeLogin(storage: Storage, codec: Codec)
    requires TokenKey in storage && PersistKey !in storage
    ensures !Initial(storage, codec).state.isAuthenticated && GetAuthToken(Initial(storage, codec).storage).Some?
  {
  }

  // ---------------------------------------------------------------------------------------------
  // The API client's answer to a 401
  // ---------------------------------------------------------------------------------------------

  /**
   * The response interceptor on a 401: remove the stored token and load the login page, which
   * creates the store again from the storage. The snapshot is left in place.
   */
  function Unauthorized(s: Session, codec: Codec): (r: Session)
    ensures GetAuthToken(r.storage) == None
    ensures SameOtherKeys(s.storage, r.storage)
  {
    Initial(s.storage - {TokenKey}, codec)
  }

  /**
   * A 401 after a sign-in leaves the reloaded store signed in with the old token, while the API
   * client finds no token to send: the route guard admits the user and every request goes out
   * without credentials.
   */
  lemma UnauthorizedKeepsSignedIn(s: Session, user: AdminUser, token: string, codec: Codec)
    requires Faithful(codec)
    ensures var r := Unauthorized(Login(s, user, token, codec), codec);
      && r.state.isAuthenticated && r.state.token == Some(token)
      && GetAuthToken(r.storage) == None && !Synced(r)
  {
    var l := Login(s, user, token, codec);
    assert (l.storage - {TokenKey})[PersistKey] == l.storage[PersistKey];
  }

  /** The 401 handling as evidently intended: sign out through the store, then reload. */
  function UnauthorizedCorrected(s: Session, codec: Codec): (r: Session)
    ensures GetAuthToken(r.storage) == None
    ensures SameOtherKeys(s.storage, r.storage)
    ensures Faithful(codec) ==> r.state == SignedOut && Synced(r) && Persisted(r, codec)
  {
    Initial(Logout(s, codec).storage, codec)
  }
}
