/**
  The auth store of `auth.ts`: the token, the user read from it and a
  loading flag, kept beside the token saved in the browser's storage. The
  JWT decoding (`parseJwt`) and the clock (`Date.now()`) are parameters.
 */
module AuthStore {
  import opened Common

  /** The claims the frontend reads from a token; `exp` in seconds. */
  datatype Payload = Payload(sub: string, login: string, isAdmin: bool, exp: Option<int>)

  datatype User = User(id: string, login: string, isAdmin: bool)

  /** `parseJwt`: the claims, or `None` when the token does not decode. */
  type Decoder = string -> Option<Payload>

  /** `isTokenExpired` at time `now` (milliseconds): a token without `exp`,
      or with `exp` 0, never expires; otherwise it expires at `exp`
      seconds. */
  function IsTokenExpired(p: Payload, now: int): (expired: bool)
    ensures p.exp.None? || p.exp.value == 0 ==> !expired
    ensures p.exp.Some? && p.exp.value != 0 ==> (expired <==> now / 1000 >= p.exp.value)
  {
    p.exp.Some? && p.exp.value != 0 && now >= p.exp.value * 1000
  }

  /** Expiry is for good: a token expired now is expired later too. */
  lemma ExpiryIsPermanent(p: Payload, now: int, later: int)
    requires now <= later
    ensures IsTokenExpired(p, now) ==> IsTokenExpired(p, later)
    ensures p.exp.None? ==> !IsTokenExpired(p, later)
  {
  }

  /** `getUserFromToken`: the user of a token that decodes and has not
      expired. */
  function UserFromToken(token: string, decode: Decoder, now: int): (u: Option<User>)
    ensures u.Some? <==> decode(token).Some? && !IsTokenExpired(decode(token).value, now)
    ensures u.Some? ==>
      var p := decode(token).value;
      u.value == User(p.sub, p.login, p.isAdmin)
  {
    match decode(token)
    case None => None
    case Some(p) => if IsTokenExpired(p, now) then None else Some(User(p.sub, p.login, p.isAdmin))
  }

  /** A token refused now is refused at every later time. */
  lemma RefusedStaysRefused(token: string, decode: Decoder, now: int, later: int)
    requires now <= later
    requires UserFromToken(token, decode, now).None?
    ensures UserFromToken(token, decode, later).None?
  {
    if decode(token).Some? {
      ExpiryIsPermanent(decode(token).value, now, later);
    }
  }

  /** The store's value. */
  datatype State = State(token: Option<string>, user: Option<User>, isLoading: bool)

  /** The store and the token saved in the browser under `token`. */
  datatype Env = Env(state: State, stored: Option<string>)

  /** A JavaScript string is truthy when it is not empty. */
  predicate Truthy(s: Option<string>) {
    s.Some? && |s.value| > 0
  }

  const Initial := State(None, None, true)

  /** The store's invariant: a token exactly when a user, and never an
      empty token. */
  predicate Consistent(s: State) {
    (s.token.Some? <==> s.user.Some?) && (s.token.Some? ==> |s.token.value| > 0)
  }

  /** `setToken`: a token with a user is kept and saved; anything else (no
      token, an empty one, one that does not decode or has expired) clears
      both the store and the saved token. The loading flag is left alone. */
  function SetToken(env: Env, token: Option<string>, decode: Decoder, now: int): (r: Env)
    ensures r.state.isLoading == env.state.isLoading
    ensures Consistent(r.state)
    ensures r.stored == r.state.token
    ensures r.state.token.Some? <==> Truthy(token) && UserFromToken(token.value, decode, now).Some?
    ensures r.state.token.Some? ==>
      r.state.token == token && r.state.user == UserFromToken(token.value, decode, now)
  {
    if Truthy(token) then
      match UserFromToken(token.value, decode, now)
      case Some(user) => Env(env.state.(token := token, user := Some(user)), token)
      case None => Env(env.state.(token := None, user := None), None)
    else Env(env.state.(token := None, user := None), None)
  }

  /** `setLoading`. */
  function SetLoading(env: Env, isLoading: bool): (r: Env)
    ensures r.state.isLoading == isLoading
    ensures r.state.token == env.state.token && r.state.user == env.state.user && r.stored == env.stored
  {
    Env(env.state.(isLoading := isLoading), env.stored)
  }

  /** `logout`: everything cleared and not loading. */
  function Logout(env: Env): (r: Env)
    ensures r.state.token.None? && r.state.user.None? && !r.state.isLoading && r.stored.None?
  {
    Env(State(None, None, false), None)
  }

  /** `init`: outside a browser nothing happens. In one, a saved token
      that yields a user is taken up, one that does not is dropped, and
      either way loading ends. */
  function Init(env: Env, inBrowser: bool, decode: Decoder, now: int): (r: Env)
    ensures !inBrowser ==> r == env
    ensures inBrowser ==> !r.state.isLoading
    ensures inBrowser && Truthy(env.stored) ==>
      (r.state.token.Some? <==> UserFromToken(env.stored.value, decode, now).Some?)
    ensures inBrowser && Truthy(env.stored) && r.state.token.Some? ==>
      r.state.token == env.stored && r.stored == env.stored
      && r.state.user == UserFromToken(env.stored.value, decode, now)
    ensures inBrowser && Truthy(env.stored) && r.state.token.None? ==> r.stored.None? && r.state.user.None?
    ensures inBrowser && !Truthy(env.stored) ==>
      r.state.token == env.state.token && r.state.user == env.state.user && r.stored == env.stored
  {
    if !inBrowser then env
    else if Truthy(env.stored) then
      match UserFromToken(env.stored.value, decode, now)
      case Some(user) => Env(env.state.(token := env.stored, user := Some(user), isLoading := false), env.stored)
      case None => Env(env.state.(token := None, user := None, isLoading := false), None)
    else Env(env.state.(isLoading := false), env.stored)
  }

  /** `isAuthenticated`: the token is truthy. */
  function IsAuthenticated(s: State): (b: bool)
    ensures b <==> s.token.Some? && s.token.value != ""
    ensures Consistent(s) ==> (b <==> s.user.Some?)
  {
    Truthy(s.token)
  }

  /** `isAdmin`: the user's flag, false without a user. */
  function IsAdmin(s: State): (b: bool)
    ensures b ==> s.user.Some?
    ensures s.user.Some? ==> (b <==> s.user.value.isAdmin)
    ensures Consistent(s) && b ==> IsAuthenticated(s)
  {
    s.user.Some? && s.user.value.isAdmin
  }

  /** In a consistent store, being authenticated is having a user, and
      only a user can be an admin. */
  lemma AuthenticatedIffUser(s: State)
    requires Consistent(s)
    ensures IsAuthenticated(s) <==> s.user.Some?
    ensures IsAdmin(s) ==> IsAuthenticated(s)
  {
  }

  /** The transitions of the store. */
  datatype Action =
    | DoSetToken(token: Option<string>, now: int)
    | DoSetLoading(isLoading: bool)
    | DoLogout
    | DoInit(inBrowser: bool, now: int)

  function Step(env: Env, a: Action, decode: Decoder): Env {
    match a
    case DoSetToken(t, now) => SetToken(env, t, decode, now)
    case DoSetLoading(b) => SetLoading(env, b)
    case DoLogout => Logout(env)
    case DoInit(inBrowser, now) => Init(env, inBrowser, decode, now)
  }

  function Run(env: Env, actions: seq<Action>, decode: Decoder): Env
    decreases |actions|
  {
    if |actions| == 0 then env else Run(Step(env, actions[0], decode), actions[1..], decode)
  }

  /** Every transition keeps the store consistent. */
  lemma StepKeepsConsistent(env: Env, a: Action, decode: Decoder)
    requires Consistent(env.state)
    ensures Consistent(Step(env, a, decode).state)
  {
  }

  /** The saved token and the store agree: the store holds the saved token
      when it is truthy, and nothing otherwise. */
  predicate StorageAgrees(env: Env) {
    env.state.token == (if Truthy(env.stored) then env.stored else None)
  }

  lemma StepKeepsStorageAgreement(env: Env, a: Action, decode: Decoder)
    requires StorageAgrees(env)
    ensures StorageAgrees(Step(env, a, decode))
  {
  }

  /** From the initial store, whatever the saved token, any sequence of
      transitions leaves a token exactly when there is a user; once `init`
      has run in a browser, the store and the saved token agree from then
      on. */
  lemma {:induction false} RunKeepsInvariants(env: Env, actions: seq<Action>, decode: Decoder)
    requires Consistent(env.state)
    ensures Consistent(Run(env, actions, decode).state)
    ensures StorageAgrees(env) ==> StorageAgrees(Run(env, actions, decode))
    decreases |actions|
  {
    if |actions| > 0 {
      StepKeepsConsistent(env, actions[0], decode);
      if StorageAgrees(env) {
        StepKeepsStorageAgreement(env, actions[0], decode);
      }
      RunKeepsInvariants(Step(env, actions[0], decode), actions[1..], decode);
    }
  }

  /** `init` in a browser from the initial store makes the store and the
      saved token agree. */
  lemma InitEstablishesAgreement(stored: Option<string>, decode: Decoder, now: int)
    ensures Consistent(Initial)
    ensures StorageAgrees(Init(Env(Initial, stored), true, decode, now))
  {
  }
}
