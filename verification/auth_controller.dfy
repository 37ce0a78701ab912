/** Logging in, refreshing the access token and logging out. Tokens are
    kept symbolic: a signed token is its payload and its lifetime. */
module AuthController {
  import opened Base
  import opened Store
  import AM = AuthMiddleware

  /** A signed token: the claims it carries and how long it lives, in seconds. */
  datatype Token = Signed(payload: User, lifetime: nat)

  const Day: nat := 24 * 60 * 60

  datatype CookieOptions = CookieOptions(httpOnly: bool, secure: bool, maxAgeMs: nat, sameSite: string)

  datatype Reply =
    | LoggedIn(accessToken: Token, refreshCookie: Token, options: CookieOptions)
    | Refreshed(accessToken: Token)
    | LoggedOut(cleared: CookieOptions)
    | BadRequest
    | NotFound
    | Unauthorized
    | Forbidden
  {
    function Code(): nat {
      match this
      case LoggedIn(_, _, _) => 200
      case Refreshed(_) => 200
      case LoggedOut(_) => 200
      case BadRequest => 400
      case NotFound => 404
      case Unauthorized => 401
      case Forbidden => 403
    }
  }

  /** The claims put in every token: id, e-mail, name and role, nothing else. */
  function Payload(id: Id, email: string, nama: string, role: string): (u: User)
    ensures u.id == id && u.email == email && u.nama == nama && u.role == role
  {
    User(id, email, nama, role)
  }

  /** `generateTokens`: an access token for one day and a refresh token for
      seven, both carrying the same claims. */
  function GenerateTokens(u: User): (t: (Token, Token))
    ensures t.0.payload == u && t.1.payload == u
    ensures t.0.lifetime == Day && t.1.lifetime == 7 * Day
  {
    (Signed(u, Day), Signed(u, 7 * Day))
  }

  /** `setCookieOptions(NODE_ENV)`. */
  function SetCookieOptions(env: Option<string>): (o: CookieOptions)
    ensures o.httpOnly
    ensures o.secure <==> env == Some("production")
    ensures o.sameSite == (if env == Some("production") then "Strict" else "Lax")
    ensures o.maxAgeMs == 604800000
  {
    var production := env == Some("production");
    CookieOptions(true, production, 7 * 24 * 60 * 60 * 1000, if production then "Strict" else "Lax")
  }

  /** The refresh cookie lives exactly as long as the refresh token. */
  lemma CookieLastsAsLongAsRefreshToken(env: Option<string>, u: User)
    ensures SetCookieOptions(env).maxAgeMs == GenerateTokens(u).1.lifetime * 1000
  {
  }

  /** Whom an e-mail address logs in as: a participant first; staff only
      when no participant has that address. */
  datatype Account = AsPeserta(id: Id) | AsPegawai(id: Id)

  ghost function FindAccount(db: Db, email: string): (a: Option<Account>)
    ensures a.None? <==>
      (forall id :: id in db.peserta ==> db.peserta[id].email != email)
      && (forall id :: id in db.pegawai ==> db.pegawai[id].email != email)
    ensures a.Some? && a.value.AsPeserta? ==> a.value.id in db.peserta && db.peserta[a.value.id].email == email
    ensures a.Some? && a.value.AsPegawai? ==> (
      && a.value.id in db.pegawai && db.pegawai[a.value.id].email == email
      && forall id :: id in db.peserta ==> db.peserta[id].email != email)
  {
    if exists id :: id in db.peserta && db.peserta[id].email == email then
      var id :| id in db.peserta && db.peserta[id].email == email;
      Some(AsPeserta(id))
    else if exists id :: id in db.pegawai && db.pegawai[id].email == email then
      var id :| id in db.pegawai && db.pegawai[id].email == email;
      Some(AsPegawai(id))
    else None
  }

  /** The claims and the stored digest of an account. */
  ghost function Claims(db: Db, a: Account): (p: (User, PasswordHash))
    requires a.AsPeserta? ==> a.id in db.peserta
    requires a.AsPegawai? ==> a.id in db.pegawai
  {
    match a
    case AsPeserta(id) =>
      var p := db.peserta[id];
      (Payload(id, p.email, p.nama, p.role), p.password)
    case AsPegawai(id) =>
      var p := db.pegawai[id];
      (Payload(id, p.email, p.nama, p.role), p.password)
  }

  /** `login`: 400 without e-mail or password, 404 for an unknown address,
      401 for a wrong password (no token), otherwise the two tokens, the
      refresh one as a cookie. */
  ghost function Login(db: Db, email: Option<string>, password: Option<string>, env: Option<string>): (r: Reply)
    ensures !Present(email) || !Present(password) <==> r == BadRequest
    ensures Present(email) && Present(password) ==> (r == NotFound <==> FindAccount(db, email.value).None?)
    ensures r.LoggedIn? || r == Unauthorized ==> (
      && Present(email) && Present(password) && FindAccount(db, email.value).Some?
      && var (u, h) := Claims(db, FindAccount(db, email.value).value);
      && (r.LoggedIn? <==> PasswordMatches(password.value, h))
      && (r.LoggedIn? ==> r == LoggedIn(Signed(u, Day), Signed(u, 7 * Day), SetCookieOptions(env))))
    ensures r in {BadRequest, NotFound, Unauthorized} || r.LoggedIn?
  {
    if !Present(email) || !Present(password) then BadRequest
    else
      match FindAccount(db, email.value)
      case None => NotFound
      case Some(a) =>
        var (u, h) := Claims(db, a);
        if !PasswordMatches(password.value, h) then Unauthorized
        else
          var (access, refresh) := GenerateTokens(u);
          LoggedIn(access, refresh, SetCookieOptions(env))
  }

  /** A staff account cannot be reached by an address a participant also uses. */
  lemma ParticipantShadowsStaff(db: Db, email: string, pid: Id)
    requires pid in db.peserta && db.peserta[pid].email == email
    ensures FindAccount(db, email).Some? && FindAccount(db, email).value.AsPeserta?
  {
  }

  /** `refreshAccessToken`: 400 without the cookie; 403 for a token that does
      not verify, expired or not; otherwise a new one-day access token with
      the same four claims. */
  function RefreshAccessToken(cookie: Option<string>, verify: string -> AM.Verdict): (r: Reply)
    ensures !Present(cookie) <==> r == BadRequest
    ensures Present(cookie) && !verify(cookie.value).Valid? ==> r == Forbidden
    ensures Present(cookie) && verify(cookie.value).Valid? ==>
      r == Refreshed(Signed(verify(cookie.value).user, Day))
  {
    if !Present(cookie) then BadRequest
    else
      match verify(cookie.value)
      case Valid(u) => Refreshed(Signed(Payload(u.id, u.email, u.nama, u.role), Day))
      case _ => Forbidden
  }

  /** `logout`: the refresh cookie is cleared, with sameSite always 'Strict'. */
  function Logout(env: Option<string>): (r: Reply)
    ensures r.LoggedOut? && r.cleared.httpOnly && r.cleared.sameSite == "Strict"
    ensures r.cleared.secure <==> env == Some("production")
  {
    LoggedOut(CookieOptions(true, env == Some("production"), 0, "Strict"))
  }

  /** A refresh with the token login handed out, while it verifies to the
      same claims, yields an access token equal to the one login gave. */
  lemma RefreshRenewsLoginToken(db: Db, email: Option<string>, password: Option<string>, env: Option<string>,
                                cookie: string, verify: string -> AM.Verdict)
    requires Login(db, email, password, env).LoggedIn?
    requires cookie != "" && verify(cookie) == AM.Valid(Login(db, email, password, env).refreshCookie.payload)
    ensures RefreshAccessToken(Some(cookie), verify) == Refreshed(Login(db, email, password, env).accessToken)
  {
  }
}
