/** The authentication gate in front of the protected routes: the bearer
    token is taken from the `Authorization` header (the scheme of section
    2.1 of RFC 6750, as `split(" ")[1]` reads it), verified, and the caller's
    role checked against the roles the route allows. */
module AuthMiddleware {
  import opened Base
  import opened Text
  import opened Store

  /** The outcome of verifying a token's signature and lifetime. */
  datatype Verdict = Valid(user: User) | Expired | Invalid

  /** The roles argument of `auth(roles)`: a list, or a single string. */
  datatype Roles = RoleList(list: seq<string>) | RoleName(name: string)

  datatype Outcome =
    | Next(user: User)
    | Unauthorized(expired: bool)
    | Forbidden(role: string)
  {
    /** The status sent; `Next` sends nothing and passes the request on. */
    function Code(): nat {
      match this
      case Next(_) => 200
      case Unauthorized(_) => 401
      case Forbidden(_) => 403
    }
  }

  /** `s.split(" ")[1]` for a string known to start with a space-free word
      and a space: the text between the first space and the next one. */
  function SecondPiece(rest: string): (p: string)
    ensures ' ' !in p
    ensures StartsWith(rest, p)
    ensures |p| < |rest| ==> rest[|p|] == ' '
  {
    match IndexOf(rest, ' ')
    case None => rest
    case Some(k) => rest[..k]
  }

  /** The token the middleware reads: present only when the header starts
      with "Bearer "; it may still come out empty. */
  function ExtractToken(header: Option<string>): (t: Option<string>)
    ensures t.Some? <==> header.Some? && StartsWith(header.value, "Bearer ")
    ensures t.Some? ==> ' ' !in t.value && StartsWith(header.value[7..], t.value)
  {
    if header.Some? && StartsWith(header.value, "Bearer ") then Some(SecondPiece(header.value[7..]))
    else None
  }

  /** A header built as "Bearer " + token (+ anything after a space) gives
      the token back. */
  lemma {:induction false} ExtractTokenRoundTrip(token: string, tail: string)
    requires ' ' !in token
    ensures ExtractToken(Some("Bearer " + token)) == Some(token)
    ensures ExtractToken(Some("Bearer " + token + " " + tail)) == Some(token)
  {
    var h1 := "Bearer " + token;
    assert StartsWith(h1, "Bearer ") && h1[7..] == token;
    assert IndexOf(token, ' ').None?;
    var h2 := "Bearer " + token + " " + tail;
    assert StartsWith(h2, "Bearer ") && h2[7..] == token + " " + tail;
    var r := token + " " + tail;
    assert r[|token|] == ' ';
    assert forall i :: 0 <= i < |token| ==> r[i] == token[i];
    assert IndexOf(r, ' ') == Some(|token|);
    assert r[..|token|] == token;
  }

  /** A string is a one-element list. */
  function AllowedRoles(roles: Roles): (allowed: seq<string>)
    ensures roles.RoleName? ==> allowed == [roles.name]
    ensures roles.RoleList? ==> allowed == roles.list
  {
    match roles
    case RoleList(list) => list
    case RoleName(name) => [name]
  }

  /** `auth(roles)` on one request; `verify` is the token library's verdict. */
  function Auth(roles: Roles, header: Option<string>, verify: string -> Verdict): (o: Outcome)
    ensures !Present(ExtractToken(header)) ==> o == Unauthorized(false)
    ensures Present(ExtractToken(header)) ==> var v := verify(ExtractToken(header).value);
      && (v == Expired ==> o == Unauthorized(true))
      && (v == Invalid ==> o == Unauthorized(false))
      && (v.Valid? ==> o == (if |AllowedRoles(roles)| == 0 || v.user.role in AllowedRoles(roles)
                             then Next(v.user) else Forbidden(v.user.role)))
  {
    var token := ExtractToken(header);
    if !Present(token) then Unauthorized(false)
    else
      match verify(token.value)
      case Expired => Unauthorized(true)
      case Invalid => Unauthorized(false)
      case Valid(user) =>
        var allowed := AllowedRoles(roles);
        if |allowed| > 0 && user.role !in allowed then Forbidden(user.role) else Next(user)
  }

  /** The request goes on exactly when a bearer token verifies and the
      route allows any role or the caller's one; it goes on with the
      token's claims. */
  lemma AccessRule(roles: Roles, header: Option<string>, verify: string -> Verdict, user: User)
    ensures Auth(roles, header, verify) == Next(user) <==>
      && header.Some? && StartsWith(header.value, "Bearer ")
      && Present(ExtractToken(header)) && verify(ExtractToken(header).value) == Valid(user)
      && (|AllowedRoles(roles)| == 0 || user.role in AllowedRoles(roles))
  {
  }

  /** Only an expired token is reported as expired. */
  lemma ExpiredOnlyWhenExpired(roles: Roles, header: Option<string>, verify: string -> Verdict)
    ensures Auth(roles, header, verify) == Unauthorized(true) <==>
      Present(ExtractToken(header)) && verify(ExtractToken(header).value) == Expired
  {
  }
}
