/**
 * JwtService (service/JwtService.java): issues HS256-signed JSON Web Tokens
 * (RFC 7519) for a user and decides whether a bearer token (RFC 6750,
 * section 2.1) is still valid. Signing and parsing belong to the jjwt library
 * and are opaque here: `sign` turns a claim set into a compact token, `parse`
 * gives the claim set back or nothing when the token is malformed, badly
 * signed or refused by the library.
 */
module Jwt {
  import opened Wrappers
  import opened Text
  import opened UserEntity

  /** A JSON claim value as the token carries it. */
  datatype ClaimValue = Num(n: int) | Str(s: string) | Flag(b: bool) | Null

  /** The JSON object of a token's payload. */
  type ClaimSet = map<string, ClaimValue>

  /** Registered claim names of section 4.1 of RFC 7519. */
  const SubjectClaim := "sub"
  const IssuedAtClaim := "iat"
  const ExpirationClaim := "exp"

  /** `jwt.expiration` defaults to one day, in milliseconds. */
  const DefaultExpirationMs := 86400000

  const BearerPrefix := "Bearer "

  /** NumericDate of section 2 of RFC 7519: whole seconds, as jjwt writes a
      `java.util.Date` (milliseconds truncated). */
  function NumericDate(ms: nat): nat {
    ms / 1000
  }

  /** `claims.getSubject()`: the `sub` string, or null. */
  function Subject(claims: ClaimSet): Option<string> {
    if SubjectClaim in claims && claims[SubjectClaim].Str? then Some(claims[SubjectClaim].s) else None
  }

  /** `claims.getExpiration()` in milliseconds, or null. */
  function ExpirationMs(claims: ClaimSet): Option<int> {
    if ExpirationClaim in claims && claims[ExpirationClaim].Num? then Some(claims[ExpirationClaim].n * 1000) else None
  }

  /** The extra claims `generateToken(user)` puts: the id (null for an unsaved
      user), the name, the role's enum name and the active flag. */
  function UserClaims(id: Option<int>, name: string, role: Role, isActive: bool): (c: ClaimSet)
    ensures c.Keys == {"userId", "name", "role", "isActive"}
    ensures c["name"] == Str(name) && c["role"] == Str(RoleName(role)) && c["isActive"] == Flag(isActive)
    ensures c["userId"] == if id.Some? then Num(id.value) else Null
  {
    map["userId" := if id.Some? then Num(id.value) else Null,
        "name" := Str(name),
        "role" := Str(RoleName(role)),
        "isActive" := Flag(isActive)]
  }

  /** `buildToken`'s payload: the extra claims, then subject, issued-at and
      expiration, which override extra claims of the same name. */
  function BuildClaims(extra: ClaimSet, email: string, nowMs: nat, expirationMs: nat): (c: ClaimSet)
    ensures c.Keys == extra.Keys + {SubjectClaim, IssuedAtClaim, ExpirationClaim}
    ensures Subject(c) == Some(email)
    ensures c[IssuedAtClaim] == Num(NumericDate(nowMs))
    ensures ExpirationMs(c) == Some(NumericDate(nowMs + expirationMs) * 1000)
    ensures forall k | k in extra && k !in {SubjectClaim, IssuedAtClaim, ExpirationClaim} :: c[k] == extra[k]
  {
    extra[SubjectClaim := Str(email)]
         [IssuedAtClaim := Num(NumericDate(nowMs))]
         [ExpirationClaim := Num(NumericDate(nowMs + expirationMs))]
  }

  /** `extractTokenFromHeader`: what follows "Bearer ", or null. */
  function ExtractTokenFromHeader(header: Option<string>): (r: Option<string>)
    ensures r.Some? <==> header.Some? && StartsWith(header.value, BearerPrefix)
    ensures r.Some? ==> header.value == BearerPrefix + r.value
  {
    if header.Some? && StartsWith(header.value, BearerPrefix) then Some(header.value[|BearerPrefix|..]) else None
  }

  /** Prefixing "Bearer " and extracting gives the token back. */
  lemma ExtractAfterPrefix(token: string)
    ensures ExtractTokenFromHeader(Some(BearerPrefix + token)) == Some(token)
  {
    assert (BearerPrefix + token)[..|BearerPrefix|] == BearerPrefix;
    assert (BearerPrefix + token)[|BearerPrefix|..] == token;
  }

  datatype JwtService = JwtService(expirationMs: nat, sign: ClaimSet -> string, parse: string -> Option<ClaimSet>)
  {
    /** `generateToken(user)`: fills the extra claims one `put` at a time and
        signs the `buildToken` payload. */
    method GenerateToken(user: User, nowMs: nat) returns (token: string)
      ensures token == sign(BuildClaims(UserClaims(user.id, user.name, user.role, user.isActive), user.email, nowMs, expirationMs))
    {
      var extra: ClaimSet := map[];
      extra := extra["userId" := if user.id.Some? then Num(user.id.value) else Null];
      extra := extra["name" := Str(user.name)];
      extra := extra["role" := Str(RoleName(user.role))];
      extra := extra["isActive" := Flag(user.isActive)];
      token := sign(BuildClaims(extra, user.email, nowMs, expirationMs));
    }

    /** `extractUsername`: parse failures are exceptions (`Err`); a token
        without subject yields null (`Ok(None)`). */
    function ExtractUsername(token: string): (r: Result<Option<string>, ()>)
      ensures r.Err? <==> parse(token).None?
      ensures r.Ok? ==> r.value == Subject(parse(token).value)
    {
      match parse(token)
      case None => Err(())
      case Some(claims) => Ok(Subject(claims))
    }

    /** `isTokenExpired`: the expiration is strictly before now. A parse
        failure, or a token with no expiration (a null `Date`), throws. */
    function IsTokenExpired(token: string, nowMs: int): (r: Result<bool, ()>)
      ensures r.Err? <==> parse(token).None? || ExpirationMs(parse(token).value).None?
      ensures r.Ok? ==> (r.value <==> ExpirationMs(parse(token).value).value < nowMs)
    {
      match parse(token)
      case None => Err(())
      case Some(claims) =>
        match ExpirationMs(claims)
        case None => Err(())
        case Some(exp) => Ok(exp < nowMs)
    }

    /** `isTokenValid(token)`: never throws; any failure means not valid. */
    predicate IsTokenValid(token: string, nowMs: int)
      ensures IsTokenValid(token, nowMs) <==> Unexpired(token, nowMs)
    {
      IsTokenExpired(token, nowMs) == Ok(false)
    }

    /** `isTokenValid(token, user)`: the subject must equal the email, then the
        token must not be expired. A null subject throws (`username.equals`),
        and expiry is looked at only when the subject matches. */
    function IsTokenValidFor(token: string, email: string, nowMs: int): (r: Result<bool, ()>)
      ensures r == Ok(true) <==> ExtractUsername(token) == Ok(Some(email)) && IsTokenValid(token, nowMs)
      ensures r.Err? <==>
        || ExtractUsername(token).Err?
        || ExtractUsername(token) == Ok(None)
        || (ExtractUsername(token) == Ok(Some(email)) && IsTokenExpired(token, nowMs).Err?)
    {
      match ExtractUsername(token)
      case Err(_) => Err(())
      case Ok(None) => Err(())
      case Ok(Some(username)) =>
        if username != email then Ok(false)
        else match IsTokenExpired(token, nowMs)
          case Err(_) => Err(())
          case Ok(expired) => Ok(!expired)
    }

    /** `isValidAuthHeader`. */
    predicate IsValidAuthHeader(header: Option<string>, nowMs: int)
      ensures IsValidAuthHeader(header, nowMs) ==> header.Some? && StartsWith(header.value, BearerPrefix)
    {
      var token := ExtractTokenFromHeader(header);
      token.Some? && IsTokenValid(token.value, nowMs)
    }

    /** A header passes exactly when it is "Bearer " followed by a token that
        parses, has an expiration and is not past it. */
    lemma ValidAuthHeaderIff(header: Option<string>, nowMs: int)
      ensures IsValidAuthHeader(header, nowMs) <==> exists token :: header == Some(BearerPrefix + token) && Unexpired(token, nowMs)
    {
      if IsValidAuthHeader(header, nowMs) {
        var token := ExtractTokenFromHeader(header).value;
        assert header == Some(BearerPrefix + token);
      }
      if exists token :: header == Some(BearerPrefix + token) && Unexpired(token, nowMs) {
        var token :| header == Some(BearerPrefix + token) && Unexpired(token, nowMs);
        ExtractAfterPrefix(token);
      }
    }

    /** The token parses, carries an expiration and `nowMs` is not past it. */
    predicate Unexpired(token: string, nowMs: int) {
      parse(token).Some? && ExpirationMs(parse(token).value).Some? && nowMs <= ExpirationMs(parse(token).value).value
    }

    /** A token is still valid at the very millisecond of its expiration and
        expired one millisecond later. */
    lemma ExpiryBoundary(token: string)
      requires parse(token).Some? && ExpirationMs(parse(token).value).Some?
      ensures IsTokenValid(token, ExpirationMs(parse(token).value).value)
      ensures !IsTokenValid(token, ExpirationMs(parse(token).value).value + 1)
    {
    }

    /** For a library whose `parse` inverts `sign`, a token issued to a user at
        `issuedMs` is valid for that user's email from issue until its
        expiration (issue time plus the configured lifetime, truncated to
        whole seconds), invalid for every other email, and expired after. */
    lemma IssuedTokenLifetime(user: User, issuedMs: nat, nowMs: int)
      requires var c := BuildClaims(UserClaims(user.id, user.name, user.role, user.isActive), user.email, issuedMs, expirationMs);
        parse(sign(c)) == Some(c)
      ensures var token := sign(BuildClaims(UserClaims(user.id, user.name, user.role, user.isActive), user.email, issuedMs, expirationMs));
        && (IsTokenValidFor(token, user.email, nowMs) == Ok(true) <==> nowMs <= NumericDate(issuedMs + expirationMs) * 1000)
        && (forall other | other != user.email :: IsTokenValidFor(token, other, nowMs) == Ok(false))
        && (issuedMs + expirationMs < nowMs ==> IsTokenValidFor(token, user.email, nowMs) == Ok(false))
        && (issuedMs <= nowMs <= issuedMs + expirationMs - 999 ==> IsTokenValidFor(token, user.email, nowMs) == Ok(true))
    {
      var c := BuildClaims(UserClaims(user.id, user.name, user.role, user.isActive), user.email, issuedMs, expirationMs);
      var expSec := NumericDate(issuedMs + expirationMs);
      assert expSec * 1000 <= issuedMs + expirationMs < expSec * 1000 + 1000;
    }

    /** With the default `jwt.expiration` of one day, an issued token is
        accepted for a day less at most a second, and refused once the day is over. */
    lemma DefaultLifetimeIsOneDay(user: User, issuedMs: nat, nowMs: int)
      requires expirationMs == DefaultExpirationMs
      requires var c := BuildClaims(UserClaims(user.id, user.name, user.role, user.isActive), user.email, issuedMs, expirationMs);
        parse(sign(c)) == Some(c)
      ensures var token := sign(BuildClaims(UserClaims(user.id, user.name, user.role, user.isActive), user.email, issuedMs, expirationMs));
        && (issuedMs <= nowMs <= issuedMs + DefaultExpirationMs - 999 ==> IsTokenValidFor(token, user.email, nowMs) == Ok(true))
        && (issuedMs + DefaultExpirationMs < nowMs ==> IsTokenValidFor(token, user.email, nowMs) == Ok(false))
    {
      IssuedTokenLifetime(user, issuedMs, nowMs);
    }
  }
}
