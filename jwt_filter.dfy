/**
 * JwtAuthenticationFilter (config/JwtAuthenticationFilter.java): once per
 * request, reads the Authorization header and, when it carries a bearer token
 * for a known user that is still valid, installs that user as the request's
 * authentication in the shared security context. It fails open: every problem
 * with the token leaves the request anonymous, and the chain still runs.
 */
module JwtFilter {
  import opened Wrappers
  import opened Text
  import opened UserEntity
  import opened UserRepo
  import opened Jwt

  /** `UsernamePasswordAuthenticationToken(principal, credentials, authorities)`. */
  datatype Authentication = Authentication(principal: User, credentials: Option<string>, authorities: seq<string>)

  /** The request's `SecurityContext`, shared with the rest of the chain. */
  class SecurityContext {
    var authentication: Option<Authentication>

    constructor ()
      ensures authentication.None?
    {
      authentication := None;
    }
  }

  /** Length of the debug prefix printed with `jwt.substring(0, 20)`. */
  const DebugPrefixLength := 20

  /** What one pass of the filter does. `Crash` is the
      StringIndexOutOfBoundsException of the debug print, thrown outside the
      try block before the chain runs. */
  datatype Decision = PassThrough | Crash | Anonymous | Install(user: User)

  /** The filter's decision, given whether the context already held an
      authentication when the request arrived. */
  function Decide(jwt: JwtService, repo: UserRepository, header: Option<string>, contextEmpty: bool, nowMs: int): (d: Decision)
    reads repo, repo.users.Values
    requires repo.Valid()
    ensures d == PassThrough <==> ExtractTokenFromHeader(header).None?
    ensures d == Crash <==> ExtractTokenFromHeader(header).Some? && Utf16Length(ExtractTokenFromHeader(header).value) < DebugPrefixLength
    ensures d.Install? <==>
      && ExtractTokenFromHeader(header).Some?
      && Utf16Length(ExtractTokenFromHeader(header).value) >= DebugPrefixLength
      && contextEmpty
      && (var token := ExtractTokenFromHeader(header).value;
          var email := jwt.ExtractUsername(token);
          && email.Ok? && email.value.Some?
          && repo.ExistsByEmail(email.value.value)
          && jwt.IsTokenValidFor(token, email.value.value, nowMs) == Ok(true))
    ensures d.Install? ==> d.user in repo.users.Values && Some(d.user.email) == jwt.ExtractUsername(ExtractTokenFromHeader(header).value).value
  {
    match ExtractTokenFromHeader(header)
    case None => PassThrough
    case Some(token) =>
      if Utf16Length(token) < DebugPrefixLength then Crash
      else
        match jwt.ExtractUsername(token)
        case Err(_) => Anonymous
        case Ok(None) => Anonymous
        case Ok(Some(email)) =>
          if !contextEmpty then Anonymous
          else
            match repo.FindByEmail(email)
            case None => Anonymous
            case Some(user) =>
              if jwt.IsTokenValidFor(token, user.email, nowMs) == Ok(true) then Install(user) else Anonymous
  }

  /** `doFilterInternal`. `chainCalls` counts the `filterChain.doFilter` calls;
      `crashed` says the method ended by an exception. */
  method DoFilterInternal(jwt: JwtService, repo: UserRepository, header: Option<string>, context: SecurityContext, nowMs: int)
    returns (chainCalls: nat, crashed: bool)
    requires repo.Valid()
    modifies context
    ensures var d := Decide(jwt, repo, header, old(context.authentication).None?, nowMs);
      && (crashed <==> d == Crash)
      && (d.Install? ==> context.authentication == Some(Authentication(d.user, None, d.user.GetAuthorities())))
      && (!d.Install? ==> context.authentication == old(context.authentication))
    ensures chainCalls == if crashed then 0 else 1
    ensures old(context.authentication).Some? ==> context.authentication == old(context.authentication)
  {
    chainCalls := 0;
    crashed := false;
    if header.None? || !StartsWith(header.value, BearerPrefix) {
      chainCalls := chainCalls + 1;
      return;
    }
    var token := header.value[|BearerPrefix|..];
    if Utf16Length(token) < DebugPrefixLength {
      crashed := true;
      return;
    }
    var email := jwt.ExtractUsername(token);
    if email.Ok? && email.value.Some? && context.authentication.None? {
      var user := repo.FindByEmail(email.value.value);
      if user.Some? {
        var valid := jwt.IsTokenValidFor(token, user.value.email, nowMs);
        if valid == Ok(true) {
          context.authentication := Some(Authentication(user.value, None, user.value.GetAuthorities()));
        }
      }
    }
    chainCalls := chainCalls + 1;
  }

  /** The filter never looks at `isActive`: a deactivated user holding a valid
      token is authenticated all the same. */
  lemma DeactivatedUserAuthenticated(jwt: JwtService, repo: UserRepository, token: string, user: User, nowMs: int)
    requires repo.Valid() && user in repo.users.Values && !user.isActive
    requires Utf16Length(token) >= DebugPrefixLength
    requires jwt.ExtractUsername(token) == Ok(Some(user.email))
    requires jwt.IsTokenValidFor(token, user.email, nowMs) == Ok(true)
    ensures Decide(jwt, repo, Some(BearerPrefix + token), true, nowMs) == Install(user)
  {
    ExtractAfterPrefix(token);
    assert repo.FindByEmail(user.email) == Some(user);
  }
}
