/** JwtAuthenticationFilter: runs once per request before the controllers.
    A request whose Authorization header carries a bearer token (section 2.1
    of RFC 6750) for a stored user, and whose context is not yet
    authenticated, gets that user as its principal; every other request is
    passed on unchanged. Decoding and checking the JSON Web Token (RFC 7519)
    is foreign code, given here as two functions. */
module JwtAuthenticationFilter {
  import opened Wrappers
  import opened Users
  import opened Security
  import opened AuthUtils

  const BEARER_PREFIX: string := "Bearer "

  /** jwtUtils: the username (email) a token names, if it names one, and
      whether a token is valid for a user. */
  datatype JwtUtils = JwtUtils(
    extractUsername: string -> Option<string>,
    isTokenValid: (string, User) -> bool)

  /** How the filter ends: by passing the request on down the chain, or by
      the exception loadUserByUsername throws for an email no user has. */
  datatype FilterOutcome = Continued | UsernameNotFound

  /** The outcome together with the context's authentication afterwards. */
  datatype Verdict = Verdict(outcome: FilterOutcome, authentication: Option<Authentication>)

  /** Java's String.startsWith. */
  predicate StartsWith(s: string, prefix: string) {
    |prefix| <= |s| && s[..|prefix|] == prefix
  }

  /** The token a header carries: what follows a case-sensitive "Bearer ". */
  function BearerToken(header: Option<string>): (r: Option<string>)
    ensures r.Some? ==> header == Some(BEARER_PREFIX + r.value)
    ensures header.Some? && |header.value| < |BEARER_PREFIX| ==> r.None?
  {
    if header.None? || !StartsWith(header.value, BEARER_PREFIX) then None
    else
      var h := header.value;
      assert h == h[..|BEARER_PREFIX|] + h[|BEARER_PREFIX|..];
      Some(h[|BEARER_PREFIX|..])
  }

  /** Every token sent behind the prefix is the token the filter reads. */
  lemma BearerRoundTrip(token: string)
    ensures BearerToken(Some(BEARER_PREFIX + token)) == Some(token)
  {
    assert (BEARER_PREFIX + token)[..|BEARER_PREFIX|] == BEARER_PREFIX;
    assert (BEARER_PREFIX + token)[|BEARER_PREFIX|..] == token;
  }

  /** A header that does not begin with exactly "Bearer " carries no token,
      whatever follows. */
  lemma OnlyExactPrefixCarriesToken(h: string)
    requires |h| < |BEARER_PREFIX| || h[..|BEARER_PREFIX|] != BEARER_PREFIX
    ensures BearerToken(Some(h)) == None
  {
  }

  /** The scheme name is matched case-sensitively: behind a lower-case
      "bearer " no token is read, whatever is sent. */
  lemma LowerCaseSchemeIgnored(token: string)
    ensures BearerToken(Some("bearer " + token)) == None
  {
    var h := "bearer " + token;
    assert h[0] == 'b' != BEARER_PREFIX[0];
    OnlyExactPrefixCarriesToken(h);
  }

  /** What doFilterInternal does to a request, as a value: the authentication
      is set only when the header carries a token, the token names an email,
      the context is not authenticated yet, that email is a stored user's and
      the token is valid for that user. */
  function Decide(header: Option<string>, jwtUtils: JwtUtils, users: seq<User>,
                  current: Option<Authentication>): (v: Verdict)
    ensures current.Some? ==> v == Verdict(Continued, current)
    ensures BearerToken(header).None? ==> v == Verdict(Continued, current)
    ensures v.outcome == UsernameNotFound <==>
      && BearerToken(header).Some?
      && jwtUtils.extractUsername(BearerToken(header).value).Some?
      && current.None?
      && forall u :: u in users ==> u.email != jwtUtils.extractUsername(BearerToken(header).value).value
    ensures v.outcome == UsernameNotFound ==> v.authentication == current
    ensures v.authentication != current <==>
      && BearerToken(header).Some?
      && var token := BearerToken(header).value;
      && jwtUtils.extractUsername(token).Some?
      && current.None?
      && var user := FindByEmail(users, jwtUtils.extractUsername(token).value);
      && user.Some?
      && jwtUtils.isTokenValid(token, user.value)
    ensures v.authentication != current ==>
      && v.outcome == Continued
      && v.authentication.Some?
      && v.authentication.value.principal in users
      && Username(v.authentication.value) == jwtUtils.extractUsername(BearerToken(header).value).value
      && jwtUtils.isTokenValid(BearerToken(header).value, v.authentication.value.principal)
  {
    match BearerToken(header)
    case None => Verdict(Continued, current)
    case Some(token) =>
      var userEmail := jwtUtils.extractUsername(token);
      if userEmail.Some? && current.None? then
        match FindByEmail(users, userEmail.value)
        case None => Verdict(UsernameNotFound, current)
        case Some(user) =>
          if jwtUtils.isTokenValid(token, user) then Verdict(Continued, Some(Authentication(user)))
          else Verdict(Continued, current)
      else Verdict(Continued, current)
  }

  /** An authentication the filter sets resolves, in the controllers, to the
      very user the filter loaded. */
  lemma FilterThenCallerResolves(header: Option<string>, jwtUtils: JwtUtils, users: seq<User>)
    requires Decide(header, jwtUtils, users, None).authentication.Some?
    ensures var a := Decide(header, jwtUtils, users, None).authentication.value;
      GetUserFromAuth(a, users) == Some(a.principal)
  {
    var token := BearerToken(header).value;
    var email := jwtUtils.extractUsername(token).value;
    assert Decide(header, jwtUtils, users, None).authentication.value.principal
      == FindByEmail(users, email).value;
  }

  /** Running the filter again on the context it leaves changes nothing more. */
  lemma DecideSettles(header: Option<string>, jwtUtils: JwtUtils, users: seq<User>, current: Option<Authentication>)
    requires Decide(header, jwtUtils, users, current).outcome == Continued
    ensures var a := Decide(header, jwtUtils, users, current).authentication;
      Decide(header, jwtUtils, users, a) == Verdict(Continued, a)
  {
  }

  /** The rest of the filter chain, recorded by the authentication it saw for
      each request passed on to it. */
  class FilterChain {
    var passed: seq<Option<Authentication>>

    constructor ()
      ensures passed == []
    {
      passed := [];
    }

    /** doFilter: hands the request on, with the context as it is now. */
    method DoFilter(ctx: SecurityContext)
      modifies this
      ensures passed == old(passed) + [ctx.authentication]
    {
      passed := passed + [ctx.authentication];
    }
  }

  /** setRequestAuthentication: the context's authentication becomes a token
      whose principal is the loaded user. */
  method SetRequestAuthentication(userDetails: User, ctx: SecurityContext)
    modifies ctx
    ensures ctx.authentication == Some(Authentication(userDetails))
  {
    ctx.authentication := Some(Authentication(userDetails));
  }

  /** doFilterInternal: the context ends as Decide says, and the chain is
      invoked exactly once, seeing that context, unless loading the user
      threw. */
  method DoFilterInternal(header: Option<string>, jwtUtils: JwtUtils, users: seq<User>,
                          ctx: SecurityContext, chain: FilterChain)
    returns (outcome: FilterOutcome)
    modifies ctx, chain
    ensures Verdict(outcome, ctx.authentication) == Decide(header, jwtUtils, users, old(ctx.authentication))
    ensures outcome == Continued ==> chain.passed == old(chain.passed) + [ctx.authentication]
    ensures outcome == UsernameNotFound ==> chain.passed == old(chain.passed)
  {
    if header.None? || !StartsWith(header.value, BEARER_PREFIX) {
      chain.DoFilter(ctx);
      return Continued;
    }
    var jwt := header.value[7..];
    var userEmail := jwtUtils.extractUsername(jwt);
    if userEmail.Some? && ctx.authentication.None? {
      var userDetails := FindByEmail(users, userEmail.value);
      if userDetails.None? {
        return UsernameNotFound;
      }
      if jwtUtils.isTokenValid(jwt, userDetails.value) {
        SetRequestAuthentication(userDetails.value, ctx);
      }
    }
    chain.DoFilter(ctx);
    outcome := Continued;
  }
}
