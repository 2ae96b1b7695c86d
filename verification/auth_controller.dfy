/** AuthController: the register and sign-in decision flows. */
module AuthController {
  import opened Wrappers
  import opened JavaString
  import opened Http
  import opened Exceptions
  import opened Users
  import opened AuthService

  /** The user data and token sent back by both endpoints. */
  datatype AuthResponse = AuthResponse(id: nat, name: string, email: string, token: string)

  const EMAIL_EXISTS: string := "Account with email already exists"
  const NO_SUCH_ACCOUNT: string := "Account with this email doesn't exist"
  const INCORRECT_PASSWORD: string := "Incorrect password"

  /** The response for an authenticated user. */
  function AuthResponseFor(u: User, jwt: JwtService): AuthResponse {
    AuthResponse(u.id, u.name, u.email, GenerateUserToken(jwt, u))
  }

  /** registerUser: an email already in the store is refused and nothing is
      written; otherwise exactly one user is created and returned with a
      token, with status 201. The duplicate check looks up the email as sent,
      while the store receives it trimmed. */
  method RegisterUser(payload: RegistrationPayload, users: UserRepository,
                      encoder: PasswordEncoder, jwt: JwtService)
    returns (r: Result<Response<AuthResponse>, Exception>)
    requires users.Valid()
    modifies users
    ensures users.Valid()
    ensures GetUserByEmail(old(users.rows), payload.email).Some? ==>
      && r == Failure(BadRequestException(EMAIL_EXISTS))
      && users.rows == old(users.rows) && users.nextId == old(users.nextId)
    ensures GetUserByEmail(old(users.rows), payload.email).None? ==>
      var u := NewUser(old(users.nextId), payload, encoder);
      && users.rows == old(users.rows) + [u]
      && r == Success(Response(CREATED, AuthResponseFor(u, jwt)))
  {
    if GetUserByEmail(users.rows, payload.email).Some? {
      return Failure(BadRequestException(EMAIL_EXISTS));
    }
    var newUser := CreateUser(payload, users, encoder);
    var token := GenerateUserToken(jwt, newUser);
    r := Success(Response(CREATED, AuthResponse(newUser.id, newUser.name, newUser.email, token)));
  }

  /** signInUser: an unknown email is a bad request, a password the stored
      hash rejects is an authorisation error, and otherwise the stored user is
      returned with a token, with status 200. Nothing is written. */
  function SignInUser(payload: LoginPayload, users: seq<User>, encoder: PasswordEncoder, jwt: JwtService)
    : (r: Result<Response<AuthResponse>, Exception>)
    ensures (forall u :: u in users ==> u.email != payload.email) ==>
      r == Failure(BadRequestException(NO_SUCH_ACCOUNT))
    ensures r.Success? ==>
      && r.value.status == OK
      && exists u :: u in users && u.email == payload.email
           && encoder.matches(payload.password, u.password)
           && r.value.body == AuthResponseFor(u, jwt)
    ensures r.Failure? ==>
      r.error == BadRequestException(NO_SUCH_ACCOUNT) || r.error == AuthorisationException(INCORRECT_PASSWORD)
  {
    match GetUserByEmail(users, payload.email)
    case None => Failure(BadRequestException(NO_SUCH_ACCOUNT))
    case Some(signedInUser) =>
      if !IsPasswordValid(encoder, payload.password, signedInUser.password) then
        Failure(AuthorisationException(INCORRECT_PASSWORD))
      else
        Success(Response(OK, AuthResponseFor(signedInUser, jwt)))
  }

  /** Signing in is decided by the first stored user with the email: the
      password is checked against that user's hash. */
  lemma {:induction false} SignInChecksStoredHash(payload: LoginPayload, users: seq<User>,
                                                  encoder: PasswordEncoder, jwt: JwtService, u: User)
    requires UniqueEmails(users) && u in users && u.email == payload.email
    ensures SignInUser(payload, users, encoder, jwt) ==
      if encoder.matches(payload.password, u.password)
      then Success(Response(OK, AuthResponseFor(u, jwt)))
      else Failure(AuthorisationException(INCORRECT_PASSWORD))
  {
    FindByEmailUnique(users, u);
  }

  /** Registering and then signing in with the same email and password
      succeeds with the new user's data, provided neither has surrounding
      trim characters and the hasher is correct. */
  lemma {:induction false} RegisterThenSignIn(users: seq<User>, nextId: nat, p: RegistrationPayload,
                                              encoder: PasswordEncoder, jwt: JwtService)
    requires SoundEncoder(encoder)
    requires GetUserByEmail(users, p.email).None?
    requires IsTrimmed(p.email) && IsTrimmed(p.password)
    ensures var u := NewUser(nextId, p, encoder);
      SignInUser(LoginPayload(p.email, p.password), users + [u], encoder, jwt)
        == Success(Response(OK, AuthResponse(nextId, Trim(p.name), p.email, jwt.generateToken(u))))
  {
    var u := NewUser(nextId, p, encoder);
    TrimOfTrimmed(p.email);
    TrimOfTrimmed(p.password);
    FindByEmailAppend(users, u, p.email);
  }

  /** After registering, any other password is refused with an authorisation error. */
  lemma {:induction false} RegisterThenWrongPassword(users: seq<User>, nextId: nat, p: RegistrationPayload,
                                                     encoder: PasswordEncoder, jwt: JwtService, wrong: string)
    requires SoundEncoder(encoder)
    requires GetUserByEmail(users, p.email).None?
    requires IsTrimmed(p.email) && wrong != Trim(p.password)
    ensures var u := NewUser(nextId, p, encoder);
      SignInUser(LoginPayload(p.email, wrong), users + [u], encoder, jwt)
        == Failure(AuthorisationException(INCORRECT_PASSWORD))
  {
    var u := NewUser(nextId, p, encoder);
    TrimOfTrimmed(p.email);
    FindByEmailAppend(users, u, p.email);
  }

  /** Registration stores the password trimmed but sign-in checks it as
      sent: a password registered with surrounding trim characters is refused
      when typed the same way again. */
  lemma {:induction false} UntrimmedPasswordRefusedAtSignIn(users: seq<User>, nextId: nat, p: RegistrationPayload,
                                                            encoder: PasswordEncoder, jwt: JwtService)
    requires SoundEncoder(encoder)
    requires GetUserByEmail(users, p.email).None?
    requires IsTrimmed(p.email) && !IsTrimmed(p.password)
    ensures var u := NewUser(nextId, p, encoder);
      SignInUser(LoginPayload(p.email, p.password), users + [u], encoder, jwt)
        == Failure(AuthorisationException(INCORRECT_PASSWORD))
  {
    assert Trim(p.password) != p.password;
    RegisterThenWrongPassword(users, nextId, p, encoder, jwt, p.password);
  }

  /** A registration accepted for an email without surrounding trim
      characters keeps the store's emails unique. */
  lemma {:induction false} RegisterKeepsEmailsUnique(users: seq<User>, nextId: nat, p: RegistrationPayload,
                                                     encoder: PasswordEncoder)
    requires UniqueEmails(users)
    requires GetUserByEmail(users, p.email).None?
    requires IsTrimmed(p.email)
    ensures UniqueEmails(users + [NewUser(nextId, p, encoder)])
  {
    TrimOfTrimmed(p.email);
    var u := NewUser(nextId, p, encoder);
    assert u.email == p.email;
    var all := users + [u];
    forall i, j | 0 <= i < j < |all|
      ensures all[i].email != all[j].email
    {
      assert all[i] == users[i];
      if j == |users| {
        assert users[i] in users;
        assert all[j] == u;
      } else {
        assert all[j] == users[j];
      }
    }
  }

  /** The duplicate check can be evaded: with every stored email trimmed,
      as registration stores them, a stored email sent again behind a space
      is not found, so registration goes ahead and the store then holds that
      email twice. From then on the store's single-result lookup by that email
      fails on a non-unique result: sign-ins and registrations with it end in
      the 500 catch-all, and a bearer request naming it fails inside the
      authentication filter, before any controller and outside the exception
      handler. The first-match lookup of this model does not follow it there. */
  lemma UntrimmedEmailEvadesDuplicateCheck(users: seq<User>, nextId: nat, stored: User,
                                           p: RegistrationPayload, encoder: PasswordEncoder)
    requires forall u :: u in users ==> IsTrimmed(u.email)
    requires stored in users && stored.email != []
    requires p.email == " " + stored.email
    ensures GetUserByEmail(users, p.email).None?
    ensures !UniqueEmails(users + [NewUser(nextId, p, encoder)])
  {
    LeadingTrimCharIgnored(' ', stored.email);
    TrimOfTrimmed(stored.email);
    var all := users + [NewUser(nextId, p, encoder)];
    var i :| 0 <= i < |users| && users[i] == stored;
    assert all[i].email == all[|users|].email;
  }
}
