/** AuthService: registration writes one user; the rest are delegations to
    the user store, the password encoder and the token service, which are
    foreign and appear here as functions with no known properties. */
module AuthService {
  import opened Wrappers
  import opened JavaString
  import opened Users

  datatype RegistrationPayload = RegistrationPayload(name: string, email: string, password: string)

  datatype LoginPayload = LoginPayload(email: string, password: string)

  /** The password hasher: encode a raw password, check a raw password against a hash. */
  datatype PasswordEncoder = PasswordEncoder(
    encode: string -> string,
    matches: (string, string) -> bool)

  /** The token issuer. */
  datatype JwtService = JwtService(generateToken: User -> string)

  /** What a correct hasher guarantees: a raw password matches the hash of
      exactly itself. */
  ghost predicate SoundEncoder(encoder: PasswordEncoder) {
    forall raw, other :: encoder.matches(raw, encoder.encode(other)) <==> raw == other
  }

  /** getUserByEmail: the store's exact-match lookup, unchanged. */
  function GetUserByEmail(users: seq<User>, email: string): (r: Option<User>)
    ensures r.Some? ==> r.value in users && r.value.email == email
    ensures r.None? <==> forall u :: u in users ==> u.email != email
  {
    FindByEmail(users, email)
  }

  /** generateUserToken: the token service's token for the user. */
  function GenerateUserToken(jwt: JwtService, user: User): (r: string)
    ensures r == jwt.generateToken(user)
  {
    jwt.generateToken(user)
  }

  /** isPasswordValid: the encoder's verdict on a raw password and a hash;
      with a correct hasher, a hash of some password accepts exactly that one. */
  function IsPasswordValid(encoder: PasswordEncoder, password: string, encryptedPassword: string): (r: bool)
    ensures r == encoder.matches(password, encryptedPassword)
    ensures SoundEncoder(encoder) ==>
      forall other :: encryptedPassword == encoder.encode(other) ==> (r <==> password == other)
  {
    encoder.matches(password, encryptedPassword)
  }

  /** The row createUser stores under `id`: trimmed name and email, and the
      hash of the trimmed password. */
  function NewUser(id: nat, payload: RegistrationPayload, encoder: PasswordEncoder): User {
    User(id, Trim(payload.name), Trim(payload.email), encoder.encode(Trim(payload.password)))
  }

  /** createUser: stores exactly one new user and returns what the store saved. */
  method CreateUser(payload: RegistrationPayload, users: UserRepository, encoder: PasswordEncoder)
    returns (u: User)
    requires users.Valid()
    modifies users
    ensures users.Valid()
    ensures u == NewUser(old(users.nextId), payload, encoder)
    ensures users.rows == old(users.rows) + [u] && users.nextId == old(users.nextId) + 1
  {
    u := users.Save(Trim(payload.name), Trim(payload.email), encoder.encode(Trim(payload.password)));
  }

  /** With a correct hasher, the stored hash accepts the trimmed password and
      nothing else; the raw input is accepted only when it had no surrounding
      trim characters. */
  lemma StoredPasswordVerifies(id: nat, payload: RegistrationPayload, encoder: PasswordEncoder)
    requires SoundEncoder(encoder)
    ensures var hash := NewUser(id, payload, encoder).password;
      && IsPasswordValid(encoder, Trim(payload.password), hash)
      && (forall other :: IsPasswordValid(encoder, other, hash) ==> other == Trim(payload.password))
      && (IsPasswordValid(encoder, payload.password, hash) <==> Trim(payload.password) == payload.password)
  {
  }
}
