/** AuthUtils: resolving the authenticated caller to a stored user. Both
    operations only read the user store. */
module AuthUtils {
  import opened Wrappers
  import opened Exceptions
  import opened Users
  import opened Security

  const UNAUTHENTICATED: string := "Unauthenticated"

  /** getUserFromAuth: the stored user whose email is the principal's username, if any. */
  function GetUserFromAuth(auth: Authentication, users: seq<User>): (r: Option<User>)
    ensures r.Some? ==> r.value in users && r.value.email == Username(auth)
    ensures r.None? <==> forall u :: u in users ==> u.email != Username(auth)
  {
    FindByEmail(users, Username(auth))
  }

  /** getUserIdFromAuth: the id of that user, or an authentication error when
      no stored user has the principal's email. */
  function GetUserIdFromAuth(auth: Authentication, users: seq<User>): (r: Result<nat, Exception>)
    ensures r.Failure? <==> forall u :: u in users ==> u.email != Username(auth)
    ensures r.Failure? ==> r.error == AuthenticationException(UNAUTHENTICATED)
    ensures r.Success? ==> exists u :: u in users && u.email == Username(auth) && u.id == r.value
  {
    match GetUserFromAuth(auth, users)
    case None => Failure(AuthenticationException(UNAUTHENTICATED))
    case Some(user) => Success(user.id)
  }

  /** With unique emails the caller's id is the id of the one user with the
      principal's email. */
  lemma CallerIdIsOwnersId(auth: Authentication, users: seq<User>, u: User)
    requires UniqueEmails(users) && u in users && u.email == Username(auth)
    ensures GetUserIdFromAuth(auth, users) == Success(u.id)
  {
    FindByEmailUnique(users, u);
  }
}
