/** The request's security context, passed explicitly instead of through a
    thread-local holder. */
module Security {
  import opened Wrappers
  import opened Users

  /** A username/password authentication token whose principal is the loaded
      user's details; its credentials are null, and its authorities and request
      details are not modelled. */
  datatype Authentication = Authentication(principal: User)

  /** The principal's username, which is the user's email. */
  function Username(auth: Authentication): string {
    auth.principal.email
  }

  class SecurityContext {
    var authentication: Option<Authentication>

    constructor ()
      ensures authentication.None?
    {
      authentication := None;
    }
  }
}
