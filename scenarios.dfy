/**
 * Sequences of requests against one `AuthState`, proved from the handlers'
 * contracts alone: what a client observes across register, login, the next
 * request's user loading, logout and a login-protected view.
 */
module AuthScenarios {
  import opened Wrappers
  import opened Passwords
  import opened UserTable
  import opened Auth

  /** Registering a new username and then logging in with the same password
      succeeds; the next request sees the new row as `g.user`. */
  method RegisterThenLogin(a: AuthState, username: string, password: string)
    returns (registered: Response, loggedIn: Response)
    requires a.Valid() && username != "" && password != "" && !Registered(a.users, username)
    modifies a
    ensures a.Valid()
    ensures registered == RedirectToLogin && loggedIn == RedirectToIndex
    ensures a.users == old(a.users) + [User(old(a.nextId), username, Hash(password))]
    ensures a.session == map[UserIdKey := old(a.nextId)]
    ensures a.gUser == Some(User(old(a.nextId), username, Hash(password)))
  {
    InsertThenFind(a.users, a.nextId, username, Hash(password));
    registered := a.Register(true, username, password);
    CheckHash(password);
    loggedIn := a.Login(true, username, password);
    a.LoadLoggedInUser();
  }

  /** A second registration of a username fails with the duplicate message
      and adds no second row. */
  method RegisterTwice(a: AuthState, username: string, password: string, secondPassword: string)
    returns (first: Response, second: Response)
    requires a.Valid() && username != "" && password != "" && secondPassword != ""
    requires !Registered(a.users, username)
    modifies a
    ensures a.Valid()
    ensures first == RedirectToLogin && second == RenderRegisterForm
    ensures a.users == old(a.users) + [User(old(a.nextId), username, Hash(password))]
    ensures a.flashes == old(a.flashes) + [AlreadyRegistered(username)]
    ensures a.session == old(a.session)
  {
    first := a.Register(true, username, password);
    assert a.users[|a.users| - 1] in a.users;
    second := a.Register(true, username, secondPassword);
  }

  /** Logging in with a registered username and a password other than the
      one its hash was made from fails and leaves the session as it was. */
  method LoginWithWrongPassword(a: AuthState, username: string, password: string, wrong: string)
    returns (r: Response)
    requires Registered(a.users, username)
    requires FindByUsername(a.users, username).value.passwordHash == Hash(password)
    requires wrong != password
    modifies a
    ensures r == RenderLoginForm
    ensures a.session == old(a.session) && a.users == old(a.users)
    ensures a.flashes == old(a.flashes) + [IncorrectPassword]
  {
    CheckRejectsOther(password, wrong);
    r := a.Login(true, username, wrong);
  }

  /** After logging out, the next request has no `g.user`, and every
      login-protected view redirects to the login page without running. */
  method LogoutThenProtectedView<K, R>(a: AuthState, view: K --> R, kwargs: K)
    returns (r: Response, viewed: Guarded<R>)
    modifies a
    ensures r == RedirectToIndex && a.session == map[] && a.users == old(a.users)
    ensures a.gUser == None
    ensures viewed == Denied(RedirectToLogin)
  {
    r := a.Logout();
    a.LoadLoggedInUser();
    viewed := LoginRequired(a.gUser, view, kwargs);
  }
}
