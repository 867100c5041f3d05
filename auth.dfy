/**
 * The authentication blueprint: the register, login and logout handlers,
 * the per-request loading of the logged-in user, and the login_required
 * guard. One `AuthState` object holds what those handlers read and write:
 * the user table, the client's session, the request-scoped `g.user` and
 * the queue of flashed messages.
 */
module Auth {
  import opened Wrappers
  import opened Passwords
  import opened UserTable

  /** What a handler hands back to the web layer. */
  datatype Response =
    | RedirectToLogin      // redirect(url_for('auth.login'))
    | RedirectToIndex      // redirect(url_for('index'))
    | RenderRegisterForm   // render_template('auth/register.html')
    | RenderLoginForm      // render_template('auth/login.html')

  /** The session key that holds the logged-in user's id. */
  const UserIdKey: string := "user_id"

  const UsernameRequired: string := "Username is required."
  const PasswordRequired: string := "Password is required."
  const IncorrectUsername: string := "Incorrect username."
  const IncorrectPassword: string := "Incorrect password."

  function AlreadyRegistered(username: string): string {
    "User " + username + " is already registered."
  }

  /** The row `load_logged_in_user` puts in `g.user`: none when the session
      has no user id, and none when the id it has matches no row. */
  function LoggedInUser(session: map<string, int>, users: seq<User>): (r: Option<User>)
    ensures UserIdKey !in session ==> r == None
    ensures r.Some? <==> UserIdKey in session && exists u :: u in users && u.id == session[UserIdKey]
    ensures r.Some? ==> r.value in users && r.value.id == session[UserIdKey]
  {
    if UserIdKey in session then FindById(users, session[UserIdKey]) else None
  }

  /** In a well-formed table, a session holding a row's id resolves to that row. */
  lemma LoggedInUserExact(session: map<string, int>, users: seq<User>, nextId: int, u: User)
    requires WellFormed(users, nextId) && u in users
    requires UserIdKey in session && session[UserIdKey] == u.id
    ensures LoggedInUser(session, users) == Some(u)
  {
  }

  /** What the view wrapped by login_required returns: the redirect it
      substitutes, or the view's own result. */
  datatype Guarded<R> = Denied(redirect: Response) | Passed(result: R)

  /** `login_required(view)` applied to `kwargs`: with no logged-in user it
      redirects to the login page and the view is not called (the view need
      not even be callable then); otherwise the view's result is returned
      unchanged. */
  function LoginRequired<K, R>(gUser: Option<User>, view: K --> R, kwargs: K): (r: Guarded<R>)
    requires gUser.Some? ==> view.requires(kwargs)
    ensures r.Denied? <==> gUser == None
    ensures r.Denied? ==> r.redirect == RedirectToLogin
    ensures r.Passed? ==> r.result == view(kwargs)
  {
    if gUser == None then Denied(RedirectToLogin) else Passed(view(kwargs))
  }

  class AuthState {
    /** The `user` table. */
    var users: seq<User>
    /** The id the database assigns to the next inserted row. */
    var nextId: int
    /** The client's session: key/value pairs kept across requests. */
    var session: map<string, int>
    /** `g.user`: the logged-in user's row, for the current request only. */
    var gUser: Option<User>
    /** Messages queued by `flash`. Flask stores them inside the session, so
        clearing the session discards them as well. */
    var flashes: seq<string>

    ghost predicate Valid()
      reads this
    {
      WellFormed(users, nextId)
    }

    /** A fresh database and a client with an empty session. */
    constructor ()
      ensures Valid()
      ensures users == [] && nextId == 1 && session == map[] && gUser == None && flashes == []
    {
      users := [];
      nextId := 1;
      session := map[];
      gUser := None;
      flashes := [];
    }

    /** `register()`: a GET renders the form; a POST validates the username,
        then the password, then inserts the row, and either redirects to the
        login page or flashes the first problem found and renders the form. */
    method Register(isPost: bool, username: string, password: string) returns (r: Response)
      requires Valid()
      modifies this`users, this`nextId, this`flashes
      ensures Valid()
      ensures !isPost ==>
        r == RenderRegisterForm && users == old(users) && nextId == old(nextId) && flashes == old(flashes)
      ensures isPost && username == "" ==>
        && r == RenderRegisterForm && users == old(users) && nextId == old(nextId)
        && flashes == old(flashes) + [UsernameRequired]
      ensures isPost && username != "" && password == "" ==>
        && r == RenderRegisterForm && users == old(users) && nextId == old(nextId)
        && flashes == old(flashes) + [PasswordRequired]
      ensures isPost && username != "" && password != "" && Registered(old(users), username) ==>
        && r == RenderRegisterForm && users == old(users) && nextId == old(nextId)
        && flashes == old(flashes) + [AlreadyRegistered(username)]
      ensures isPost && username != "" && password != "" && !Registered(old(users), username) ==>
        && r == RedirectToLogin && flashes == old(flashes)
        && users == old(users) + [User(old(nextId), username, Hash(password))]
        && nextId == old(nextId) + 1
    {
      if isPost {
        var error: Option<string> := None;
        if username == "" {
          error := Some(UsernameRequired);
        } else if password == "" {
          error := Some(PasswordRequired);
        }
        if error == None {
          var inserted := Insert(users, nextId, username, Hash(password));
          match inserted
          case None =>
            error := Some(AlreadyRegistered(username));
          case Some(table) =>
            InsertKeepsWellFormed(users, nextId, username, Hash(password));
            users := table;
            nextId := nextId + 1;
            return RedirectToLogin;
        }
        flashes := flashes + [error.value];
      }
      return RenderRegisterForm;
    }

    /** `login()`: a GET renders the form; a POST looks the username up,
        checks the password against the stored hash, and either replaces the
        whole session by the user's id and redirects to the index, or flashes
        the problem and renders the form. */
    method Login(isPost: bool, username: string, password: string) returns (r: Response)
      modifies this`session, this`flashes
      ensures !isPost ==>
        r == RenderLoginForm && session == old(session) && flashes == old(flashes)
      ensures isPost && !Registered(users, username) ==>
        && r == RenderLoginForm && session == old(session)
        && flashes == old(flashes) + [IncorrectUsername]
      ensures isPost && Registered(users, username) ==>
        var u := FindByUsername(users, username).value;
        if Check(u.passwordHash, password) then
          r == RedirectToIndex && session == map[UserIdKey := u.id] && flashes == []
        else
          r == RenderLoginForm && session == old(session) && flashes == old(flashes) + [IncorrectPassword]
    {
      if isPost {
        var error: Option<string> := None;
        var user := FindByUsername(users, username);
        if user == None {
          error := Some(IncorrectUsername);
        } else if !Check(user.value.passwordHash, password) {
          error := Some(IncorrectPassword);
        }
        if error == None {
          session, flashes := map[], [];
          session := session[UserIdKey := user.value.id];
          return RedirectToIndex;
        }
        flashes := flashes + [error.value];
      }
      return RenderLoginForm;
    }

    /** `load_logged_in_user()`, run before every request: sets `g.user` from
        the session's user id and leaves the session as it is, even when the
        id no longer matches a row. */
    method LoadLoggedInUser()
      modifies this`gUser
      ensures gUser == LoggedInUser(session, users)
      ensures UserIdKey !in session ==> gUser == None
    {
      if UserIdKey !in session {
        gUser := None;
      } else {
        gUser := FindById(users, session[UserIdKey]);
      }
    }

    /** `logout()`: clears the whole session, whatever it held, and
        redirects to the index. */
    method Logout() returns (r: Response)
      modifies this`session, this`flashes
      ensures r == RedirectToIndex && session == map[] && flashes == []
    {
      session, flashes := map[], [];
      return RedirectToIndex;
    }
  }
}
