# Flaskr authentication, modelled in Dafny

This project models the authentication blueprint of the Flaskr tutorial blog
(`flaskr/auth.py`). It covers the `register`, `login` and `logout` handlers,
the `load_logged_in_user` hook that runs before every request, and the
`login_required` decorator. Together they form a small state machine over four
pieces of state:

- the `user` table, whose rows are (id, username, password hash);
- the client's session, a key/value map kept across requests;
- the request-scoped `g.user`;
- the queue of flashed messages.

Files (one module each):

- `wrappers.dfy` (`Wrappers`): `Option`.
- `passwords.dfy` (`Passwords`): a stand-in for werkzeug's password hashing.
  `Hash` makes a stored hash and `Check` verifies a password against it. The
  rest of the model relies on only two facts about them: `Check` accepts the
  password a hash was made from (`CheckHash`) and rejects every other password
  (`CheckRejectsOther`).
- `users.dfy` (`UserTable`): the table. It has the two `SELECT ... fetchone()`
  lookups, and the `INSERT` whose UNIQUE constraint on `username` raises
  IntegrityError (modelled as `None`). The invariant `WellFormed` says that
  usernames are non-empty and unique and that ids are unique and below the
  next id to assign.
- `auth.dfy` (`Auth`): class `AuthState`, with one method per handler, plus the
  pure functions `LoggedInUser` (what `g.user` becomes) and `LoginRequired`
  (the guard).
- `scenarios.dfy` (`AuthScenarios`): sequences of requests proved from the
  handlers' contracts alone:
  - register then log in;
  - register the same username twice;
  - log in with a wrong password;
  - log out, then call a protected view.

Two behaviours of the code that the model keeps:

- Flask's `flash` stores its messages inside the session, so
  `session.clear()` in `login` and `logout` also drops any queued messages.
  The model keeps the queue in its own field, `flashes`, and empties it
  wherever the session is cleared.
- A session whose `user_id` matches no row resolves to no user. The session is
  not cleared in that case.

## Model

| member | source | states |
|---|---|---|
| Passwords.CheckHash | flaskr/auth.py:72 | the stored hash of a password is accepted for that same password |
| Passwords.CheckRejectsOther | flaskr/auth.py:72-73 | the stored hash of a password is rejected for any different password |
| UserTable.FindByUsername | flaskr/auth.py:66-68 | the lookup finds a row exactly when some row has that username, and the row it returns is in the table and has that username |
| UserTable.FindById | flaskr/auth.py:97-99 | the lookup finds a row exactly when some row has that id, and the row it returns is in the table and has that id |
| UserTable.FindByUsernameExact | flaskr/auth.py:66-68 | in a well-formed table the username lookup returns precisely the row that has that username |
| UserTable.FindByIdExact | flaskr/auth.py:97-99 | in a well-formed table the id lookup returns precisely the row that has that id |
| UserTable.FindByUsernameAppend | flaskr/auth.py:66-68 | a username lookup in a table made of two parts returns the first part's match when it has one, and otherwise the second part's |
| UserTable.FindByIdAppend | flaskr/auth.py:97-99 | an id lookup in a table made of two parts returns the first part's match when it has one, and otherwise the second part's |
| UserTable.Insert | flaskr/auth.py:40-46 | the insert is rejected exactly when the username is already present; otherwise the old rows are kept and one row is appended with the assigned id, the username and the hash |
| UserTable.InsertKeepsWellFormed | flaskr/auth.py:40-44 | a successful insert of a non-empty username keeps usernames and ids unique once the id counter advances |
| UserTable.InsertThenFind | flaskr/auth.py:40-44 | after an insert, the new row is found by its username and by its id, and every other lookup returns what it returned before |
| Auth.LoggedInUser | flaskr/auth.py:92-99 | with no user_id in the session there is no user; otherwise the user is the row whose id equals the session's user_id, and there is none when no row has that id |
| Auth.LoggedInUserExact | flaskr/auth.py:92-99 | in a well-formed table, a session holding a row's id resolves to precisely that row |
| Auth.LoginRequired | flaskr/auth.py:111-119 | it redirects to login exactly when g.user is None, and the view need not be callable in that case; otherwise it returns the view's result unchanged |
| Auth.AuthState.Register | flaskr/auth.py:24-56 | a GET renders the form and changes nothing. A POST with an empty username, an empty password or a taken username, checked in that order, flashes exactly the matching message, leaves the table alone and renders the form. Otherwise it appends one row with the username and its hash and redirects to login. The session is never touched and the table invariant is kept |
| Auth.AuthState.Login | flaskr/auth.py:59-84 | a GET renders the form and changes nothing. An unknown username, or a hash that fails Check, flashes 'Incorrect username.' or 'Incorrect password.' and keeps the session. Success makes the session exactly {user_id: the row's id} and redirects to index. The table and g.user are never touched |
| Auth.AuthState.LoadLoggedInUser | flaskr/auth.py:91-99 | g.user becomes LoggedInUser of the session and the table; the session and the table are left unchanged |
| Auth.AuthState.Logout | flaskr/auth.py:102-105 | the session is empty afterwards, whatever it held before; the table is untouched; the response is a redirect to index |
| AuthScenarios.RegisterThenLogin | flaskr/auth.py:40-99 | registering a new username and then logging in with the same password both succeed; the session holds the new row's id and the next request's g.user is that row |
| AuthScenarios.RegisterTwice | flaskr/auth.py:40-54 | a second registration of the same username flashes the already-registered message and adds no second row |
| AuthScenarios.LoginWithWrongPassword | flaskr/auth.py:66-82 | logging in with a password other than the one a row's hash was made from flashes 'Incorrect password.' and keeps the session |
| AuthScenarios.LogoutThenProtectedView | flaskr/auth.py:101-117 | after logout, the next request has no g.user, and a protected view redirects to login without being called |

## Left out

- Flask machinery: the blueprint, route registration, `url_for`, `redirect` and `render_template`. A response is one of the four values of `Auth.Response`.
- Cookie signing of the session with `SECRET_KEY`. Session values are modelled as integers, since the only key these handlers write directly, `user_id`, holds one; the `_flashes` key that `flash` writes is modelled by the separate `flashes` field.
- Consuming flashed messages (`get_flashed_messages` in the templates). The model only appends to the queue, and clears it with the session.
- Password hashing internals (algorithm, random salt). `Passwords.Hash` is a deterministic stand-in. The real hash of one password differs from call to call, and nothing in the model depends on that.
- Passwords.CheckRejectsOther: proved only for the stand-in hash. For werkzeug's salted hash it is an assumption, which fails only on a hash collision; `AuthScenarios.LoginWithWrongPassword` rests on it.
- A missing form field (`request.form[...]` raising, which Flask answers with HTTP 400). Both fields are always present in the model. The HTTP method is reduced to a flag, `isPost`.
- `flaskr/db.py`: opening, caching and closing the sqlite connection, and `init-db`. The table is an in-memory sequence. Ids come from a counter that starts at 1, because `schema.sql` is not part of this model.
- `flaskr/__init__.py`: the app factory and configuration, and the `/hello` route.
- Posts and their ownership checks. `flaskr/blog.py` is not part of this model.
- Database errors other than the UNIQUE violation, such as `sqlite3.OperationalError` raised by `execute` or `commit` (flaskr/auth.py:40-44, 66-68, 97-99). They propagate out of the handler as an HTTP 500; the model's table operations always succeed.
- Side effects of a view wrapped by `login_required`. The view is a pure function `K --> R`, so the model says nothing about what a protected view changes.
- Concurrent requests. Each handler runs as one atomic step on `AuthState`; the database's unique constraint is modelled by `UserTable.Insert`.
