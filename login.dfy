/** login.php: the sign-in form, whose error list must stay empty before the user row is looked up
    by email and the password checked; success fills the session from the row. */
module Login {
  import opened Php
  import opened Store
  import opened Sessions
  import opened Config
  import opened Accounts
  import Register

  datatype LoginRequest = LoginRequest(
    isPost: bool, email: Option<string>, password: Option<string>, redirect: Option<string>)

  datatype LoginOutcome =
    | ToIndex                    // index.php: already logged in
    | Form(errors: seq<string>)  // the form again, with its error list
    | Redirect(target: string)   // signed in: $_GET['redirect'] ?? 'index.php'

  const PasswordRequired := "Password is required"
  const InvalidCredentials := "Invalid email or password"
  const FailedMessage := "Login failed. Please try again."
  const DefaultTarget := "index.php"

  /** The validation errors in the order the page reports them. */
  function LoginErrors(email: string, password: string, validEmail: string -> bool): (r: seq<string>)
    ensures |r| <= 2
    ensures r == [] <==> !Empty(Some(email)) && validEmail(email) && !Empty(Some(password))
    ensures Empty(Some(email)) ==> r[0] == EmailRequired
    ensures Empty(Some(password)) ==> r[|r| - 1] == PasswordRequired
  {
    EmailErrors(email, validEmail) + (if Empty(Some(password)) then [PasswordRequired] else [])
  }

  /** A posted form, once its fields are read: `verify` stands for password_verify and
      `fault` for a failure of the SELECT. */
  function SubmitSpec(st: SessionState, users: seq<User>, email: string, password: string, redirect: Option<string>,
                      validEmail: string -> bool, verify: (string, string) -> bool, fault: bool)
    : (LoginOutcome, SessionState)
  {
    var errors := LoginErrors(email, password, validEmail);
    if errors != [] then (Form(errors), st)
    else if fault then (Form([FailedMessage]), st)
    else
      var found := FindByEmail(users, email);
      if found.Some? && verify(password, found.value.passwordHash) then
        (Redirect(if redirect.Some? then redirect.value else DefaultTarget),
         st.(userId := Some(found.value.id), username := Some(found.value.username), roleId := Some(found.value.roleId)))
      else (Form([InvalidCredentials]), st)
  }

  /** The whole request: a logged-in visitor is sent home, a GET shows the empty form, and a POST
      reads the email trimmed and the password as it is. */
  function LoginSpec(st: SessionState, users: seq<User>, req: LoginRequest,
                     validEmail: string -> bool, verify: (string, string) -> bool, fault: bool)
    : (LoginOutcome, SessionState)
  {
    if IsLoggedIn(st) then (ToIndex, st)
    else if !req.isPost then (Form([]), st)
    else SubmitSpec(st, users, Trim(PostValue(req.email)), PostValue(req.password), req.redirect, validEmail, verify, fault)
  }

  /** The posted form: errors appended field by field, then authentication only while the list
      is empty. */
  method Submit(db: Database, session: Session, email: string, password: string, redirect: Option<string>,
                validEmail: string -> bool, verify: (string, string) -> bool, fault: bool)
    returns (out: LoginOutcome)
    modifies session
    ensures (out, session.State()) == SubmitSpec(old(session.State()), db.users, email, password, redirect, validEmail, verify, fault)
  {
    var errors: seq<string> := [];
    if Empty(Some(email)) {
      errors := errors + [EmailRequired];
    } else if !validEmail(email) {
      errors := errors + [EmailInvalid];
    }
    if Empty(Some(password)) {
      errors := errors + [PasswordRequired];
    }
    assert errors == LoginErrors(email, password, validEmail);
    if errors != [] {
      return Form(errors);
    }
    if fault {
      return Form([FailedMessage]);
    }
    var user := FindByEmail(db.users, email);
    if user.Some? && verify(password, user.value.passwordHash) {
      session.userId := Some(user.value.id);
      session.username := Some(user.value.username);
      session.roleId := Some(user.value.roleId);
      out := Redirect(if redirect.Some? then redirect.value else DefaultTarget);
    } else {
      out := Form([InvalidCredentials]);
    }
  }

  /** One request to login.php; the tables are only read. */
  method HandleLogin(db: Database, session: Session, req: LoginRequest,
                     validEmail: string -> bool, verify: (string, string) -> bool, fault: bool)
    returns (out: LoginOutcome)
    modifies session
    ensures (out, session.State()) == LoginSpec(old(session.State()), db.users, req, validEmail, verify, fault)
  {
    if session.userId.Some? {
      return ToIndex;
    }
    if !req.isPost {
      return Form([]);
    }
    out := Submit(db, session, Trim(PostValue(req.email)), PostValue(req.password), req.redirect, validEmail, verify, fault);
  }

  /** A logged-in session is sent home before anything is read. */
  lemma LoggedInRedirected(st: SessionState, users: seq<User>, req: LoginRequest,
                           validEmail: string -> bool, verify: (string, string) -> bool, fault: bool)
    requires IsLoggedIn(st)
    ensures LoginSpec(st, users, req, validEmail, verify, fault) == (ToIndex, st)
  {
  }

  /** Authentication is attempted only with an empty error list: otherwise the page shows the
      errors whatever the table, the password check and the database do, and the session is kept. */
  lemma AuthenticationOnlyWhenValid(st: SessionState, users1: seq<User>, users2: seq<User>, req: LoginRequest,
                                    validEmail: string -> bool, verify1: (string, string) -> bool,
                                    verify2: (string, string) -> bool, fault1: bool, fault2: bool)
    requires !IsLoggedIn(st) && req.isPost
    requires LoginErrors(Trim(PostValue(req.email)), PostValue(req.password), validEmail) != []
    ensures LoginSpec(st, users1, req, validEmail, verify1, fault1) == LoginSpec(st, users2, req, validEmail, verify2, fault2)
    ensures LoginSpec(st, users1, req, validEmail, verify1, fault1).1 == st
  {
  }

  /** An unknown email and a wrong password are reported with the same message. */
  lemma SameMessageForUnknownAndWrong(st: SessionState, users: seq<User>, req: LoginRequest,
                                      validEmail: string -> bool, verify: (string, string) -> bool)
    requires !IsLoggedIn(st) && req.isPost
    requires LoginErrors(Trim(PostValue(req.email)), PostValue(req.password), validEmail) == []
    requires var found := FindByEmail(users, Trim(PostValue(req.email)));
      found.None? || !verify(PostValue(req.password), found.value.passwordHash)
    ensures LoginSpec(st, users, req, validEmail, verify, false) == (Form([InvalidCredentials]), st)
  {
  }

  /** A successful sign-in comes from a row with that email whose hash the password verifies;
      the session takes user_id, username and role_id from it and the visitor goes where the
      redirect parameter says, verbatim, or home. */
  lemma SignInFillsSession(st: SessionState, users: seq<User>, req: LoginRequest,
                           validEmail: string -> bool, verify: (string, string) -> bool, fault: bool)
    ensures var (out, st2) := LoginSpec(st, users, req, validEmail, verify, fault);
      out.Redirect? ==>
        (&& !IsLoggedIn(st) && !fault
         && (exists u :: u in users && u.email == Trim(PostValue(req.email))
                       && verify(PostValue(req.password), u.passwordHash)
                       && st2 == st.(userId := Some(u.id), username := Some(u.username), roleId := Some(u.roleId)))
         && out.target == (if req.redirect.Some? then req.redirect.value else DefaultTarget))
  {
    var (out, st2) := LoginSpec(st, users, req, validEmail, verify, fault);
    if out.Redirect? {
      var u := FindByEmail(users, Trim(PostValue(req.email))).value;
      assert u in users;
    }
  }

  /** Registration and sign-in fit together: a form that registers a user lets that user sign in
      from a fresh session with the same email and password, with the default role 2, so no
      admin. */
  lemma {:induction false} RegisteredUserCanSignIn(t: Tables, n: int, u: string, e: string, p: string, c: string,
                                                    validEmail: string -> bool, hash: string -> string,
                                                    verify: (string, string) -> bool, redirect: Option<string>)
    requires forall q :: verify(q, hash(q))
    requires Register.SubmitSpec(NoSession, t, n, u, e, p, c, validEmail, hash, Register.RegisterFaults(false, false)).0 == Register.ToIndex
    ensures var t2 := Register.SubmitSpec(NoSession, t, n, u, e, p, c, validEmail, hash, Register.RegisterFaults(false, false)).2;
            var (out, st) := SubmitSpec(NoSession, t2.users, e, p, redirect, validEmail, verify, false);
      out.Redirect? && st.userId == Some(n) && st.roleId == Some(2) && !IsAdmin(st)
  {
    var row := User(n, u, e, hash(p), 2, None);
    assert Register.ValidationErrors(u, e, p, c, validEmail) == [];
    assert !TakenBy(t.users, u, e);
    var t2 := Register.SubmitSpec(NoSession, t, n, u, e, p, c, validEmail, hash, Register.RegisterFaults(false, false)).2;
    assert t2.users == t.users + [row];
    assert LoginErrors(e, p, validEmail) == [];
    FindByEmailAppend(t.users, row);
    assert verify(p, hash(p));
  }

  /** Looking up an email that no earlier row holds finds the appended row. */
  lemma {:induction false} FindByEmailAppend(users: seq<User>, u: User)
    requires forall v :: v in users ==> v.email != u.email
    ensures FindByEmail(users + [u], u.email) == Some(u)
  {
    if users == [] {
      assert users + [u] == [u];
    } else {
      assert (users + [u])[1..] == users[1..] + [u];
      FindByEmailAppend(users[1..], u);
    }
  }
}
