/** register.php: the sign-up form, whose error list is built field by field before the
    uniqueness check and the insert of the user row, after which the visitor is logged in. */
module Register {
  import opened Php
  import opened Store
  import opened Sessions
  import opened Config
  import opened Accounts

  datatype RegisterRequest = RegisterRequest(
    isPost: bool, username: Option<string>, email: Option<string>,
    password: Option<string>, confirm: Option<string>)

  datatype RegisterOutcome =
    | ToIndex                    // index.php: already logged in, or registered
    | Form(errors: seq<string>)  // the form again, with its error list
    | FatalError                 // an uncaught PDOException: the script stops with nothing rendered

  /** Which statements throw a PDOException: the uniqueness SELECT, which runs outside any
      try block, and the INSERT, whose exception the page catches. */
  datatype RegisterFaults = RegisterFaults(lookup: bool, insert: bool)

  const UsernameRequired := "Username is required"
  const UsernameShort := "Username must be at least 3 characters long"
  const UsernameLong := "Username must be less than 50 characters"
  const PasswordRequired := "Password is required"
  const PasswordShort := "Password must be at least 6 characters long"
  const PasswordMismatch := "Passwords do not match"
  const TakenMessage := "Username or email already exists"
  const FailedMessage := "Registration failed. Please try again."

  /** The username branch: at most one error; a length from 3 to 50 inclusive passes. */
  function UsernameErrors(u: string): (r: seq<string>)
    ensures |r| <= 1
    ensures r == [] <==> !Empty(Some(u)) && 3 <= |u| <= 50
  {
    if Empty(Some(u)) then [UsernameRequired]
    else if |u| < 3 then [UsernameShort]
    else if |u| > 50 then [UsernameLong]
    else []
  }

  /** The password branch: at most one error, the mismatch reported only for a long enough one. */
  function PasswordErrors(p: string, confirm: string): (r: seq<string>)
    ensures |r| <= 1
    ensures r == [] <==> !Empty(Some(p)) && |p| >= 6 && p == confirm
    ensures r == [PasswordMismatch] ==> |p| >= 6
  {
    if Empty(Some(p)) then [PasswordRequired]
    else if |p| < 6 then [PasswordShort]
    else if p != confirm then [PasswordMismatch]
    else []
  }

  /** The validation errors in the order the page reports them. */
  function ValidationErrors(u: string, e: string, p: string, c: string, validEmail: string -> bool): (r: seq<string>)
    ensures |r| <= 3
    ensures r == [] <==> UsernameErrors(u) == [] && EmailErrors(e, validEmail) == [] && PasswordErrors(p, c) == []
  {
    UsernameErrors(u) + EmailErrors(e, validEmail) + PasswordErrors(p, c)
  }

  /** A posted form, once its fields are read, as a function of the session, the tables and the
      next user id; `validEmail` stands for filter_var and `hash` for password_hash. */
  function SubmitSpec(st: SessionState, t: Tables, nextUserId: int, u: string, e: string, p: string, c: string,
                      validEmail: string -> bool, hash: string -> string, f: RegisterFaults)
    : (RegisterOutcome, SessionState, Tables)
  {
    var errors := ValidationErrors(u, e, p, c, validEmail);
    if errors != [] then (Form(errors), st, t)
    else if f.lookup then (FatalError, st, t)
    else if TakenBy(t.users, u, e) then (Form([TakenMessage]), st, t)
    else if f.insert then (Form([FailedMessage]), st, t)
    else (ToIndex, st.(userId := Some(nextUserId), username := Some(u)),
          t.(users := t.users + [User(nextUserId, u, e, hash(p), 2, None)]))
  }

  /** The whole request: a logged-in visitor is sent home, a GET shows the empty form, and a POST
      reads username and email trimmed and the two passwords as they are. */
  function RegisterSpec(st: SessionState, t: Tables, nextUserId: int, req: RegisterRequest,
                        validEmail: string -> bool, hash: string -> string, f: RegisterFaults)
    : (RegisterOutcome, SessionState, Tables)
  {
    if IsLoggedIn(st) then (ToIndex, st, t)
    else if !req.isPost then (Form([]), st, t)
    else SubmitSpec(st, t, nextUserId, Trim(PostValue(req.username)), Trim(PostValue(req.email)),
                    PostValue(req.password), PostValue(req.confirm), validEmail, hash, f)
  }

  /** The error list as the page builds it, one branch per field. */
  method CollectErrors(username: string, email: string, password: string, confirm: string,
                       validEmail: string -> bool) returns (errors: seq<string>)
    ensures errors == ValidationErrors(username, email, password, confirm, validEmail)
  {
    errors := [];
    if Empty(Some(username)) {
      errors := errors + [UsernameRequired];
    } else if |username| < 3 {
      errors := errors + [UsernameShort];
    } else if |username| > 50 {
      errors := errors + [UsernameLong];
    }
    assert errors == UsernameErrors(username);
    if Empty(Some(email)) {
      errors := errors + [EmailRequired];
    } else if !validEmail(email) {
      errors := errors + [EmailInvalid];
    }
    assert errors == UsernameErrors(username) + EmailErrors(email, validEmail);
    if Empty(Some(password)) {
      errors := errors + [PasswordRequired];
    } else if |password| < 6 {
      errors := errors + [PasswordShort];
    } else if password != confirm {
      errors := errors + [PasswordMismatch];
    }
  }

  /** The posted form: the error list, then the uniqueness check and the insert only while it
      is empty; on success the visitor is logged in. */
  method Submit(db: Database, session: Session, username: string, email: string, password: string, confirm: string,
                validEmail: string -> bool, hash: string -> string, f: RegisterFaults)
    returns (out: RegisterOutcome)
    requires db.Valid()
    modifies db, session
    ensures db.Valid()
    ensures (out, session.State(), db.Snapshot())
         == SubmitSpec(old(session.State()), old(db.Snapshot()), old(db.nextUserId),
                       username, email, password, confirm, validEmail, hash, f)
  {
    var errors := CollectErrors(username, email, password, confirm, validEmail);
    if errors == [] {
      if f.lookup {
        return FatalError;
      }
      if TakenBy(db.users, username, email) {
        errors := [TakenMessage];
      }
    }
    if errors != [] {
      return Form(errors);
    }
    var err, id := db.InsertUser(username, email, hash(password), f.insert);
    if err.Some? {
      return Form([FailedMessage]);
    }
    session.userId, session.username := Some(id), Some(username);
    out := ToIndex;
  }

  /** One request to register.php. */
  method HandleRegister(db: Database, session: Session, req: RegisterRequest,
                        validEmail: string -> bool, hash: string -> string, f: RegisterFaults)
    returns (out: RegisterOutcome)
    requires db.Valid()
    modifies db, session
    ensures db.Valid()
    ensures (out, session.State(), db.Snapshot())
         == RegisterSpec(old(session.State()), old(db.Snapshot()), old(db.nextUserId), req, validEmail, hash, f)
  {
    if session.userId.Some? {
      return ToIndex;
    }
    if !req.isPost {
      return Form([]);
    }
    out := Submit(db, session, Trim(PostValue(req.username)), Trim(PostValue(req.email)),
                  PostValue(req.password), PostValue(req.confirm), validEmail, hash, f);
  }

  /** Exactly 50 characters pass although the message says "less than 50"; 51 do not. */
  lemma FiftyCharactersAccepted(u: string)
    requires |u| == 50
    ensures UsernameErrors(u) == []
    ensures UsernameErrors(u + "x") == [UsernameLong]
  {
  }

  /** The uniqueness check runs only on a form without validation errors: otherwise the page
      shows exactly those errors, whatever the table holds, and writes nothing. */
  lemma UniquenessOnlyAfterValidation(st: SessionState, t1: Tables, t2: Tables, n: int, req: RegisterRequest,
                                      validEmail: string -> bool, hash: string -> string, f: RegisterFaults)
    requires !IsLoggedIn(st) && req.isPost
    requires ValidationErrors(Trim(PostValue(req.username)), Trim(PostValue(req.email)),
                              PostValue(req.password), PostValue(req.confirm), validEmail) != []
    ensures var (o1, s1, r1) := RegisterSpec(st, t1, n, req, validEmail, hash, f);
            var (o2, s2, r2) := RegisterSpec(st, t2, n, req, validEmail, hash, f);
      o1 == o2 && s1 == s2 == st && r1 == t1 && r2 == t2
  {
    var u, e := Trim(PostValue(req.username)), Trim(PostValue(req.email));
    var errors := ValidationErrors(u, e, PostValue(req.password), PostValue(req.confirm), validEmail);
    assert RegisterSpec(st, t1, n, req, validEmail, hash, f) == (Form(errors), st, t1);
    assert RegisterSpec(st, t2, n, req, validEmail, hash, f) == (Form(errors), st, t2);
  }

  /** A user row is added only when the error list stays empty: the username and the email are
      both new, and the row holds the hash of the password and the default role 2. The session
      then holds user_id and username but no role, so the new user is never an admin. */
  lemma RegistrationCreatesUser(st: SessionState, t: Tables, n: int, req: RegisterRequest,
                                validEmail: string -> bool, hash: string -> string, f: RegisterFaults)
    requires st.roleId.None?
    ensures var (out, st2, t2) := RegisterSpec(st, t, n, req, validEmail, hash, f);
      t2 != t ==> (&& out == ToIndex && !IsLoggedIn(st) && req.isPost && !f.lookup && !f.insert
                   && !TakenBy(t.users, Trim(PostValue(req.username)), Trim(PostValue(req.email)))
                   && t2.users == t.users + [User(n, Trim(PostValue(req.username)), Trim(PostValue(req.email)),
                                                  hash(PostValue(req.password)), 2, None)]
                   && 3 <= |Trim(PostValue(req.username))| <= 50 && |PostValue(req.password)| >= 6
                   && st2.userId == Some(n) && !IsAdmin(st2))
  {
  }

  /** A taken username or email is refused with the one message, and nothing is written. */
  lemma TakenRefused(st: SessionState, t: Tables, n: int, req: RegisterRequest,
                     validEmail: string -> bool, hash: string -> string, f: RegisterFaults)
    requires !IsLoggedIn(st) && req.isPost
    requires ValidationErrors(Trim(PostValue(req.username)), Trim(PostValue(req.email)),
                              PostValue(req.password), PostValue(req.confirm), validEmail) == []
    requires TakenBy(t.users, Trim(PostValue(req.username)), Trim(PostValue(req.email)))
    requires !f.lookup
    ensures RegisterSpec(st, t, n, req, validEmail, hash, f) == (Form([TakenMessage]), st, t)
  {
  }

  /** The uniqueness SELECT runs outside any try block: when it throws, on a form that passed
      validation, the script stops with an uncaught error, and that is the only way to reach it.
      Nothing is written and the visitor is not logged in. */
  lemma FailedLookupIsFatal(st: SessionState, t: Tables, n: int, req: RegisterRequest,
                            validEmail: string -> bool, hash: string -> string, f: RegisterFaults)
    ensures RegisterSpec(st, t, n, req, validEmail, hash, f).0 == FatalError
        <==> && !IsLoggedIn(st) && req.isPost && f.lookup
             && ValidationErrors(Trim(PostValue(req.username)), Trim(PostValue(req.email)),
                                 PostValue(req.password), PostValue(req.confirm), validEmail) == []
    ensures RegisterSpec(st, t, n, req, validEmail, hash, f).0 == FatalError
        ==> RegisterSpec(st, t, n, req, validEmail, hash, f).1 == st && RegisterSpec(st, t, n, req, validEmail, hash, f).2 == t
  {
  }
}
