/** profile.php: a signed-in user's page, which loads the user row and, on a posted update, checks
    the trimmed name and email through throwing guards before the UPDATE, the session write and
    the reload of the row. */
module Profile {
  import opened Php
  import opened Store
  import opened Sessions
  import opened Config
  import opened Accounts

  datatype ProfileRequest = ProfileRequest(isPost: bool, updateProfile: bool, name: Option<string>, email: Option<string>)

  /** The statements that may fail: the SELECT of the user row on load, the order-history SELECT
      that follows it in the same try block, the UPDATE and the SELECT that reloads the row;
      `message` is the text the exception carries. */
  datatype ProfileFaults = ProfileFaults(load: bool, history: bool, update: bool, reload: bool, message: string)

  /** What the page shows: the user row ($userData), the load error, the update's success or
      error message. */
  datatype ProfilePage = ProfilePage(user: Option<User>, error: Option<string>,
                                     success: Option<string>, updateError: Option<string>)

  datatype ProfileOutcome =
    | ToLogin               // login.php?redirect=profile.php
    | Show(page: ProfilePage)

  const LoadError := "An error occurred while loading your profile."
  const RequiredMessage := "Name and email are required"
  const InvalidFormat := "Invalid email format"
  const UpdatedMessage := "Profile updated successfully!"

  /** The page as loaded, before any update. A missing row throws before the order history is
      read; a failing order-history SELECT sets the load error while the row already fetched stays
      on the page. */
  function Loaded(users: seq<User>, userId: int, f: ProfileFaults): (p: ProfilePage)
    ensures p.success.None? && p.updateError.None?
    ensures p.error.None? <==> p.user.Some? && !f.history
    ensures p.error.Some? ==> p.error == Some(LoadError)
    ensures p.user.Some? ==> p.user.value in users && p.user.value.id == userId
    ensures p.user.None? <==> f.load || userId !in UserIds(users)
  {
    var found := if f.load then None else FindById(users, userId);
    ProfilePage(found, if found.None? || f.history then Some(LoadError) else None, None, None)
  }

  /** The posted update, once name and email are trimmed; `validEmail` stands for filter_var and
      `nameColumn` for whether the users table has the `name` column the UPDATE names. */
  function UpdateSpec(st: SessionState, t: Tables, userId: int, page: ProfilePage, name: string, email: string,
                      validEmail: string -> bool, nameColumn: bool, f: ProfileFaults)
    : (ProfilePage, SessionState, Tables)
  {
    if Empty(Some(name)) || Empty(Some(email)) then (page.(updateError := Some(RequiredMessage)), st, t)
    else if !validEmail(email) then (page.(updateError := Some(InvalidFormat)), st, t)
    else if f.update || !nameColumn || EmailOfOther(t.users, userId, email) then (page.(updateError := Some(f.message)), st, t)
    else
      var t2 := t.(users := WithProfile(t.users, userId, name, email));
      var st2 := st.(userName := Some(name));
      if f.reload then (page.(updateError := Some(f.message)), st2, t2)
      else (page.(user := FindById(t2.users, userId), success := Some(UpdatedMessage)), st2, t2)
  }

  /** The whole request: the load always runs, and a posted update runs whether or not the load
      failed. */
  function ProfileSpec(st: SessionState, t: Tables, req: ProfileRequest, validEmail: string -> bool,
                       nameColumn: bool, f: ProfileFaults)
    : (ProfileOutcome, SessionState, Tables)
  {
    if !IsLoggedIn(st) then (ToLogin, st, t)
    else
      var page := Loaded(t.users, st.userId.value, f);
      if req.isPost && req.updateProfile then
        var (p2, st2, t2) := UpdateSpec(st, t, st.userId.value, page, Trim(PostValue(req.name)), Trim(PostValue(req.email)),
                                        validEmail, nameColumn, f);
        (Show(p2), st2, t2)
      else (Show(page), st, t)
  }

  /** The update block: guards that throw, the UPDATE, the session write, the reload. */
  method Update(db: Database, session: Session, userId: int, page: ProfilePage, name: string, email: string,
                validEmail: string -> bool, f: ProfileFaults) returns (p: ProfilePage)
    requires db.Valid()
    modifies db, session
    ensures db.Valid()
    ensures (p, session.State(), db.Snapshot())
         == UpdateSpec(old(session.State()), old(db.Snapshot()), userId, page, name, email, validEmail, db.nameColumn, f)
  {
    p := page;
    if Empty(Some(name)) || Empty(Some(email)) {
      p := p.(updateError := Some(RequiredMessage));
      return;
    }
    if !validEmail(email) {
      p := p.(updateError := Some(InvalidFormat));
      return;
    }
    var err := db.UpdateUserProfile(userId, name, email, f.update);
    if err.Some? {
      p := p.(updateError := Some(f.message));
      return;
    }
    session.userName := Some(name);
    if f.reload {
      p := p.(updateError := Some(f.message));
      return;
    }
    p := p.(user := FindById(db.users, userId), success := Some(UpdatedMessage));
  }

  /** One request to profile.php. */
  method HandleProfile(db: Database, session: Session, req: ProfileRequest, validEmail: string -> bool, f: ProfileFaults)
    returns (out: ProfileOutcome)
    requires db.Valid()
    modifies db, session
    ensures db.Valid()
    ensures (out, session.State(), db.Snapshot())
         == ProfileSpec(old(session.State()), old(db.Snapshot()), req, validEmail, db.nameColumn, f)
  {
    if session.userId.None? {
      return ToLogin;
    }
    var userId := session.userId.value;
    var page := Loaded(db.users, userId, f);
    if req.isPost && req.updateProfile {
      page := Update(db, session, userId, page, Trim(PostValue(req.name)), Trim(PostValue(req.email)), validEmail, f);
    }
    out := Show(page);
  }

  /** The avatar initial: the upper-cased first character of the name, or "U" when the row or its
      name is absent (an empty name gives an empty initial). */
  function Avatar(user: Option<User>): (r: string)
    ensures |r| <= 1
    ensures forall i :: 0 <= i < |r| ==> !IsLower(r[i])
    ensures r == [] <==> user.Some? && user.value.name == Some("")
  {
    if user.None? || user.value.name.None? then "U"
    else if user.value.name.value == "" then ""
    else [UpperChar(user.value.name.value[0])]
  }

  /** The initial of a name that starts with a letter is that letter in upper case. */
  lemma AvatarOfName(u: User)
    requires u.name.Some? && u.name.value != [] && (IsLower(u.name.value[0]) || IsUpper(u.name.value[0]))
    ensures |Avatar(Some(u))| == 1 && IsUpper(Avatar(Some(u))[0])
    ensures Avatar(Some(u))[0] == u.name.value[0] || Avatar(Some(u))[0] as int == u.name.value[0] as int - 32
  {
  }

  /** Nothing is written unless the trimmed name and email are both non-empty (and not "0") and
      the email is well-formed; the guards report their own messages. */
  lemma GuardsBeforeUpdate(st: SessionState, t: Tables, req: ProfileRequest, validEmail: string -> bool,
                           nameColumn: bool, f: ProfileFaults)
    requires IsLoggedIn(st) && req.isPost && req.updateProfile
    ensures var (out, st2, t2) := ProfileSpec(st, t, req, validEmail, nameColumn, f);
            var name, email := Trim(PostValue(req.name)), Trim(PostValue(req.email));
      && (Empty(Some(name)) || Empty(Some(email)) ==> out.page.updateError == Some(RequiredMessage) && st2 == st && t2 == t)
      && ((!Empty(Some(name)) && !Empty(Some(email)) && !validEmail(email))
          ==> out.page.updateError == Some(InvalidFormat) && st2 == st && t2 == t)
      && (t2 != t ==> !Empty(Some(name)) && !Empty(Some(email)) && validEmail(email))
  {
  }

  /** The update writes the name and email of the user's own row only and nothing else; the
      session's user_name then holds the new name, even when the reload afterwards fails. */
  lemma UpdateStoresName(st: SessionState, t: Tables, userId: int, page: ProfilePage, name: string, email: string,
                         validEmail: string -> bool, nameColumn: bool, f: ProfileFaults)
    requires page.success.None?
    ensures var (p2, st2, t2) := UpdateSpec(st, t, userId, page, name, email, validEmail, nameColumn, f);
      st2 != st ==> (&& nameColumn && !f.update && !EmailOfOther(t.users, userId, email)
                     && t2 == t.(users := WithProfile(t.users, userId, name, email))
                     && st2 == st.(userName := Some(name))
                     && (p2.success.Some? <==> !f.reload))
  {
  }

  /** With the `name` column present, a valid update of a signed-in user's own row succeeds: the
      reloaded row carries the new name and email and the avatar follows the new name. */
  lemma {:induction false} UpdateWithNameColumn(st: SessionState, t: Tables, req: ProfileRequest, validEmail: string -> bool,
                                                 message: string)
    requires IsLoggedIn(st) && req.isPost && req.updateProfile
    requires st.userId.value in UserIds(t.users)
    requires var name, email := Trim(PostValue(req.name)), Trim(PostValue(req.email));
      !Empty(Some(name)) && !Empty(Some(email)) && validEmail(email) && !EmailOfOther(t.users, st.userId.value, email)
    ensures var (out, st2, t2) := ProfileSpec(st, t, req, validEmail, true, ProfileFaults(false, false, false, false, message));
            var name, email := Trim(PostValue(req.name)), Trim(PostValue(req.email));
      && out.page.success == Some(UpdatedMessage) && st2.userName == Some(name)
      && out.page.user.Some? && out.page.user.value.name == Some(name) && out.page.user.value.email == email
      && Avatar(out.page.user) == (if name == "" then "" else [UpperChar(name[0])])
  {
    var name, email := Trim(PostValue(req.name)), Trim(PostValue(req.email));
    var id := st.userId.value;
    var f := ProfileFaults(false, false, false, false, message);
    var t2 := t.(users := WithProfile(t.users, id, name, email));
    ReloadFindsProfile(t.users, id, name, email);
    assert UpdateSpec(st, t, id, Loaded(t.users, id, f), name, email, validEmail, true, f)
        == (Loaded(t.users, id, f).(user := FindById(t2.users, id), success := Some(UpdatedMessage)),
            st.(userName := Some(name)), t2);
  }

  /** Reloading the updated row finds the new name and email. */
  lemma ReloadFindsProfile(users: seq<User>, id: int, name: string, email: string)
    requires id in UserIds(users)
    ensures var u := FindById(WithProfile(users, id, name, email), id);
      u.Some? && u.value.name == Some(name) && u.value.email == email
  {
    var users2 := WithProfile(users, id, name, email);
    var v :| v in users && v.id == id;
    var j :| 0 <= j < |users| && users[j] == v;
    assert users2[j] in users2 && users2[j].id == id;
    var u := FindById(users2, id).value;
    var k :| 0 <= k < |users2| && users2[k] == u;
    assert users2[k] == users[k].(name := Some(name), email := email);
  }

  /** Without the `name` column, as the users table is created in config.php, every valid update
      fails at the UPDATE: nothing is written, the session keeps its user_name and the page shows
      the database's message. */
  lemma UpdateWithoutNameColumn(st: SessionState, t: Tables, req: ProfileRequest, validEmail: string -> bool,
                                f: ProfileFaults)
    requires IsLoggedIn(st) && req.isPost && req.updateProfile
    requires var name, email := Trim(PostValue(req.name)), Trim(PostValue(req.email));
      !Empty(Some(name)) && !Empty(Some(email)) && validEmail(email)
    ensures var (out, st2, t2) := ProfileSpec(st, t, req, validEmail, false, f);
      && out.page.updateError == Some(f.message) && out.page.success.None? && st2 == st && t2 == t
  {
  }

  /** Without the `name` column no row ever has a name, so the avatar is always "U". */
  lemma AvatarWithoutNameColumn(st: SessionState, t: Tables, req: ProfileRequest, validEmail: string -> bool,
                                f: ProfileFaults)
    requires IsLoggedIn(st)
    requires forall u :: u in t.users ==> u.name.None?
    ensures var (out, st2, t2) := ProfileSpec(st, t, req, validEmail, false, f);
      Avatar(out.page.user) == "U" && (forall u :: u in t2.users ==> u.name.None?)
  {
  }
}
