/** admin/movies.php: the admin movie list and its delete action, which removes a movie's category
    links and the movie row inside one transaction. */
module AdminMovies {
  import opened Php
  import opened Store
  import opened Sessions
  import opened Config

  /** The two DELETE statements that may fail, and the text the PDOException carries. */
  datatype DeleteFaults = DeleteFaults(links: bool, movie: bool, message: string)

  datatype ListOutcome =
    | ToLogin       // ../login.php
    | ToList        // movies.php, after a delete attempt
    | ShowList      // the list itself, which only reads

  const DeletedMessage := "Movie deleted successfully!"
  const FailurePrefix := "Failed to delete movie: "

  /** Whether the delete statement on the movie row goes through: no failure, and no order item
      or watchlist row still references the movie (the foreign keys have no ON DELETE CASCADE). */
  predicate MovieDeletable(t: Tables, id: int, f: DeleteFaults) {
    !f.movie && UsageCount(t.orderItems, id) == 0 && forall e :: e in t.watchlist ==> e.movieId != id
  }

  /** The same for the rows the bound key matches: a key with a fractional part matches none, so
      only a failure of the statement itself stops it. */
  predicate KeyDeletable(t: Tables, key: Option<int>, f: DeleteFaults) {
    if key.None? then !f.movie else MovieDeletable(t, key.value, f)
  }

  /** The tables once both DELETEs have run on the rows the key matches. */
  function Deleted(t: Tables, key: Option<int>): Tables {
    if key.None? then t
    else t.(movieCategories := LinksWithout(t.movieCategories, key.value), movies := t.movies - {key.value})
  }

  /** The whole request as a function of the session and the tables: the outcome, the session
      after it and the tables after it. The raw ?delete= string is bound to both statements, so
      the rows they touch are those MySQL finds equal to it as a number. */
  function AdminDeleteSpec(st: SessionState, t: Tables, deleteParam: Option<string>, f: DeleteFaults)
    : (ListOutcome, SessionState, Tables)
  {
    if !IsAdmin(st) then (ToLogin, st, t)
    else if Empty(deleteParam) then (ShowList, st, t)
    else
      var key := SqlIntKey(deleteParam.value);
      if f.links || !KeyDeletable(t, key, f) then (ToList, st.(error := Some(FailurePrefix + f.message)), t)
      else (ToList, st.(success := Some(DeletedMessage)), Deleted(t, key))
  }

  /** BEGIN, DELETE the links, DELETE the movie, COMMIT; ROLLBACK when either statement fails.
      Without a key both statements match no row. */
  method DeleteInTransaction(db: Database, key: Option<int>, f: DeleteFaults) returns (ok: bool)
    requires db.Valid()
    modifies db
    ensures db.Valid()
    ensures ok <==> !f.links && KeyDeletable(old(db.Snapshot()), key, f)
    ensures ok ==> db.Snapshot() == Deleted(old(db.Snapshot()), key)
    ensures !ok ==> db.Snapshot() == old(db.Snapshot())
  {
    if key.None? {
      return !f.links && !f.movie;
    }
    var id := key.value;
    var saved := db.Snapshot();
    var mv, o, h, w, u := db.nextMovieId, db.nextOrderId, db.nextHistoryId, db.nextWatchId, db.nextUserId;
    assert db.CountersAtLeast(saved, mv, o, h, w, u);
    var err := db.DeleteCategoryLinks(id, f.links);
    if err.Some? {
      return false;
    }
    assert db.CountersAtLeast(saved, mv, o, h, w, u);
    err := db.DeleteMovie(id, f.movie);
    if err.Some? {
      db.Restore(saved, mv, o, h, w, u);
      return false;
    }
    ok := true;
  }

  /** One request to movies.php. */
  method HandleAdminDelete(db: Database, session: Session, deleteParam: Option<string>, f: DeleteFaults)
    returns (out: ListOutcome)
    requires db.Valid()
    modifies db, session
    ensures db.Valid()
    ensures (out, session.State(), db.Snapshot()) == AdminDeleteSpec(old(session.State()), old(db.Snapshot()), deleteParam, f)
  {
    if !IsAdmin(session.State()) {
      return ToLogin;
    }
    if Empty(deleteParam) {
      return ShowList;
    }
    var ok := DeleteInTransaction(db, SqlIntKey(deleteParam.value), f);
    if ok {
      session.success := Some(DeletedMessage);
    } else {
      session.error := Some(FailurePrefix + f.message);
    }
    out := ToList;
  }

  /** All or nothing: either the tables are untouched and the session carries the error, or the
      movie row the key names and every one of its category links are gone, nothing else changes,
      and the session carries the success message; the second happens exactly when both
      statements go through. */
  lemma DeleteIsAtomic(st: SessionState, t: Tables, p: Option<string>, f: DeleteFaults)
    requires IsAdmin(st) && !Empty(p)
    ensures var (out, st2, t2) := AdminDeleteSpec(st, t, p, f);
            var key := SqlIntKey(p.value);
      && out == ToList
      && ((t2 == t && st2 == st.(error := Some(FailurePrefix + f.message)))
          || (&& st2 == st.(success := Some(DeletedMessage))
              && (key.None? ==> t2 == t)
              && (key.Some? ==>
                  && key.value !in t2.movies && t2.movies == t.movies - {key.value}
                  && (forall l :: l in t2.movieCategories <==> l in t.movieCategories && l.movieId != key.value)
                  && t2.orders == t.orders && t2.orderItems == t.orderItems && t2.users == t.users
                  && t2.watchlist == t.watchlist && t2.orderHistory == t.orderHistory)))
      && (st2.success == Some(DeletedMessage) && st.success != Some(DeletedMessage) ==> !f.links && KeyDeletable(t, key, f))
  {
  }

  /** The statements remove exactly the movie whose id MySQL finds equal to the ?delete= string
      compared as a number, and only when the transaction commits. */
  lemma DeletesExactlyTheEqualRow(st: SessionState, t: Tables, p: Option<string>, f: DeleteFaults, id: int)
    requires IsAdmin(st) && !Empty(p) && id in t.movies
    ensures var (out, st2, t2) := AdminDeleteSpec(st, t, p, f);
      id !in t2.movies <==> !f.links && KeyDeletable(t, SqlIntKey(p.value), f) && SqlEquals(p.value, id)
  {
    SqlKeyMatches(p.value, id);
  }

  /** "5.5" names no movie: the transaction commits, reports success and deletes nothing, where
      (int) would have deleted movie 5. */
  lemma FractionalIdDeletesNothing(st: SessionState, t: Tables, message: string)
    requires IsAdmin(st)
    ensures AdminDeleteSpec(st, t, Some("5.5"), DeleteFaults(false, false, message))
         == (ToList, st.(success := Some(DeletedMessage)), t)
  {
    FractionMatchesNothing();
    HalfIdNotEmpty();
    assert KeyDeletable(t, None, DeleteFaults(false, false, message));
  }

  lemma HalfIdNotEmpty()
    ensures !Empty(Some("5.5"))
  {
    assert "5.5" != "" && "5.5" != "0";
  }

  /** No usage guard: a movie that order items reference is not protected by the page itself,
      only by the foreign key, so the delete fails as a database error and rolls back. */
  lemma OrderedMovieStoppedByForeignKey(st: SessionState, t: Tables, p: Option<string>, f: DeleteFaults)
    requires IsAdmin(st) && !Empty(p) && !f.links && !f.movie
    requires SqlIntKey(p.value).Some? && UsageCount(t.orderItems, SqlIntKey(p.value).value) > 0
    ensures AdminDeleteSpec(st, t, p, f) == (ToList, st.(error := Some(FailurePrefix + f.message)), t)
  {
  }

  /** Only the strict admin check lets a request through; anyone else is sent to the login page
      with nothing changed. */
  lemma NonAdminRedirected(st: SessionState, t: Tables, p: Option<string>, f: DeleteFaults)
    requires !IsAdmin(st)
    ensures AdminDeleteSpec(st, t, p, f) == (ToLogin, st, t)
  {
  }
}
