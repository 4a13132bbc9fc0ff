/** includes/process/process-watchlist.php and includes/process/remove_from_watchlist.php: guarded
    insertion and deletion of (user, movie) pairs in the watchlist table. */
module Watchlist {
  import opened Php
  import opened Store
  import opened Sessions
  import opened Config

  /** The POST fields of process-watchlist.php; None is an unset field. */
  datatype WatchRequest = WatchRequest(csrfToken: Option<string>, movieId: Option<string>, action: Option<string>)

  /** Failures of the movie lookup, the INSERT and the DELETE. */
  datatype WatchFaults = WatchFaults(lookup: bool, insert: bool, delete: bool)

  /** Both pages end in a redirect: to the login page, or back where the visitor came from
      (remove_from_watchlist.php: watchlist.php). */
  datatype WatchOutcome = ToLogin | Back

  const MustLogInMessage := "You must be logged in to manage your watchlist."
  const InvalidRequestMessage := "Invalid request. Please try again."
  const InvalidIdMessage := "Invalid movie ID."
  const NotFoundMessage := "Movie not found."
  const AddedMessage := "Movie added to your watchlist."
  const AlreadyMessage := "Movie is already in your watchlist."
  const AddErrorMessage := "Error adding movie to watchlist. Please try again."
  const RemovedMessage := "Movie removed from your watchlist."
  const DatabaseErrorMessage := "A database error occurred. Please try again later."
  const RemoveErrorMessage := "Error removing movie from watchlist. Please try again."

  /** The action posted, 'add' when absent. */
  function ActionOf(req: WatchRequest): (a: string)
    ensures req.action.None? ==> a == "add"
    ensures req.action.Some? ==> a == req.action.value
  {
    if req.action.Some? then req.action.value else "add"
  }

  /** Whether the INSERT succeeds: user and movie rows exist (FOREIGN KEYs) and, when the table has
      its UNIQUE KEY, the pair is new. */
  predicate InsertAccepted(t: Tables, unique: bool, userId: int, movieId: int) {
    userId in UserIds(t.users) && movieId in t.movies && !(unique && HasPair(t.watchlist, userId, movieId))
  }

  /** process-watchlist.php as a function of the session, the tables, the next watchlist id and
      whether the table carries its UNIQUE KEY. */
  function WatchlistSpec(st: SessionState, t: Tables, nextId: int, unique: bool, req: WatchRequest, f: WatchFaults)
    : (WatchOutcome, SessionState, Tables)
  {
    if st.userId.None? then (ToLogin, st.(errorMessage := Some(MustLogInMessage)), t)
    else if req.csrfToken.Some? && !VerifyCsrfToken(st, req.csrfToken.value) then
      (Back, st.(errorMessage := Some(InvalidRequestMessage)), t)
    else if req.movieId.None? || !IsNumeric(req.movieId.value) then
      (Back, st.(errorMessage := Some(InvalidIdMessage)), t)
    else
      var userId := st.userId.value;
      var movieId := TruncateToInt(NumericValue(req.movieId.value).value);
      if f.lookup then (Back, st.(errorMessage := Some(DatabaseErrorMessage)), t)
      else if movieId !in t.movies then (Back, st.(errorMessage := Some(NotFoundMessage)), t)
      else
        var (st2, t2) := ActionSpec(st, t, nextId, unique, userId, movieId, ActionOf(req) == "add", f);
        (Back, st2, t2)
  }

  /** The write for an existing movie: an "add" inserts the pair unless the database refuses it,
      anything else deletes it; the flash message says which happened. */
  function ActionSpec(st: SessionState, t: Tables, nextId: int, unique: bool, userId: int, movieId: int, add: bool, f: WatchFaults)
    : (SessionState, Tables)
  {
    if add then
      if f.insert then (st.(errorMessage := Some(AddErrorMessage)), t)
      else if InsertAccepted(t, unique, userId, movieId) then
        (st.(successMessage := Some(AddedMessage)),
         t.(watchlist := t.watchlist + [WatchEntry(nextId, userId, movieId)]))
      else (st.(infoMessage := Some(AlreadyMessage)), t)
    else if f.delete then (st.(errorMessage := Some(DatabaseErrorMessage)), t)
    else (st.(successMessage := Some(RemovedMessage)), t.(watchlist := WithoutPair(t.watchlist, userId, movieId)))
  }

  /** One request to process-watchlist.php. */
  method HandleWatchlist(db: Database, session: Session, req: WatchRequest, f: WatchFaults) returns (out: WatchOutcome)
    requires db.Valid()
    modifies db, session
    ensures db.Valid()
    ensures (out, session.State(), db.Snapshot())
         == WatchlistSpec(old(session.State()), old(db.Snapshot()), old(db.nextWatchId), db.uniqueWatch, req, f)
  {
    if session.userId.None? {
      session.errorMessage := Some(MustLogInMessage);
      return ToLogin;
    }
    if req.csrfToken.Some? && !VerifyCsrfToken(session.State(), req.csrfToken.value) {
      session.errorMessage := Some(InvalidRequestMessage);
      return Back;
    }
    if req.movieId.None? || !IsNumeric(req.movieId.value) {
      session.errorMessage := Some(InvalidIdMessage);
      return Back;
    }
    var movieId := TruncateToInt(NumericValue(req.movieId.value).value);
    var userId := session.userId.value;
    var action := ActionOf(req);
    if f.lookup {
      session.errorMessage := Some(DatabaseErrorMessage);
      return Back;
    }
    if movieId !in db.movies {
      session.errorMessage := Some(NotFoundMessage);
      return Back;
    }
    ApplyAction(db, session, userId, movieId, action == "add", f);
    out := Back;
  }

  /** Runs the INSERT or the DELETE and sets the flash message from its outcome. */
  method ApplyAction(db: Database, session: Session, userId: int, movieId: int, add: bool, f: WatchFaults)
    requires db.Valid() && movieId in db.movies
    modifies db, session
    ensures db.Valid()
    ensures (session.State(), db.Snapshot())
         == ActionSpec(old(session.State()), old(db.Snapshot()), old(db.nextWatchId), db.uniqueWatch, userId, movieId, add, f)
  {
    if add {
      var err := db.InsertWatch(userId, movieId, f.insert);
      if err.None? {
        session.successMessage := Some(AddedMessage);
      } else if err == Some(IntegrityViolation) {
        session.infoMessage := Some(AlreadyMessage);
      } else {
        session.errorMessage := Some(AddErrorMessage);
      }
    } else {
      var err := db.DeleteWatch(userId, movieId, f.delete);
      if err.None? {
        session.successMessage := Some(RemovedMessage);
      } else {
        session.errorMessage := Some(DatabaseErrorMessage);
      }
    }
  }

  /** remove_from_watchlist.php as a function: a logged-in request with a numeric movie_id deletes
      that user's rows for the movie. */
  function RemoveSpec(st: SessionState, t: Tables, movieIdParam: Option<string>, fault: bool)
    : (WatchOutcome, SessionState, Tables)
  {
    if !IsLoggedIn(st) then (ToLogin, st, t)
    else if movieIdParam.None? || !IsNumeric(movieIdParam.value) then (Back, st, t)
    else
      var movieId := TruncateToInt(NumericValue(movieIdParam.value).value);
      if fault then (Back, st.(errorMessage := Some(RemoveErrorMessage)), t)
      else (Back, st.(successMessage := Some(RemovedMessage)), t.(watchlist := WithoutPair(t.watchlist, st.userId.value, movieId)))
  }

  /** One request to remove_from_watchlist.php. */
  method HandleRemove(db: Database, session: Session, movieIdParam: Option<string>, fault: bool) returns (out: WatchOutcome)
    requires db.Valid()
    modifies db, session
    ensures db.Valid()
    ensures (out, session.State(), db.Snapshot()) == RemoveSpec(old(session.State()), old(db.Snapshot()), movieIdParam, fault)
  {
    if session.userId.None? {
      return ToLogin;
    }
    if movieIdParam.None? || !IsNumeric(movieIdParam.value) {
      return Back;
    }
    var movieId := TruncateToInt(NumericValue(movieIdParam.value).value);
    var err := db.DeleteWatch(session.userId.value, movieId, fault);
    if err.None? {
      session.successMessage := Some(RemovedMessage);
    } else {
      session.errorMessage := Some(RemoveErrorMessage);
    }
    out := Back;
  }

  /** The number of rows holding a (user, movie) pair. */
  function PairCount(rows: seq<WatchEntry>, userId: int, movieId: int): (n: nat)
    ensures n <= |rows|
    ensures n == 0 <==> !HasPair(rows, userId, movieId)
  {
    if rows == [] then 0
    else
      var init := rows[..|rows| - 1];
      var e := rows[|rows| - 1];
      var n := PairCount(init, userId, movieId) + (if e.userId == userId && e.movieId == movieId then 1 else 0);
      assert HasPair(rows, userId, movieId) <==> HasPair(init, userId, movieId) || (e.userId == userId && e.movieId == movieId) by {
        assert rows == init + [e];
        if HasPair(init, userId, movieId) {
          var x :| x in init && x.userId == userId && x.movieId == movieId;
          assert x in rows;
        }
      }
      n
  }

  lemma {:induction false} PairCountAppend(rows: seq<WatchEntry>, e: WatchEntry, userId: int, movieId: int)
    ensures PairCount(rows + [e], userId, movieId)
         == PairCount(rows, userId, movieId) + (if e.userId == userId && e.movieId == movieId then 1 else 0)
  {
    assert (rows + [e])[..|rows|] == rows;
  }

  /** Nothing but a logged-in request with a valid token, a numeric id and an existing movie
      reaches the table. */
  lemma GuardsChangeNothing(st: SessionState, t: Tables, nextId: int, unique: bool, req: WatchRequest, f: WatchFaults)
    requires || st.userId.None?
             || (req.csrfToken.Some? && !VerifyCsrfToken(st, req.csrfToken.value))
             || req.movieId.None? || !IsNumeric(req.movieId.value)
             || f.lookup
             || TruncateToInt(NumericValue(req.movieId.value).value) !in t.movies
    ensures WatchlistSpec(st, t, nextId, unique, req, f).2 == t
    ensures WatchlistSpec(st, t, nextId, unique, req, f).1.errorMessage.Some?
  {
  }

  /** An absent action counts as 'add'. */
  lemma MissingActionAdds(st: SessionState, t: Tables, nextId: int, unique: bool, req: WatchRequest, f: WatchFaults)
    ensures WatchlistSpec(st, t, nextId, unique, req.(action := None), f)
         == WatchlistSpec(st, t, nextId, unique, req.(action := Some("add")), f)
  {
  }

  /** Any action other than exactly 'add' (a different case included) removes the pair. */
  lemma OtherActionRemoves(st: SessionState, t: Tables, nextId: int, unique: bool, req: WatchRequest, f: WatchFaults)
    requires st.userId.Some? && req.movieId.Some? && IsNumeric(req.movieId.value)
    requires req.csrfToken.None? || VerifyCsrfToken(st, req.csrfToken.value)
    requires !f.lookup && !f.delete && TruncateToInt(NumericValue(req.movieId.value).value) in t.movies
    requires req.action.Some? && req.action.value != "add"
    ensures var r := WatchlistSpec(st, t, nextId, unique, req, f);
      && r.1 == st.(successMessage := Some(RemovedMessage))
      && r.2 == t.(watchlist := WithoutPair(t.watchlist, st.userId.value, TruncateToInt(NumericValue(req.movieId.value).value)))
  {
  }

  /** With the UNIQUE KEY, adding the same movie twice leaves exactly one row for the pair and the
      second request reports that the movie is already listed. */
  lemma AddTwiceKeepsOneRow(st: SessionState, t: Tables, nextId: int, req: WatchRequest)
    requires st.userId.Some? && req.action == Some("add")
    requires req.csrfToken.None? || VerifyCsrfToken(st, req.csrfToken.value)
    requires req.movieId.Some? && IsNumeric(req.movieId.value)
    requires var m := TruncateToInt(NumericValue(req.movieId.value).value);
      m in t.movies && st.userId.value in UserIds(t.users) && !HasPair(t.watchlist, st.userId.value, m)
    ensures var m := TruncateToInt(NumericValue(req.movieId.value).value);
            var f := WatchFaults(false, false, false);
            var first := WatchlistSpec(st, t, nextId, true, req, f);
            var second := WatchlistSpec(first.1, first.2, nextId + 1, true, req, f);
      && first.1.successMessage == Some(AddedMessage)
      && second.1.infoMessage == Some(AlreadyMessage)
      && PairCount(second.2.watchlist, st.userId.value, m) == 1
  {
    var m := TruncateToInt(NumericValue(req.movieId.value).value);
    var u := st.userId.value;
    var e := WatchEntry(nextId, u, m);
    PairCountAppend(t.watchlist, e, u, m);
    assert HasPair(t.watchlist + [e], u, m) by { assert (t.watchlist + [e])[|t.watchlist|] == e; }
  }

  /** As config.php creates the table, without the UNIQUE KEY: the same two requests leave two
      rows for the pair and both report success. */
  lemma AddTwiceAsWrittenDuplicates(st: SessionState, t: Tables, nextId: int, req: WatchRequest)
    requires st.userId.Some? && req.action == Some("add")
    requires req.csrfToken.None? || VerifyCsrfToken(st, req.csrfToken.value)
    requires req.movieId.Some? && IsNumeric(req.movieId.value)
    requires var m := TruncateToInt(NumericValue(req.movieId.value).value);
      m in t.movies && st.userId.value in UserIds(t.users) && !HasPair(t.watchlist, st.userId.value, m)
    ensures var m := TruncateToInt(NumericValue(req.movieId.value).value);
            var f := WatchFaults(false, false, false);
            var first := WatchlistSpec(st, t, nextId, false, req, f);
            var second := WatchlistSpec(first.1, first.2, nextId + 1, false, req, f);
      && second.1.successMessage == Some(AddedMessage)
      && PairCount(second.2.watchlist, st.userId.value, m) == 2
  {
    var m := TruncateToInt(NumericValue(req.movieId.value).value);
    var u := st.userId.value;
    var w1 := t.watchlist + [WatchEntry(nextId, u, m)];
    PairCountAppend(t.watchlist, WatchEntry(nextId, u, m), u, m);
    PairCountAppend(w1, WatchEntry(nextId + 1, u, m), u, m);
  }

  /** With the UNIQUE KEY no request ever creates a second row for a pair. */
  lemma AddKeepsPairsUnique(st: SessionState, t: Tables, nextId: int, req: WatchRequest, f: WatchFaults)
    requires PairsUnique(t.watchlist)
    ensures PairsUnique(WatchlistSpec(st, t, nextId, true, req, f).2.watchlist)
  {
    var r := WatchlistSpec(st, t, nextId, true, req, f);
    if r.2.watchlist != t.watchlist {
      if st.userId.Some? && req.movieId.Some? && IsNumeric(req.movieId.value) && ActionOf(req) == "add" {
        var u := st.userId.value;
        var m := TruncateToInt(NumericValue(req.movieId.value).value);
        if r.2.watchlist == t.watchlist + [WatchEntry(nextId, u, m)] {
          var w := r.2.watchlist;
          forall i, j | 0 <= i < j < |w|
            ensures !(w[i].userId == w[j].userId && w[i].movieId == w[j].movieId)
          {
            if j == |w| - 1 { assert w[i] in t.watchlist; }
          }
        }
      } else if st.userId.Some? && req.movieId.Some? && IsNumeric(req.movieId.value) {
        WithoutPairKeepsUnique(t.watchlist, st.userId.value, TruncateToInt(NumericValue(req.movieId.value).value));
      }
    }
  }

  /** Removal deletes exactly this user's rows for this movie: afterwards the pair is absent and
      every other row is still there. Removing a pair that is absent changes nothing and still
      reports success. */
  lemma RemoveExactlyThePair(st: SessionState, t: Tables, movieIdParam: Option<string>)
    requires st.userId.Some? && movieIdParam.Some? && IsNumeric(movieIdParam.value)
    ensures var m := TruncateToInt(NumericValue(movieIdParam.value).value);
            var r := RemoveSpec(st, t, movieIdParam, false);
      && !HasPair(r.2.watchlist, st.userId.value, m)
      && (forall e :: e in t.watchlist && !(e.userId == st.userId.value && e.movieId == m) ==> e in r.2.watchlist)
      && r.1.successMessage == Some(RemovedMessage)
      && (!HasPair(t.watchlist, st.userId.value, m) ==> r.2 == t)
  {
    var m := TruncateToInt(NumericValue(movieIdParam.value).value);
    if !HasPair(t.watchlist, st.userId.value, m) {
      WithoutPairAbsent(t.watchlist, st.userId.value, m);
    }
  }

  /** Deleting a pair no row holds leaves the rows as they are. */
  lemma {:induction false} WithoutPairAbsent(rows: seq<WatchEntry>, userId: int, movieId: int)
    requires !HasPair(rows, userId, movieId)
    ensures WithoutPair(rows, userId, movieId) == rows
  {
    if rows != [] {
      var init := rows[..|rows| - 1];
      assert !HasPair(init, userId, movieId) by {
        forall x | x in init ensures !(x.userId == userId && x.movieId == movieId) {
          assert x in rows;
        }
      }
      WithoutPairAbsent(init, userId, movieId);
      assert rows[|rows| - 1] in rows;
      assert rows == init + [rows[|rows| - 1]];
    }
  }

  /** Adding then removing the same movie leaves the pair absent, and both pages agree: the
      removal through either of them leaves the same table. */
  lemma AddThenRemove(st: SessionState, t: Tables, nextId: int, unique: bool, req: WatchRequest)
    requires st.userId.Some? && req.movieId.Some? && IsNumeric(req.movieId.value)
    requires req.csrfToken.None? || VerifyCsrfToken(st, req.csrfToken.value)
    requires TruncateToInt(NumericValue(req.movieId.value).value) in t.movies
    ensures var m := TruncateToInt(NumericValue(req.movieId.value).value);
            var f := WatchFaults(false, false, false);
            var added := WatchlistSpec(st, t, nextId, unique, req.(action := Some("add")), f);
            var removed := WatchlistSpec(added.1, added.2, nextId + 1, unique, req.(action := Some("remove")), f);
      && !HasPair(removed.2.watchlist, st.userId.value, m)
      && removed.2 == RemoveSpec(added.1, added.2, req.movieId, false).2
  {
  }
}
