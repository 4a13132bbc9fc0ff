/** admin/dashboard.php: the admin landing page with its delete and toggle actions, the featured
    selection and the poster fallback chain of its movie table. */
module Dashboard {
  import opened Php
  import opened Store
  import opened Sessions
  import opened Config

  /** The action and id query parameters. */
  datatype DashRequest = DashRequest(action: Option<string>, idParam: Option<string>)

  /** The statements that may fail, and the text the PDOException carries. */
  datatype DashFaults = DashFaults(
    adminFetch: bool, count: bool, delete: bool, statusFetch: bool, update: bool, message: string)

  datatype DashOutcome =
    | ToLogin                   // ../login.php?redirect=admin/dashboard.php
    | ToIndex                   // ../index.php: the session user is not an admin row
    | Died(message: string)     // die() after a failed admin lookup
    | Page(message: string, alert: string)

  /** SELECT * FROM users WHERE id = ? AND role_id = 1 finds a row. */
  predicate AdminRow(users: seq<User>, userId: int) {
    exists u :: u in users && u.id == userId && u.roleId == 1
  }

  /** Whether a watchlist row references the movie (the foreign key a DELETE must respect). */
  predicate WatchRefs(rows: seq<WatchEntry>, movieId: int) {
    exists e :: e in rows && e.movieId == movieId
  }

  function StatusText(s: MovieStatus): string {
    if s == Active then "active" else "inactive"
  }

  /** The toggle: 'inactive' when the current status is 'active', 'active' for anything else,
      including no row at all (fetchColumn() gives false). */
  function ToggledStatus(current: Option<MovieStatus>): (s: MovieStatus)
    ensures s == Inactive <==> current == Some(Active)
  {
    if current == Some(Active) then Inactive else Active
  }

  function CurrentStatus(movies: map<int, Movie>, id: int): Option<MovieStatus> {
    if id in movies then Some(movies[id].status) else None
  }

  function WithStatusOf(movies: map<int, Movie>, id: int, s: MovieStatus): (r: map<int, Movie>)
    ensures r.Keys == movies.Keys
    ensures forall k :: k in movies && k != id ==> r[k] == movies[k]
  {
    if id in movies then movies[id := movies[id].(status := s)] else movies
  }

  function RefusedMessage(id: int, usage: nat): string {
    "Cannot delete movie ID " + IntToString(id) + " because it's used in " + NatToString(usage)
    + " orders. Consider disabling it instead."
  }

  function DeletedMessage(id: int): string {
    "Movie ID " + IntToString(id) + " deleted successfully."
  }

  function ToggledMessage(id: int, s: MovieStatus): string {
    "Movie ID " + IntToString(id) + " status changed to " + StatusText(s) + "."
  }

  /** The switch over the action: message, alert class and the tables after it. */
  function ActionSpec(t: Tables, action: string, id: int, f: DashFaults): (string, string, Tables) {
    var failed := ("Error: " + f.message, "danger", t);
    if action == "delete" then
      if f.count then failed
      else
        var usage := UsageCount(t.orderItems, id);
        if usage > 0 then (RefusedMessage(id, usage), "danger", t)
        else if f.delete || WatchRefs(t.watchlist, id) then failed
        else (DeletedMessage(id), "success", t.(movies := t.movies - {id}))
    else if action == "toggle" then
      if f.statusFetch then failed
      else
        var s := ToggledStatus(CurrentStatus(t.movies, id));
        if f.update then failed
        else (ToggledMessage(id, s), "success", t.(movies := WithStatusOf(t.movies, id, s)))
    else ("", "", t)
  }

  /** The whole request as a function of the session and the tables. */
  function DashboardSpec(st: SessionState, t: Tables, req: DashRequest, f: DashFaults): (DashOutcome, Tables) {
    if !IsAdmin(st) then (ToLogin, t)
    else if f.adminFetch then (Died("Error fetching admin data: " + f.message), t)
    else if !AdminRow(t.users, st.userId.value) then (ToIndex, t)
    else if req.action.None? || req.idParam.None? then (Page("", ""), t)
    else
      var (msg, alert, t2) := ActionSpec(t, req.action.value, IntCast(req.idParam.value), f);
      (Page(msg, alert), t2)
  }

  /** The delete and toggle branches against the database. */
  method RunAction(db: Database, action: string, id: int, f: DashFaults) returns (msg: string, alert: string)
    requires db.Valid()
    modifies db
    ensures db.Valid()
    ensures (msg, alert, db.Snapshot()) == ActionSpec(old(db.Snapshot()), action, id, f)
  {
    msg, alert := "", "";
    if action == "delete" {
      if f.count {
        return "Error: " + f.message, "danger";
      }
      var usage := UsageCount(db.orderItems, id);
      if usage > 0 {
        return RefusedMessage(id, usage), "danger";
      }
      var err := db.DeleteMovie(id, f.delete);
      if err.Some? {
        return "Error: " + f.message, "danger";
      }
      msg, alert := DeletedMessage(id), "success";
    } else if action == "toggle" {
      if f.statusFetch {
        return "Error: " + f.message, "danger";
      }
      var s := ToggledStatus(CurrentStatus(db.movies, id));
      var err := db.SetMovieStatus(id, s, f.update);
      if err.Some? {
        return "Error: " + f.message, "danger";
      }
      msg, alert := ToggledMessage(id, s), "success";
    }
  }

  /** One request to dashboard.php, up to the read-only listing. */
  method HandleDashboard(db: Database, session: Session, req: DashRequest, f: DashFaults) returns (out: DashOutcome)
    requires db.Valid()
    modifies db
    ensures db.Valid()
    ensures (out, db.Snapshot()) == DashboardSpec(session.State(), old(db.Snapshot()), req, f)
  {
    if !IsAdmin(session.State()) {
      return ToLogin;
    }
    if f.adminFetch {
      return Died("Error fetching admin data: " + f.message);
    }
    if !AdminRow(db.users, session.userId.value) {
      return ToIndex;
    }
    if req.action.None? || req.idParam.None? {
      return Page("", "");
    }
    var msg, alert := RunAction(db, req.action.value, IntCast(req.idParam.value), f);
    out := Page(msg, alert);
  }

  /** The delete guard: a movie with order items is never deleted, and the refusal names the
      number of items; without items and without failures exactly that movie row goes. */
  lemma DeleteGuard(t: Tables, id: int, f: DashFaults)
    requires !f.count
    ensures var (msg, alert, t2) := ActionSpec(t, "delete", id, f);
      && (UsageCount(t.orderItems, id) > 0 ==> t2 == t && msg == RefusedMessage(id, UsageCount(t.orderItems, id)) && alert == "danger")
      && (t2 != t ==> id in t.movies && t2 == t.(movies := t.movies - {id}))
      && (UsageCount(t.orderItems, id) == 0 && !f.delete && !WatchRefs(t.watchlist, id) ==> t2.movies == t.movies - {id} && alert == "success")
  {
  }

  /** Toggling twice with no failure gives every existing row its status back and changes
      nothing else; from 'active' the first toggle gives 'inactive' and the second 'active'. */
  lemma ToggleTwiceRestores(t: Tables, id: int, f: DashFaults)
    requires !f.statusFetch && !f.update && id in t.movies
    ensures var (_, _, t1) := ActionSpec(t, "toggle", id, f);
            var (_, _, t2) := ActionSpec(t1, "toggle", id, f);
      && t2 == t
      && (t.movies[id].status == Active ==> t1.movies[id].status == Inactive)
  {
    var (_, _, t1) := ActionSpec(t, "toggle", id, f);
    var (_, _, t2) := ActionSpec(t1, "toggle", id, f);
    assert t1.movies[id].status != t.movies[id].status;
    assert t2.movies == t.movies;
  }

  /** Toggling an id with no row changes nothing but reports the status as changed to 'active'. */
  lemma ToggleMissingReportsActive(t: Tables, id: int, f: DashFaults)
    requires !f.statusFetch && !f.update && id !in t.movies
    ensures ActionSpec(t, "toggle", id, f) == (ToggledMessage(id, Active), "success", t)
  {
  }

  /** The switch has no default: any other action writes nothing and shows no message. */
  lemma UnknownActionIsNoOp(t: Tables, action: string, id: int, f: DashFaults)
    requires action != "delete" && action != "toggle"
    ensures ActionSpec(t, action, id, f) == ("", "", t)
  {
  }

  /** Only an admin with an admin row can change anything, and only through an action. */
  lemma OnlyAdminActionsWrite(st: SessionState, t: Tables, req: DashRequest, f: DashFaults)
    ensures var (out, t2) := DashboardSpec(st, t, req, f);
      t2 != t ==> (&& IsAdmin(st) && AdminRow(t.users, st.userId.value) && out.Page?
                   && req.action.Some? && req.idParam.Some?
                   && (req.action.value == "delete" || req.action.value == "toggle"))
  {
  }

  // ---------------------------------------------------------------- listing

  /** The keys the poster chain looks at in a listed row; the movies table has only poster_url,
      so the other three are unset for every row it returns. */
  datatype PosterFields = PosterFields(posterUrl: Option<string>, thumbnail: Option<string>,
                                       image: Option<string>, poster: Option<string>)

  const Placeholder := "assets/images/placeholder.jpg"

  function FieldsOf(m: Movie): PosterFields {
    PosterFields(Some(m.posterUrl), None, None, None)
  }

  /** The first non-empty of poster_url, thumbnail, image and poster, else the placeholder. */
  function PosterChoice(p: PosterFields): (r: string)
    ensures !Empty(Some(r))
    ensures r == Placeholder || Some(r) in [p.posterUrl, p.thumbnail, p.image, p.poster]
  {
    if !Empty(p.posterUrl) then p.posterUrl.value
    else if !Empty(p.thumbnail) then p.thumbnail.value
    else if !Empty(p.image) then p.image.value
    else if !Empty(p.poster) then p.poster.value
    else Placeholder
  }

  /** The order of the chain: an earlier non-empty key always wins over the later ones. */
  lemma PosterPrecedence(p: PosterFields, q: PosterFields)
    requires !Empty(p.posterUrl) && q.posterUrl == p.posterUrl
    ensures PosterChoice(p) == PosterChoice(q) == p.posterUrl.value
  {
  }

  /** For a row of the movies table the chain reduces to: poster_url when non-empty, else the
      placeholder. */
  lemma StoredPoster(m: Movie)
    ensures PosterChoice(FieldsOf(m)) == if Empty(Some(m.posterUrl)) then Placeholder else m.posterUrl
  {
  }

  /** array_slice($movies, 0, 10): the rows the table shows. */
  function TableRows(listing: seq<Movie>): (r: seq<Movie>)
    ensures |r| <= 10 && |r| <= |listing| && r == listing[..|r|]
    ensures |r| == 10 || r == listing
  {
    if |listing| <= 10 then listing else listing[..10]
  }

  /** array_filter on status = 'active', order kept. */
  function ActiveOf(listing: seq<Movie>): (r: seq<Movie>)
    ensures |r| <= |listing|
    ensures forall m :: m in r <==> m in listing && m.status == Active
  {
    if listing == [] then []
    else
      var rest := ActiveOf(listing[..|listing| - 1]);
      var m := listing[|listing| - 1];
      assert listing == listing[..|listing| - 1] + [m];
      if m.status == Active then rest + [m] else rest
  }

  /** The featured grid: the first four active movies of the listing, whatever their order counts. */
  function Featured(listing: seq<Movie>): (r: seq<Movie>)
    ensures |r| <= 4
    ensures forall m :: m in r ==> m in listing && m.status == Active
    ensures |r| < 4 ==> forall m :: m in listing && m.status == Active ==> m in r
    ensures |r| <= |ActiveOf(listing)| && r == ActiveOf(listing)[..|r|]
  {
    var a := ActiveOf(listing);
    if |a| <= 4 then
      assert a[..|a|] == a;
      a
    else
      a[..4]
  }

  /** Filtering a listing one movie longer adds that movie when it is active. */
  lemma ActiveOfSnoc(s: seq<Movie>, m: Movie)
    ensures ActiveOf(s + [m]) == ActiveOf(s) + (if m.status == Active then [m] else [])
  {
    assert (s + [m])[..|s + [m]| - 1] == s;
  }

  lemma {:induction false} ActiveOfAppend(a: seq<Movie>, b: seq<Movie>)
    ensures ActiveOf(a + b) == ActiveOf(a) + ActiveOf(b)
    decreases |b|
  {
    if b == [] {
      assert a + b == a;
    } else {
      var b', m := b[..|b| - 1], b[|b| - 1];
      var t := if m.status == Active then [m] else [];
      assert b == b' + [m];
      calc {
        ActiveOf(a + b);
        { assert a + b == (a + b') + [m]; }
        ActiveOf((a + b') + [m]);
        { ActiveOfSnoc(a + b', m); }
        ActiveOf(a + b') + t;
        { ActiveOfAppend(a, b'); }
        (ActiveOf(a) + ActiveOf(b')) + t;
        ActiveOf(a) + (ActiveOf(b') + t);
        { ActiveOfSnoc(b', m); }
        ActiveOf(a) + ActiveOf(b);
      }
    }
  }

  lemma {:induction false} ActiveOfAllActive(s: seq<Movie>)
    requires forall i :: 0 <= i < |s| ==> s[i].status == Active
    ensures ActiveOf(s) == s
  {
    if s != [] {
      var init := s[..|s| - 1];
      ActiveOfAllActive(init);
      assert s == init + [s[|s| - 1]];
      ActiveOfSnoc(init, s[|s| - 1]);
    }
  }

  /** When the listing starts with four active movies, those four are featured, whatever follows. */
  lemma FeaturedFromTop(listing: seq<Movie>)
    requires |listing| >= 4 && forall i :: 0 <= i < 4 ==> listing[i].status == Active
    ensures Featured(listing) == listing[..4]
  {
    ActiveOfAppend(listing[..4], listing[4..]);
    assert listing == listing[..4] + listing[4..];
    ActiveOfAllActive(listing[..4]);
  }
}
