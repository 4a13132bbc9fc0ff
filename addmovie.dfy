/** admin/add_movie.php: the admin form that validates a new movie, stores its poster, inserts the
    row and links its categories, then redirects to the edit page. */
module AddMovie {
  import opened Php
  import opened Store
  import opened Sessions
  import opened Config
  import opened MovieForm

  /** One request: the method, whether the add_movie button was posted, the form, the uploaded
      file, the year date('Y') gives, the time() value and the NOW() value the row gets. */
  datatype AddRequest = AddRequest(
    isPost: bool, addMovie: bool, form: MovieFormInput, upload: Option<Upload>,
    currentYear: int, time: nat, now: int)

  /** What the outside world decides: whether move_uploaded_file succeeds, whether the movie
      INSERT fails, which category INSERT fails first, and the exception text a failure carries. */
  datatype AddFaults = AddFaults(moved: bool, insert: bool, linkFailAt: Option<nat>, message: string)

  datatype AddOutcome =
    | ToLogin                               // ../login.php?redirect=admin/add_movie.php
    | ShowForm(message: string, alert: string)
    | ToEdit(movieId: int)                  // edit_movie.php?id=<id>&success=added

  const ErrorPrefix := "Error: "

  /** The row add_movie.php inserts; `id` is replaced by the table's next id. */
  function NewRow(id: int, v: MovieValues, poster: string, now: int): Movie {
    Movie(id, v.title, v.slug, v.description, v.price, v.releaseYear, v.duration, v.rating,
          poster, v.trailerUrl, v.status, now)
  }

  /** The form shown after a caught exception. */
  function Failed(message: string): AddOutcome {
    ShowForm(ErrorPrefix + message, "danger")
  }

  /** The whole request as a function of the session, the tables and the next movie id. */
  function AddMovieSpec(st: SessionState, t: Tables, nextId: int, req: AddRequest, f: AddFaults): (AddOutcome, Tables) {
    if !IsAdmin(st) then (ToLogin, t)
    else if !(req.isPost && req.addMovie) then (ShowForm("", ""), t)
    else SubmitSpec(t, nextId, req, f)
  }

  /** A posted form from an admin: validation, then the poster, then the writes. */
  function SubmitSpec(t: Tables, nextId: int, req: AddRequest, f: AddFaults): (AddOutcome, Tables) {
    match Validate(req.form, req.currentYear)
    case Invalid(m) => (Failed(m), t)
    case Valid(v) =>
      match PosterForAdd(req.upload, req.form.posterUrl, v.slug, req.time, f.moved)
      case Invalid(m) => (Failed(m), t)
      case Valid(poster) => StoreSpec(t, nextId, v, poster, req, f)
  }

  /** The writes of a form that passed validation and the poster checks: the movie row, then one
      link per posted category until the first failed insert. */
  function StoreSpec(t: Tables, nextId: int, v: MovieValues, poster: string, req: AddRequest, f: AddFaults): (AddOutcome, Tables) {
    if f.insert then (Failed(f.message), t)
    else
      var cats := PostedCategories(req.form);
      var k := LinkedCount(|cats|, f.linkFailAt);
      var t2 := t.(movies := t.movies[nextId := NewRow(nextId, v, poster, req.now)],
                   movieCategories := t.movieCategories + Links(nextId, cats[..k]));
      if k < |cats| then (Failed(f.message), t2) else (ToEdit(nextId), t2)
  }

  /** One request to add_movie.php. */
  method HandleAddMovie(db: Database, session: Session, req: AddRequest, f: AddFaults) returns (out: AddOutcome)
    requires db.Valid()
    modifies db
    ensures db.Valid()
    ensures (out, db.Snapshot()) == AddMovieSpec(session.State(), old(db.Snapshot()), old(db.nextMovieId), req, f)
  {
    if !IsAdmin(session.State()) {
      return ToLogin;
    }
    if !(req.isPost && req.addMovie) {
      return ShowForm("", "");
    }
    out := SubmitForm(db, req, f);
  }

  /** Checks a posted form and stores it when it passes. */
  method SubmitForm(db: Database, req: AddRequest, f: AddFaults) returns (out: AddOutcome)
    requires db.Valid()
    modifies db
    ensures db.Valid()
    ensures (out, db.Snapshot()) == SubmitSpec(old(db.Snapshot()), old(db.nextMovieId), req, f)
  {
    var missing := MissingFields(req.form);
    if missing != [] {
      return Failed("Missing required fields: " + Join(missing));
    }
    var checked := Validate(req.form, req.currentYear);
    if checked.Invalid? {
      return Failed(checked.message);
    }
    var v := checked.value;
    var poster := PosterForAdd(req.upload, req.form.posterUrl, v.slug, req.time, f.moved);
    if poster.Invalid? {
      return Failed(poster.message);
    }
    out := StoreMovie(db, v, poster.value, req, f);
  }

  /** Inserts the movie row and its category links; a failed insert leaves the page showing the
      database's message. */
  method StoreMovie(db: Database, v: MovieValues, poster: string, req: AddRequest, f: AddFaults) returns (out: AddOutcome)
    requires db.Valid()
    modifies db
    ensures db.Valid()
    ensures (out, db.Snapshot()) == StoreSpec(old(db.Snapshot()), old(db.nextMovieId), v, poster, req, f)
  {
    var err, movieId := db.InsertMovie(NewRow(0, v, poster, req.now), f.insert);
    if err.Some? {
      return Failed(f.message);
    }
    var failed := InsertCategories(db, movieId, PostedCategories(req.form), f.linkFailAt);
    if failed {
      return Failed(f.message);
    }
    out := ToEdit(movieId);
  }

  /** Only an admin session reaches the form; anyone else is sent to the login page and nothing
      is written. */
  lemma OnlyAdminsAdd(st: SessionState, t: Tables, nextId: int, req: AddRequest, f: AddFaults)
    ensures AddMovieSpec(st, t, nextId, req, f).1 != t ==> IsAdmin(st) && req.isPost
    ensures !IsAdmin(st) <==> AddMovieSpec(st, t, nextId, req, f).0 == ToLogin
  {
  }

  /** A form that fails validation or the poster checks writes nothing and shows "Error: " with
      the first failure's text. */
  lemma InvalidFormWritesNothing(st: SessionState, t: Tables, nextId: int, req: AddRequest, f: AddFaults)
    requires IsAdmin(st) && req.isPost && req.addMovie
    requires Validate(req.form, req.currentYear).Invalid?
    ensures AddMovieSpec(st, t, nextId, req, f)
         == (ShowForm(ErrorPrefix + Validate(req.form, req.currentYear).message, "danger"), t)
  {
  }

  /** The redirect to the edit page happens exactly when every step succeeds. */
  lemma AddSucceedsIff(st: SessionState, t: Tables, nextId: int, req: AddRequest, f: AddFaults)
    ensures AddMovieSpec(st, t, nextId, req, f).0.ToEdit?
        <==> IsAdmin(st) && req.isPost && req.addMovie && Validate(req.form, req.currentYear).Valid?
             && PosterForAdd(req.upload, req.form.posterUrl, Validate(req.form, req.currentYear).value.slug,
                             req.time, f.moved).Valid?
             && !f.insert && LinkedCount(|PostedCategories(req.form)|, f.linkFailAt) == |PostedCategories(req.form)|
  {
  }

  /** On the redirect to the edit page the tables hold exactly one new row, under the next id, and
      one link per posted category. */
  lemma RedirectTables(st: SessionState, t: Tables, nextId: int, req: AddRequest, f: AddFaults)
    requires AddMovieSpec(st, t, nextId, req, f).0.ToEdit?
    ensures IsAdmin(st) && req.isPost && req.addMovie && Validate(req.form, req.currentYear).Valid? && !f.insert
    ensures var v := Validate(req.form, req.currentYear).value;
      && PosterForAdd(req.upload, req.form.posterUrl, v.slug, req.time, f.moved).Valid?
      && var poster := PosterForAdd(req.upload, req.form.posterUrl, v.slug, req.time, f.moved).value;
      && AddMovieSpec(st, t, nextId, req, f)
         == (ToEdit(nextId), t.(movies := t.movies[nextId := NewRow(nextId, v, poster, req.now)],
                                movieCategories := t.movieCategories + Links(nextId, PostedCategories(req.form))))
  {
    var cats := PostedCategories(req.form);
    assert cats[..|cats|] == cats;
  }

  /** After the redirect the new row holds the validated values (a year within
      [1900, currentYear + 5], a rating within 0..100 tenths, the slug of the trimmed title) under
      the next id, no other movie changes. */
  lemma AddedMovieStored(st: SessionState, t: Tables, nextId: int, req: AddRequest, f: AddFaults)
    requires forall k :: k in t.movies ==> k < nextId
    requires AddMovieSpec(st, t, nextId, req, f).0.ToEdit?
    ensures var (out, t2) := AddMovieSpec(st, t, nextId, req, f);
      && out.movieId == nextId && nextId !in t.movies
      && nextId in t2.movies && t2.movies == t.movies[nextId := t2.movies[nextId]]
      && var m := t2.movies[nextId];
      && 1900 <= m.releaseYear <= req.currentYear + 5 && 0 <= m.rating <= 100
      && m.price >= 0 && m.duration >= 0
      && req.form.title.Some? && m.title == Trim(req.form.title.value) && m.slug == Slug(m.title)
  {
    RedirectTables(st, t, nextId, req, f);
  }

  /** The added movie's categories are exactly the posted ids, added to whatever stale links
      carried its id. */
  lemma AddedMovieCategories(st: SessionState, t: Tables, nextId: int, req: AddRequest, f: AddFaults)
    requires AddMovieSpec(st, t, nextId, req, f).0.ToEdit?
    ensures var (out, t2) := AddMovieSpec(st, t, nextId, req, f);
      CategoriesOf(t2.movieCategories, nextId)
      == CategoriesOf(t.movieCategories, nextId) + set c | c in PostedCategories(req.form)
  {
    RedirectTables(st, t, nextId, req, f);
    CategoriesOfAppend(t.movieCategories, nextId, PostedCategories(req.form), nextId);
  }

  /** No transaction: when a category INSERT fails, the movie row and the links inserted before
      it stay, although the page reports an error. */
  lemma FailedLinkKeepsMovie(st: SessionState, t: Tables, nextId: int, req: AddRequest, f: AddFaults, k: nat)
    requires IsAdmin(st) && req.isPost && req.addMovie
    requires Validate(req.form, req.currentYear).Valid?
    requires PosterForAdd(req.upload, req.form.posterUrl, Validate(req.form, req.currentYear).value.slug,
                          req.time, f.moved).Valid?
    requires !f.insert && f.linkFailAt == Some(k) && k < |PostedCategories(req.form)|
    ensures var (out, t2) := AddMovieSpec(st, t, nextId, req, f);
      && out == ShowForm(ErrorPrefix + f.message, "danger")
      && nextId in t2.movies
      && t2.movieCategories == t.movieCategories + Links(nextId, PostedCategories(req.form)[..k])
  {
  }
}
