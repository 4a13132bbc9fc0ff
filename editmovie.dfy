/** admin/edit_movie.php: the admin page that loads one movie by id and, on a posted form,
    validates it, replaces the poster, updates the row and replaces its category links. */
module EditMovie {
  import opened Php
  import opened Store
  import opened Sessions
  import opened Config
  import opened MovieForm

  /** One request: the id and success query parameters, the method, whether the update_movie
      button was posted, the form, the uploaded file, date('Y') and time(). */
  datatype EditRequest = EditRequest(
    idParam: Option<string>, success: Option<string>, isPost: bool, updateMovie: bool,
    form: MovieFormInput, upload: Option<Upload>, currentYear: int, time: nat)

  /** What the outside world decides: whether the SELECT of the movie fails, whether
      move_uploaded_file succeeds, whether the UPDATE or the DELETE of the links fails, which
      link INSERT fails first, and the exception text a failure carries. */
  datatype EditFaults = EditFaults(
    fetch: bool, moved: bool, update: bool, deleteLinks: bool, linkFailAt: Option<nat>, message: string)

  /** The page shows a message with its alert class, the movie as last read, the ids of its
      categories, and names the old poster file it unlinked, if any. */
  datatype EditPage = EditPage(message: string, alert: string, movie: Movie, selected: set<int>, deleted: Option<string>)

  datatype EditOutcome =
    | ToLogin                   // ../login.php?redirect=admin/edit_movie.php
    | ToInvalidId               // movies.php?error=invalid_id
    | ToNotFound                // movies.php?error=not_found
    | Died(message: string)     // die() after a failed SELECT
    | Show(page: EditPage)

  const AddedMessage := "Movie added successfully! You can now edit additional details."
  const FetchErrorPrefix := "Error fetching movie data: "

  /** The message the page starts with, as the code leaves it: the notice for ?success=added is
      set, then the form-handling block resets the message and its alert class to '' before
      anything is shown, whatever `success` holds. */
  function InitialMessageAsWritten(success: Option<string>): (string, string) {
    ("", "")
  }

  /** The message the page evidently means to start with: the notice after a redirect from the
      add page, nothing otherwise. */
  function InitialMessage(success: Option<string>): (r: (string, string))
    ensures r.0 != "" <==> success == Some("added")
  {
    if success == Some("added") then (AddedMessage, "success") else ("", "")
  }

  /** The notice after an add is lost as written, and shown by the intended version. */
  lemma AddedNoticeLost()
    ensures InitialMessageAsWritten(Some("added")).0 == ""
    ensures InitialMessage(Some("added")).0 == AddedMessage
  {
  }

  function SuccessMessage(title: string): string {
    "Movie \"" + title + "\" has been updated successfully!"
  }

  /** The row as the UPDATE leaves it: every column from the form, created_at kept. */
  function UpdatedRow(id: int, old_: Movie, v: MovieValues, poster: string): Movie {
    Movie(id, v.title, v.slug, v.description, v.price, v.releaseYear, v.duration, v.rating,
          poster, v.trailerUrl, v.status, old_.createdAt)
  }

  /** The old poster file unlinked once the new one is moved into place. */
  function DeletedPoster(current: string, upload: Option<Upload>, moved: bool): (r: Option<string>)
    ensures r.Some? ==> Uploaded(upload) && moved && IsPrefix(PosterDir, current)
  {
    if Uploaded(upload) && moved && DeletesOldPoster(current) then Some("../" + current) else None
  }

  /** The posted form applied to the loaded movie `m` with id `id`: the page and the tables. */
  function UpdateSpec(t: Tables, id: int, m: Movie, req: EditRequest, f: EditFaults): (EditPage, Tables) {
    var selected := CategoriesOf(t.movieCategories, id);
    match Validate(req.form, req.currentYear)
    case Invalid(msg) => (EditPage("Error: " + msg, "danger", m, selected, None), t)
    case Valid(v) =>
      var deleted := DeletedPoster(m.posterUrl, req.upload, f.moved);
      match PosterForEdit(m.posterUrl, req.upload, req.form.posterUrl, v.slug, req.time, f.moved)
      case Invalid(msg) => (EditPage("Error: " + msg, "danger", m, selected, None), t)
      case Valid(poster) => WriteSpec(t, id, m, v, poster, PostedCategories(req.form), deleted, f)
  }

  /** The writes of a form that passed validation and the poster step: the UPDATE, the DELETE of
      the movie's links, then one INSERT per posted category until the first failure. */
  function WriteSpec(t: Tables, id: int, m: Movie, v: MovieValues, poster: string, cats: seq<int>,
                     deleted: Option<string>, f: EditFaults): (EditPage, Tables)
  {
    var fail := EditPage("Error: " + f.message, "danger", m, CategoriesOf(t.movieCategories, id), deleted);
    if f.update then (fail, t)
    else
      var t1 := t.(movies := t.movies[id := UpdatedRow(id, m, v, poster)]);
      if f.deleteLinks then (fail, t1)
      else
        var k := LinkedCount(|cats|, f.linkFailAt);
        var t2 := t1.(movieCategories := LinksWithout(t.movieCategories, id) + Links(id, cats[..k]));
        if k < |cats| then (fail, t2)
        else (EditPage(SuccessMessage(v.title), "success", t2.movies[id], CategoriesOf(t2.movieCategories, id), deleted), t2)
  }

  /** The whole request as a function of the session and the tables. */
  function EditMovieSpec(st: SessionState, t: Tables, req: EditRequest, f: EditFaults): (EditOutcome, Tables) {
    if !IsAdmin(st) then (ToLogin, t)
    else if req.idParam.None? || !IsNumeric(req.idParam.value) then (ToInvalidId, t)
    else
      var id := TruncateToInt(NumericValue(req.idParam.value).value);
      if f.fetch then (Died(FetchErrorPrefix + f.message), t)
      else if id !in t.movies then (ToNotFound, t)
      else if req.isPost && req.updateMovie then
        var (page, t2) := UpdateSpec(t, id, t.movies[id], req, f);
        (Show(page), t2)
      else
        var (msg, alert) := InitialMessage(req.success);
        (Show(EditPage(msg, alert, t.movies[id], CategoriesOf(t.movieCategories, id), None)), t)
  }

  /** Everything after the form passes validation and the poster step: UPDATE, DELETE of the
      links, one INSERT per posted category, then the refreshed row and categories. */
  method WriteMovie(db: Database, id: int, m: Movie, v: MovieValues, poster: string, cats: seq<int>,
                    deleted: Option<string>, f: EditFaults) returns (page: EditPage)
    requires db.Valid() && id in db.movies
    modifies db
    ensures db.Valid()
    ensures (page, db.Snapshot()) == WriteSpec(old(db.Snapshot()), id, m, v, poster, cats, deleted, f)
  {
    var selected := CategoriesOf(db.movieCategories, id);
    var fail := EditPage("Error: " + f.message, "danger", m, selected, deleted);
    var err := db.UpdateMovie(id, UpdatedRow(id, m, v, poster), f.update);
    if err.Some? {
      return fail;
    }
    err := db.DeleteCategoryLinks(id, f.deleteLinks);
    if err.Some? {
      return fail;
    }
    var failed := InsertCategories(db, id, cats, f.linkFailAt);
    if failed {
      return fail;
    }
    page := EditPage(SuccessMessage(v.title), "success", db.movies[id], CategoriesOf(db.movieCategories, id), deleted);
  }

  /** One request to edit_movie.php. */
  method HandleEditMovie(db: Database, session: Session, req: EditRequest, f: EditFaults) returns (out: EditOutcome)
    requires db.Valid()
    modifies db
    ensures db.Valid()
    ensures (out, db.Snapshot()) == EditMovieSpec(session.State(), old(db.Snapshot()), req, f)
  {
    if !IsAdmin(session.State()) {
      return ToLogin;
    }
    if req.idParam.None? || !IsNumeric(req.idParam.value) {
      return ToInvalidId;
    }
    var id := TruncateToInt(NumericValue(req.idParam.value).value);
    if f.fetch {
      return Died(FetchErrorPrefix + f.message);
    }
    if id !in db.movies {
      return ToNotFound;
    }
    var m := db.movies[id];
    if !(req.isPost && req.updateMovie) {
      var (msg, alert) := InitialMessage(req.success);
      return Show(EditPage(msg, alert, m, CategoriesOf(db.movieCategories, id), None));
    }
    var page := ApplyForm(db, id, m, req, f);
    out := Show(page);
  }

  /** The POST branch: validation, the poster step, then the writes. */
  method ApplyForm(db: Database, id: int, m: Movie, req: EditRequest, f: EditFaults) returns (page: EditPage)
    requires db.Valid() && id in db.movies
    modifies db
    ensures db.Valid()
    ensures (page, db.Snapshot()) == UpdateSpec(old(db.Snapshot()), id, m, req, f)
  {
    var checked := Validate(req.form, req.currentYear);
    if checked.Invalid? {
      return EditPage("Error: " + checked.message, "danger", m, CategoriesOf(db.movieCategories, id), None);
    }
    var v := checked.value;
    var poster := PosterForEdit(m.posterUrl, req.upload, req.form.posterUrl, v.slug, req.time, f.moved);
    if poster.Invalid? {
      return EditPage("Error: " + poster.message, "danger", m, CategoriesOf(db.movieCategories, id), None);
    }
    page := WriteMovie(db, id, m, v, poster.value, PostedCategories(req.form),
                       DeletedPoster(m.posterUrl, req.upload, f.moved), f);
  }

  /** Only an admin with a numeric id of an existing movie posting the form writes anything. */
  lemma OnlyValidPostsWrite(st: SessionState, t: Tables, req: EditRequest, f: EditFaults)
    ensures var (out, t2) := EditMovieSpec(st, t, req, f);
      t2 != t ==> (&& IsAdmin(st) && req.isPost && req.updateMovie && out.Show?
                   && req.idParam.Some? && IsNumeric(req.idParam.value)
                   && TruncateToInt(NumericValue(req.idParam.value).value) in t.movies)
    ensures !IsAdmin(st) ==> EditMovieSpec(st, t, req, f) == (ToLogin, t)
    ensures IsAdmin(st) && req.idParam.Some? && !IsNumeric(req.idParam.value) ==> EditMovieSpec(st, t, req, f) == (ToInvalidId, t)
  {
  }

  /** A successful update rewrites only the edited row, keeps its created_at, stores the
      validated values and shows the stored row. */
  lemma UpdateRewritesRow(t: Tables, id: int, m: Movie, req: EditRequest, f: EditFaults)
    requires UpdateSpec(t, id, m, req, f).0.alert == "success"
    ensures var (page, t2) := UpdateSpec(t, id, m, req, f);
      && id in t2.movies && t2.movies == t.movies[id := t2.movies[id]]
      && t2.movies[id].createdAt == m.createdAt && page.movie == t2.movies[id]
      && 1900 <= page.movie.releaseYear <= req.currentYear + 5 && 0 <= page.movie.rating <= 100
      && page.movie.slug == Slug(page.movie.title)
  {
    var v := Validate(req.form, req.currentYear).value;
    var poster := PosterForEdit(m.posterUrl, req.upload, req.form.posterUrl, v.slug, req.time, f.moved).value;
    assert UpdateSpec(t, id, m, req, f).1.movies == t.movies[id := UpdatedRow(id, m, v, poster)];
  }

  /** A successful update leaves the movie linked to exactly the posted categories, shows that
      set, and every other movie keeps its own. */
  lemma UpdateReplacesCategories(t: Tables, id: int, m: Movie, req: EditRequest, f: EditFaults, other: int)
    requires UpdateSpec(t, id, m, req, f).0.alert == "success"
    ensures var (page, t2) := UpdateSpec(t, id, m, req, f);
      && CategoriesOf(t2.movieCategories, id) == (set c | c in PostedCategories(req.form))
      && page.selected == CategoriesOf(t2.movieCategories, id)
      && (other != id ==> CategoriesOf(t2.movieCategories, other) == CategoriesOf(t.movieCategories, other))
  {
    var v := Validate(req.form, req.currentYear).value;
    var deleted := DeletedPoster(m.posterUrl, req.upload, f.moved);
    var poster := PosterForEdit(m.posterUrl, req.upload, req.form.posterUrl, v.slug, req.time, f.moved).value;
    assert UpdateSpec(t, id, m, req, f) == WriteSpec(t, id, m, v, poster, PostedCategories(req.form), deleted, f);
    WriteReplacesCategories(t, id, m, v, poster, PostedCategories(req.form), deleted, f, other);
  }

  /** The same for the writes alone: all inserts done, the links of the movie are the posted ids. */
  lemma WriteReplacesCategories(t: Tables, id: int, m: Movie, v: MovieValues, poster: string, cats: seq<int>,
                                deleted: Option<string>, f: EditFaults, other: int)
    requires WriteSpec(t, id, m, v, poster, cats, deleted, f).0.alert == "success"
    ensures var (page, t2) := WriteSpec(t, id, m, v, poster, cats, deleted, f);
      && CategoriesOf(t2.movieCategories, id) == (set c | c in cats)
      && page.selected == CategoriesOf(t2.movieCategories, id)
      && (other != id ==> CategoriesOf(t2.movieCategories, other) == CategoriesOf(t.movieCategories, other))
  {
    assert !f.update && !f.deleteLinks && LinkedCount(|cats|, f.linkFailAt) == |cats|;
    assert cats[..|cats|] == cats;
    assert WriteSpec(t, id, m, v, poster, cats, deleted, f).1.movieCategories == LinksWithout(t.movieCategories, id) + Links(id, cats);
    ReplacedLinks(t.movieCategories, id, cats, other);
  }

  /** Delete-then-insert of a movie's links: it ends with exactly the inserted categories, and
      every other movie keeps its own. */
  lemma ReplacedLinks(links: seq<CategoryLink>, id: int, cats: seq<int>, other: int)
    ensures CategoriesOf(LinksWithout(links, id) + Links(id, cats), id) == set c | c in cats
    ensures other != id ==> CategoriesOf(LinksWithout(links, id) + Links(id, cats), other) == CategoriesOf(links, other)
  {
    var base := LinksWithout(links, id);
    CategoriesOfWithout(links, id);
    CategoriesOfAppend(base, id, cats, other);
  }

  /** The old poster is unlinked as soon as the new file is moved, before the UPDATE runs: when
      the UPDATE then fails, the row still names the deleted file. */
  lemma FailedUpdateLosesPoster(t: Tables, id: int, m: Movie, req: EditRequest, f: EditFaults)
    requires Validate(req.form, req.currentYear).Valid?
    requires Uploaded(req.upload) && f.moved && DeletesOldPoster(m.posterUrl) && f.update
    requires PosterForEdit(m.posterUrl, req.upload, req.form.posterUrl,
                           Validate(req.form, req.currentYear).value.slug, req.time, f.moved).Valid?
    ensures var (page, t2) := UpdateSpec(t, id, m, req, f);
      && t2 == t && page.deleted == Some("../" + m.posterUrl) && page.alert == "danger"
  {
  }

  /** Without a POST the page shows the stored row and its categories and writes nothing; after a
      redirect from the add page it greets with the added notice. */
  lemma GetShowsStoredMovie(st: SessionState, t: Tables, req: EditRequest, f: EditFaults)
    requires IsAdmin(st) && req.idParam.Some? && IsNumeric(req.idParam.value) && !f.fetch
    requires TruncateToInt(NumericValue(req.idParam.value).value) in t.movies
    requires !(req.isPost && req.updateMovie)
    ensures var id := TruncateToInt(NumericValue(req.idParam.value).value);
      var (out, t2) := EditMovieSpec(st, t, req, f);
      && t2 == t && out.Show? && out.page.movie == t.movies[id]
      && out.page.selected == CategoriesOf(t.movieCategories, id)
      && (out.page.message == AddedMessage <==> req.success == Some("added"))
  {
  }
}
