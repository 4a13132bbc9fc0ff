/** The movie form shared by admin/add_movie.php and admin/edit_movie.php: createSlug, the
    required-field loop, the ordered range checks, the stored values and the poster rules. */
module MovieForm {
  import opened Php
  import opened Store

  // ---------------------------------------------------------------- createSlug

  /** PCRE's \s without the u modifier: space, \t, \n, \v, \f and \r. */
  predicate IsPcreSpace(c: char) {
    c == ' ' || c == '\t' || c == '\n' || c == '\U{B}' || c == '\U{C}' || c == '\r'
  }

  /** The characters preg_replace('/[^a-zA-Z0-9\s]/', '') keeps. */
  predicate SlugKeeps(c: char) {
    IsAlnum(c) || IsPcreSpace(c)
  }

  function KeepSlugChars(s: string): (r: string)
    ensures |r| <= |s|
    ensures forall i :: 0 <= i < |r| ==> SlugKeeps(r[i])
    ensures forall i :: 0 <= i < |s| && IsAlnum(s[i]) ==> s[i] in r
  {
    if s == [] then []
    else
      var rest := KeepSlugChars(s[..|s| - 1]);
      assert forall i :: 0 <= i < |s| - 1 ==> s[..|s| - 1][i] == s[i];
      if SlugKeeps(s[|s| - 1]) then rest + [s[|s| - 1]] else rest
  }

  /** str_replace(' ', '-', $s). */
  function Hyphenate(s: string): (r: string)
    ensures |r| == |s|
    ensures forall i :: 0 <= i < |s| ==> r[i] == if s[i] == ' ' then '-' else s[i]
  {
    seq(|s|, i requires 0 <= i < |s| => if s[i] == ' ' then '-' else s[i])
  }

  /** The first three steps of createSlug: filter, then trim. */
  function SlugBase(s: string): (t: string)
    ensures |t| <= |s|
    ensures forall c :: c in t ==> SlugKeeps(c) && c in s
    ensures t == [] || (!IsTrimChar(t[0]) && !IsTrimChar(t[|t| - 1]))
  {
    var kept := KeepSlugChars(s);
    KeepSlugCharsFrom(s);
    TrimChars(kept);
    Trim(kept)
  }

  /** createSlug(): drop every character that is neither an ASCII letter or digit nor whitespace,
      trim, turn each space into a hyphen, lowercase. */
  function Slug(s: string): string {
    Lower(Hyphenate(SlugBase(s)))
  }

  /** The slug holds no upper-case letter and no space, has a hyphen exactly where the filtered,
      trimmed text had a space, and neither starts nor ends with a hyphen. */
  lemma SlugProperties(s: string)
    ensures |Slug(s)| <= |s|
    ensures forall i :: 0 <= i < |Slug(s)| ==> !IsUpper(Slug(s)[i]) && Slug(s)[i] != ' '
    ensures forall i :: 0 <= i < |Slug(s)| ==> IsAlnum(Slug(s)[i]) || Slug(s)[i] == '-' || IsPcreSpace(Slug(s)[i])
    ensures |Slug(s)| == |SlugBase(s)|
    ensures forall i :: 0 <= i < |Slug(s)| ==> (Slug(s)[i] == '-' <==> SlugBase(s)[i] == ' ')
    ensures Slug(s) == [] || (Slug(s)[0] != '-' && Slug(s)[|Slug(s)| - 1] != '-')
  {
    SlugShape(SlugBase(s), Slug(s));
  }

  lemma SlugShape(t: string, r: string)
    requires forall c :: c in t ==> SlugKeeps(c)
    requires t == [] || (!IsTrimChar(t[0]) && !IsTrimChar(t[|t| - 1]))
    requires r == Lower(Hyphenate(t))
    ensures |r| == |t|
    ensures forall i :: 0 <= i < |r| ==> !IsUpper(r[i]) && r[i] != ' '
    ensures forall i :: 0 <= i < |r| ==> IsAlnum(r[i]) || r[i] == '-' || IsPcreSpace(r[i])
    ensures forall i :: 0 <= i < |r| ==> (r[i] == '-' <==> t[i] == ' ')
    ensures r == [] || (r[0] != '-' && r[|r| - 1] != '-')
  {
    var h := Hyphenate(t);
    forall i | 0 <= i < |r|
      ensures !IsUpper(r[i]) && r[i] != ' '
      ensures IsAlnum(r[i]) || r[i] == '-' || IsPcreSpace(r[i])
      ensures r[i] == '-' <==> t[i] == ' '
    {
      assert t[i] in t;
      assert r[i] == LowerChar(h[i]);
    }
  }

  /** A hyphen in the slug comes from a space in the input. */
  lemma SlugHyphenNeedsSpace(s: string)
    requires forall i :: 0 <= i < |s| ==> s[i] != ' '
    ensures forall i :: 0 <= i < |Slug(s)| ==> Slug(s)[i] != '-'
  {
    var t := SlugBase(s);
    SlugProperties(s);
    assert forall c :: c in s ==> c != ' ';
    forall i | 0 <= i < |Slug(s)| ensures Slug(s)[i] != '-' {
      assert t[i] in t;
    }
  }

  /** Every character KeepSlugChars keeps occurs in its input. */
  lemma {:induction false} KeepSlugCharsFrom(s: string)
    ensures forall c :: c in KeepSlugChars(s) ==> c in s
  {
    if s != [] {
      KeepSlugCharsFrom(s[..|s| - 1]);
      forall c | c in s[..|s| - 1] ensures c in s {
        var k :| 0 <= k < |s| - 1 && s[..|s| - 1][k] == c;
        assert s[k] == c;
      }
    }
  }

  /** Every character of Trim(s) occurs in s. */
  lemma TrimChars(s: string)
    ensures forall c :: c in Trim(s) ==> c in s
  {
    var l := TrimLeft(s);
    var r := TrimRight(l);
    forall c | c in r ensures c in s {
      var k :| 0 <= k < |r| && r[k] == c;
      assert l[k] == c;
      assert s[|s| - |l| + k] == c;
    }
  }

  /** A second pass strips the hyphens the first produced: the slug of a slug has no hyphen, so
      createSlug is idempotent exactly on slugs without one. */
  lemma SlugTwice(s: string)
    ensures forall i :: 0 <= i < |Slug(Slug(s))| ==> Slug(Slug(s))[i] != '-'
    ensures (exists i :: 0 <= i < |Slug(s)| && Slug(s)[i] == '-') ==> Slug(Slug(s)) != Slug(s)
  {
    SlugProperties(s);
    SlugHyphenNeedsSpace(Slug(s));
  }

  /** Filtering keeps a string made only of kept characters. */
  lemma {:induction false} KeepSlugCharsKeepsAll(s: string)
    requires forall i :: 0 <= i < |s| ==> SlugKeeps(s[i])
    ensures KeepSlugChars(s) == s
  {
    if s != [] {
      KeepSlugCharsKeepsAll(s[..|s| - 1]);
      assert s == s[..|s| - 1] + [s[|s| - 1]];
    }
  }

  /** A string of kept characters with clean edges is its own filtered, trimmed base. */
  lemma SlugBaseOfClean(s: string)
    requires forall i :: 0 <= i < |s| ==> SlugKeeps(s[i])
    requires s == [] || (!IsTrimChar(s[0]) && !IsTrimChar(s[|s| - 1]))
    ensures SlugBase(s) == s
  {
    KeepSlugCharsKeepsAll(s);
    TrimKeepsClean(s);
  }

  /** Hyphenating a string without capitals leaves nothing for strtolower to change. */
  lemma LowerOfHyphenated(s: string)
    requires forall i :: 0 <= i < |s| ==> !IsUpper(s[i])
    ensures Lower(Hyphenate(s)) == Hyphenate(s)
  {
    var h := Hyphenate(s);
    var r := Lower(h);
    forall i | 0 <= i < |h| ensures r[i] == h[i] {
      assert !IsUpper(h[i]);
    }
  }

  /** Lowercase words separated by single or repeated spaces: createSlug only turns each space
      into a hyphen. */
  lemma SlugOfLowerWords(s: string)
    requires forall i :: 0 <= i < |s| ==> IsLower(s[i]) || IsDigit(s[i]) || s[i] == ' '
    requires s == [] || (s[0] != ' ' && s[|s| - 1] != ' ')
    ensures Slug(s) == Hyphenate(s)
  {
    assert forall i :: 0 <= i < |s| ==> SlugKeeps(s[i]) && !IsUpper(s[i]);
    SlugBaseOfClean(s);
    LowerOfHyphenated(s);
    assert Slug(s) == Lower(Hyphenate(SlugBase(s)));
  }

  /** One space between two lowercase letters becomes one hyphen. */
  lemma SlugOneSpace(x: char, y: char)
    requires IsLower(x) && IsLower(y)
    ensures Slug([x, ' ', y]) == [x, '-', y]
  {
    HyphenateOneSpace(x, y);
    SlugOfLowerWords([x, ' ', y]);
  }

  lemma HyphenateOneSpace(x: char, y: char)
    requires IsLower(x) && IsLower(y)
    ensures Hyphenate([x, ' ', y]) == [x, '-', y]
  {
  }

  /** Two spaces become two hyphens: runs of spaces are not collapsed. */
  lemma SlugTwoSpaces(x: char, y: char)
    requires IsLower(x) && IsLower(y)
    ensures Slug([x, ' ', ' ', y]) == [x, '-', '-', y]
  {
    HyphenateTwoSpaces(x, y);
    SlugOfLowerWords([x, ' ', ' ', y]);
  }

  lemma HyphenateTwoSpaces(x: char, y: char)
    requires IsLower(x) && IsLower(y)
    ensures Hyphenate([x, ' ', ' ', y]) == [x, '-', '-', y]
  {
  }

  /** A hyphen is not kept: two letters joined by one lose it. */
  lemma SlugDropsHyphen(x: char, y: char)
    requires IsLower(x) && IsLower(y)
    ensures Slug([x, '-', y]) == [x, y]
  {
    KeepDropsHyphen(x, y);
    SlugBaseOfClean([x, y]);
    LowerOfHyphenated([x, y]);
    HyphenateNoSpace(x, y);
  }

  lemma KeepDropsHyphen(x: char, y: char)
    requires IsLower(x) && IsLower(y)
    ensures KeepSlugChars([x, '-', y]) == [x, y]
  {
    var s := [x, '-', y];
    assert s[..2] == [x, '-'];
    assert [x, '-'][..1] == [x];
    assert [x][..0] == [];
    assert KeepSlugChars([x]) == [x];
    assert KeepSlugChars([x, '-']) == [x];
  }

  lemma HyphenateNoSpace(x: char, y: char)
    requires IsLower(x) && IsLower(y)
    ensures Hyphenate([x, y]) == [x, y]
  {
  }

  /** So createSlug is not idempotent: a second pass joins the words the first one hyphenated. */
  lemma SlugNotIdempotent(x: char, y: char)
    requires IsLower(x) && IsLower(y)
    ensures Slug(Slug([x, ' ', y])) == [x, y] != Slug([x, ' ', y])
  {
    SlugOneSpace(x, y);
    SlugDropsHyphen(x, y);
  }

  // ---------------------------------------------------------------- required fields

  /** The POST fields of the movie form; None is an unset field. `status` is whether the checkbox
      was posted, `categories` the posted category ids (None when unset). */
  datatype MovieFormInput = MovieFormInput(
    title: Option<string>, description: Option<string>, price: Option<string>,
    releaseYear: Option<string>, duration: Option<string>, rating: Option<string>,
    trailerUrl: Option<string>, posterUrl: Option<string>, status: bool,
    categories: Option<seq<int>>)

  const RequiredFields: seq<string> := ["title", "description", "price", "release_year", "duration", "rating"]

  function FieldValue(form: MovieFormInput, name: string): Option<string> {
    match name
    case "title" => form.title
    case "description" => form.description
    case "price" => form.price
    case "release_year" => form.releaseYear
    case "duration" => form.duration
    case "rating" => form.rating
    case _ => None
  }

  /** The names among `names` whose field is empty(), in order. */
  function MissingOf(form: MovieFormInput, names: seq<string>): (r: seq<string>)
    ensures |r| <= |names|
    ensures forall n :: n in r <==> n in names && Empty(FieldValue(form, n))
  {
    if names == [] then []
    else
      var rest := MissingOf(form, names[..|names| - 1]);
      var n := names[|names| - 1];
      assert names == names[..|names| - 1] + [n];
      if Empty(FieldValue(form, n)) then rest + [n] else rest
  }

  /** The foreach over $requiredFields that appends each empty field's name. */
  method MissingFields(form: MovieFormInput) returns (missing: seq<string>)
    ensures missing == MissingOf(form, RequiredFields)
  {
    missing := [];
    var i := 0;
    while i < |RequiredFields|
      invariant 0 <= i <= |RequiredFields|
      invariant missing == MissingOf(form, RequiredFields[..i])
    {
      assert RequiredFields[..i + 1][..i] == RequiredFields[..i];
      var name := RequiredFields[i];
      if Empty(FieldValue(form, name)) {
        missing := missing + [name];
      }
      i := i + 1;
    }
    assert RequiredFields[..|RequiredFields|] == RequiredFields;
  }

  /** implode(', ', $names). */
  function Join(names: seq<string>): string {
    if names == [] then ""
    else if |names| == 1 then names[0]
    else Join(names[..|names| - 1]) + ", " + names[|names| - 1]
  }

  // ---------------------------------------------------------------- range checks

  const PriceMessage := "Price must be a positive number."
  const YearMessage := "Release year must be a valid year."
  const DurationMessage := "Duration must be a positive number."
  const RatingMessage := "Rating must be between 0 and 10."

  /** The numeric comparisons run on the values the strings denote. */
  predicate BadPrice(v: string) { NumericValue(v).None? || NumericValue(v).value <= 0.0 }
  predicate BadYear(v: string, currentYear: int) {
    NumericValue(v).None? || NumericValue(v).value < 1900.0 || NumericValue(v).value > (currentYear + 5) as real
  }
  predicate BadDuration(v: string) { NumericValue(v).None? || NumericValue(v).value <= 0.0 }
  predicate BadRating(v: string) {
    NumericValue(v).None? || NumericValue(v).value < 0.0 || NumericValue(v).value > 10.0
  }

  /** The first range check that fails, in the order price, year, duration, rating. */
  function RangeError(price: string, year: string, duration: string, rating: string, currentYear: int): (e: Option<string>)
    ensures e.None? <==> !BadPrice(price) && !BadYear(year, currentYear) && !BadDuration(duration) && !BadRating(rating)
    ensures BadPrice(price) ==> e == Some(PriceMessage)
  {
    if BadPrice(price) then Some(PriceMessage)
    else if BadYear(year, currentYear) then Some(YearMessage)
    else if BadDuration(duration) then Some(DurationMessage)
    else if BadRating(rating) then Some(RatingMessage)
    else None
  }

  // ---------------------------------------------------------------- stored values

  /** A DECIMAL(10,2) column stores a non-negative value rounded half up to cents. */
  function Cents(v: real): (c: int)
    requires v >= 0.0
    ensures c >= 0
    ensures (c as real - 0.5) / 100.0 <= v < (c as real + 0.5) / 100.0
  {
    (v * 100.0 + 0.5).Floor
  }

  /** A DECIMAL(3,1) column stores a non-negative value rounded half up to tenths. */
  function Tenths(v: real): (t: int)
    requires v >= 0.0
    ensures t >= 0
    ensures (t as real - 0.5) / 10.0 <= v < (t as real + 0.5) / 10.0
  {
    (v * 10.0 + 0.5).Floor
  }

  /** The row values a valid form produces (the `id`, poster and `createdAt` are set elsewhere). */
  datatype MovieValues = MovieValues(
    title: string, slug: string, description: string, price: int, releaseYear: int,
    duration: int, rating: int, trailerUrl: Option<string>, status: MovieStatus)

  datatype Checked<T> = Valid(value: T) | Invalid(message: string)

  /** The validation chain and the clean-up of add_movie.php and edit_movie.php: all missing
      fields reported together, then the first failing range check, else the cleaned values. */
  function Validate(form: MovieFormInput, currentYear: int): (r: Checked<MovieValues>)
    ensures r.Invalid? <==> (MissingOf(form, RequiredFields) != []
      || RangeError(form.price.value, form.releaseYear.value, form.duration.value, form.rating.value, currentYear).Some?)
    ensures r.Valid? ==> (
      && 1900 <= r.value.releaseYear <= currentYear + 5
      && r.value.duration >= 0 && r.value.price >= 0
      && 0 <= r.value.rating <= 100
      && form.title.Some? && r.value.title == Trim(form.title.value) && r.value.slug == Slug(r.value.title)
      && (r.value.status == Active <==> form.status))
  {
    var missing := MissingOf(form, RequiredFields);
    if missing != [] then Invalid("Missing required fields: " + Join(missing))
    else
      assert !Empty(form.price) by { assert "price" in RequiredFields; }
      assert !Empty(form.title) && !Empty(form.description) by { assert "title" in RequiredFields && "description" in RequiredFields; }
      assert !Empty(form.releaseYear) && !Empty(form.duration) && !Empty(form.rating) by {
        assert "release_year" in RequiredFields && "duration" in RequiredFields && "rating" in RequiredFields;
      }
      var range := RangeError(form.price.value, form.releaseYear.value, form.duration.value, form.rating.value, currentYear);
      if range.Some? then Invalid(range.value)
      else
        var title := Trim(form.title.value);
        Valid(MovieValues(
          title, Slug(title), Trim(form.description.value),
          StoredPrice(form.price.value), StoredYear(form.releaseYear.value, currentYear),
          StoredDuration(form.duration.value), StoredRating(form.rating.value),
          if Empty(form.trailerUrl) then None else Some(Trim(form.trailerUrl.value)),
          if form.status then Active else Inactive))
  }

  /** floatval() of a valid price, stored as cents. */
  function StoredPrice(v: string): (c: int)
    requires !BadPrice(v)
    ensures c >= 0
  {
    Cents(NumericValue(v).value)
  }

  /** intval() of a valid year: it stays within [1900, currentYear + 5]. */
  function StoredYear(v: string, currentYear: int): (y: int)
    requires !BadYear(v, currentYear)
    ensures 1900 <= y <= currentYear + 5
  {
    TruncateToInt(NumericValue(v).value)
  }

  /** intval() of a valid duration: non-negative, and 0 for a positive value below 1. */
  function StoredDuration(v: string): (d: int)
    requires !BadDuration(v)
    ensures d >= 0
    ensures NumericValue(v).value < 1.0 ==> d == 0
  {
    TruncateToInt(NumericValue(v).value)
  }

  /** floatval() of a valid rating, stored as tenths: between 0 and 100. */
  function StoredRating(v: string): (t: int)
    requires !BadRating(v)
    ensures 0 <= t <= 100
  {
    var r := NumericValue(v).value;
    assert r * 10.0 + 0.5 < 101.0;
    Tenths(r)
  }

  /** empty() counts "0" as missing: a rating of "0" is refused although the range allows 0,
      while "0.0" passes. */
  lemma ZeroRatingIsMissing(form: MovieFormInput, currentYear: int)
    requires form.rating == Some("0")
    ensures "rating" in MissingOf(form, RequiredFields)
    ensures Validate(form, currentYear).Invalid?
  {
  }

  lemma ZeroPointZeroRatingAccepted()
    ensures !BadRating("0.0") && NumericValue("0.0") == Some(0.0)
  {
    assert StripNumericSpace("0.0") == "0.0";
    assert DigitRun("0.0") == 1 by {
      assert DigitRun(".0") == 0;
    }
    assert "0.0"[..1] == "0" && "0.0"[1..] == ".0" && ".0"[1..] == "0";
    assert DigitsValue("0") == 0 by { assert "0"[..0] == []; }
  }

  /** The checks run in order and the first failure wins: a bad price hides every later problem. */
  lemma FirstFailureWins(price: string, year: string, duration: string, rating: string, currentYear: int)
    requires BadPrice(price)
    ensures RangeError(price, year, duration, rating, currentYear) == Some(PriceMessage)
  {
  }

  // ---------------------------------------------------------------- poster

  /** $_FILES['poster']: the client file name and its size in bytes. */
  datatype Upload = Upload(name: string, size: int)

  const AllowedTypes: seq<string> := ["jpg", "jpeg", "png", "webp"]
  const MaxPosterBytes := 5000000
  const PosterDir := "assets/images/movies/"
  const TypeMessage := "Only JPG, JPEG, PNG, and WEBP files are allowed."
  const SizeMessage := "File is too large. Maximum size is 5MB."
  const MoveMessage := "Failed to upload poster image."

  /** The part of s after its last occurrence of c, or s itself when c does not occur. */
  function AfterLast(s: string, c: char): (r: string)
    ensures |r| <= |s| && r == s[|s| - |r|..]
    ensures forall i :: 0 <= i < |r| ==> r[i] != c
  {
    if s == [] then []
    else if s[|s| - 1] == c then []
    else AfterLast(s[..|s| - 1], c) + [s[|s| - 1]]
  }

  predicate HasChar(s: string, c: char) {
    exists i :: 0 <= i < |s| && s[i] == c
  }

  /** basename() then pathinfo(PATHINFO_EXTENSION), lowercased: the text after the last '.' of the
      last path segment, or "" when that segment has no '.'. */
  function Extension(fileName: string): (ext: string)
    ensures forall i :: 0 <= i < |ext| ==> ext[i] != '.' && !IsUpper(ext[i])
  {
    var base := AfterLast(fileName, '/');
    if HasChar(base, '.') then Lower(AfterLast(base, '.')) else ""
  }

  /** Whether a posted file counts as uploaded: !empty($_FILES['poster']['name']). */
  predicate Uploaded(upload: Option<Upload>) {
    upload.Some? && !Empty(Some(upload.value.name))
  }

  /** The checks on an uploaded poster and the stored path, slug-time.ext; `moved` is whether
      move_uploaded_file succeeded. */
  function UploadedPoster(upload: Upload, slug: string, time: nat, moved: bool): (r: Checked<string>)
    ensures r.Valid? <==> Extension(upload.name) in AllowedTypes && upload.size <= MaxPosterBytes && moved
    ensures r.Valid? ==> IsPrefix(PosterDir, r.value)
  {
    var ext := Extension(upload.name);
    if ext !in AllowedTypes then Invalid(TypeMessage)
    else if upload.size > MaxPosterBytes then Invalid(SizeMessage)
    else if !moved then Invalid(MoveMessage)
    else
      var path := PosterDir + slug + "-" + NatToString(time) + "." + ext;
      assert path[..|PosterDir|] == PosterDir;
      Valid(path)
  }

  /** add_movie.php: an uploaded file wins; the external URL is used only without one; otherwise
      the poster is ''. */
  function PosterForAdd(upload: Option<Upload>, posterUrl: Option<string>, slug: string, time: nat, moved: bool)
    : (r: Checked<string>)
    ensures Uploaded(upload) ==> r == UploadedPoster(upload.value, slug, time, moved)
    ensures !Uploaded(upload) && !Empty(posterUrl) ==> r == Valid(Trim(posterUrl.value))
    ensures !Uploaded(upload) && Empty(posterUrl) ==> r == Valid("")
  {
    if Uploaded(upload) then UploadedPoster(upload.value, slug, time, moved)
    else if !Empty(posterUrl) then Valid(Trim(posterUrl.value))
    else Valid("")
  }

  /** edit_movie.php: the current poster is kept unless a file is uploaded, or a non-empty URL
      different from the current one is posted. */
  function PosterForEdit(current: string, upload: Option<Upload>, posterUrl: Option<string>, slug: string,
                         time: nat, moved: bool): (r: Checked<string>)
    ensures Uploaded(upload) ==> r == UploadedPoster(upload.value, slug, time, moved)
    ensures !Uploaded(upload) && (Empty(posterUrl) || posterUrl.value == current) ==> r == Valid(current)
    ensures !Uploaded(upload) && !Empty(posterUrl) && posterUrl.value != current ==> r == Valid(Trim(posterUrl.value))
  {
    if Uploaded(upload) then UploadedPoster(upload.value, slug, time, moved)
    else if !Empty(posterUrl) && posterUrl.value != current then Valid(Trim(posterUrl.value))
    else Valid(current)
  }

  /** The old file is deleted after a successful upload only when it is a local poster
      (under assets/images/movies/) and not the placeholder. */
  predicate DeletesOldPoster(current: string) {
    !Empty(Some(current)) && IsPrefix(PosterDir, current) && !Contains(current, "placeholder")
  }

  /** An uploaded poster's path starts with the poster directory; the placeholder and external
      URLs are never deleted. */
  lemma PosterDeletionExamples()
    ensures !DeletesOldPoster("assets/images/movies/placeholder.jpg")
    ensures !DeletesOldPoster("https://img.example/x.jpg")
  {
    var p := "assets/images/movies/placeholder.jpg";
    assert p[21..21 + |"placeholder"|] == "placeholder";
    ContainsAt(p, "placeholder", 21);
    assert "https://img.example/x.jpg"[..|PosterDir|] != PosterDir by {
      assert "https://img.example/x.jpg"[0] != PosterDir[0];
    }
  }

  /** Precedence: with a file uploaded the posted URL plays no part, in both forms. */
  lemma UploadTakesPrecedence(current: string, upload: Option<Upload>, u1: Option<string>, u2: Option<string>,
                              slug: string, time: nat, moved: bool)
    requires Uploaded(upload)
    ensures PosterForAdd(upload, u1, slug, time, moved) == PosterForAdd(upload, u2, slug, time, moved)
    ensures PosterForEdit(current, upload, u1, slug, time, moved) == PosterForAdd(upload, u2, slug, time, moved)
  {
  }

  // ---------------------------------------------------------------- categories

  /** The category ids posted with the form; an unset or empty list links nothing. */
  function PostedCategories(form: MovieFormInput): seq<int> {
    if form.categories.None? then [] else form.categories.value
  }

  /** The rows the category foreach inserts for one movie, in order. */
  function Links(movieId: int, cats: seq<int>): (r: seq<CategoryLink>)
    ensures |r| == |cats|
    ensures forall l :: l in r <==> l.movieId == movieId && l.categoryId in cats
  {
    if cats == [] then []
    else
      var rest := Links(movieId, cats[..|cats| - 1]);
      assert cats == cats[..|cats| - 1] + [cats[|cats| - 1]];
      rest + [CategoryLink(movieId, cats[|cats| - 1])]
  }

  lemma LinksStep(movieId: int, cats: seq<int>, i: nat)
    requires i < |cats|
    ensures Links(movieId, cats[..i + 1]) == Links(movieId, cats[..i]) + [CategoryLink(movieId, cats[i])]
  {
    assert cats[..i + 1][..i] == cats[..i];
  }

  /** How many of n category inserts run before the one that fails (`failAt`), if any does. */
  function LinkedCount(n: nat, failAt: Option<nat>): (k: nat)
    ensures k <= n
    ensures k < n <==> failAt.Some? && failAt.value < n
  {
    if failAt.Some? && failAt.value < n then failAt.value else n
  }

  /** The category ids linked to a movie, as the SELECT category_id ... WHERE movie_id = ? sees them. */
  function CategoriesOf(links: seq<CategoryLink>, movieId: int): set<int> {
    set l | l in links && l.movieId == movieId :: l.categoryId
  }

  /** Appending a movie's links adds exactly the posted ids to its categories and leaves every
      other movie's categories alone. */
  lemma CategoriesOfAppend(links: seq<CategoryLink>, movieId: int, cats: seq<int>, other: int)
    ensures CategoriesOf(links + Links(movieId, cats), movieId) == CategoriesOf(links, movieId) + set c | c in cats
    ensures other != movieId ==> CategoriesOf(links + Links(movieId, cats), other) == CategoriesOf(links, other)
  {
    var added := links + Links(movieId, cats);
    forall c | c in cats ensures c in CategoriesOf(added, movieId) {
      assert CategoryLink(movieId, c) in added;
    }
  }

  /** After the delete, a movie has no category left. */
  lemma CategoriesOfWithout(links: seq<CategoryLink>, movieId: int)
    ensures CategoriesOf(LinksWithout(links, movieId), movieId) == {}
  {
  }

  /** The foreach over the posted categories: one INSERT per id, in order, outside any
      transaction; the first failing INSERT ends the loop and the rows before it stay. */
  method InsertCategories(db: Database, movieId: int, cats: seq<int>, failAt: Option<nat>) returns (failed: bool)
    requires db.Valid()
    modifies db
    ensures db.Valid()
    ensures failed <==> LinkedCount(|cats|, failAt) < |cats|
    ensures db.Snapshot() == old(db.Snapshot()).(
      movieCategories := old(db.movieCategories) + Links(movieId, cats[..LinkedCount(|cats|, failAt)]))
    ensures db.nextMovieId == old(db.nextMovieId) && db.nextOrderId == old(db.nextOrderId)
  {
    ghost var t0 := db.Snapshot();
    var i := 0;
    failed := false;
    while i < |cats| && !failed
      invariant 0 <= i <= LinkedCount(|cats|, failAt)
      invariant failed ==> i == LinkedCount(|cats|, failAt) < |cats|
      invariant db.Valid()
      invariant db.Snapshot() == t0.(movieCategories := t0.movieCategories + Links(movieId, cats[..i]))
      invariant db.nextMovieId == old(db.nextMovieId) && db.nextOrderId == old(db.nextOrderId)
      decreases |cats| - i, !failed
    {
      ghost var before := db.movieCategories;
      assert before == t0.movieCategories + Links(movieId, cats[..i]);
      var err := db.InsertCategoryLink(movieId, cats[i], failAt == Some(i));
      if err.Some? {
        failed := true;
      } else {
        LinksStep(movieId, cats, i);
        assert db.movieCategories == t0.movieCategories + Links(movieId, cats[..i + 1]) by {
          assert db.movieCategories == before + [CategoryLink(movieId, cats[i])];
        }
        i := i + 1;
      }
    }
    assert !failed ==> cats[..i] == cats;
  }

}
