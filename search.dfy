/** search.php: the server-side search, which trims the query, answers an empty one at once, and
    otherwise selects the movies whose title or description is LIKE '%q%', ordered by rating and
    then by creation time, both descending. */
module Search {
  import opened Php
  import opened Store

  datatype SearchOutcome =
    | ToIndex                                          // index.php: empty query, not AJAX
    | Json(movies: seq<Movie>, error: Option<string>)  // the AJAX answer
    | Results(query: string, movies: seq<Movie>, dbError: bool)  // the results page

  const DbErrorMessage := "Database error occurred"

  /** isset($_GET['q']) ? trim($_GET['q']) : ''. */
  function Query(q: Option<string>): (r: string)
    ensures q.None? ==> r == ""
    ensures q.Some? ==> r == Trim(q.value)
  {
    if q.Some? then Trim(q.value) else ""
  }

  // ---------------------------------------------------------------- LIKE

  /** Equal under the case-insensitive collation of the column (ASCII letters only). */
  predicate SameLetter(a: char, b: char) {
    LowerChar(a) == LowerChar(b)
  }

  /** s LIKE p: '%' matches any run of characters, '_' any single one, anything else itself up to
      case. */
  function Like(s: string, p: string): (r: bool)
    decreases |s| + |p|
    ensures p == [] ==> (r <==> s == [])
    ensures r && p != [] && p[0] != '%' ==> s != []
  {
    if p == [] then s == []
    else if p[0] == '%' then Like(s, p[1..]) || (s != [] && Like(s[1..], p))
    else s != [] && (p[0] == '_' || SameLetter(s[0], p[0])) && Like(s[1..], p[1..])
  }

  /** The bound pattern "%{$searchQuery}%": the query itself is not escaped. */
  function Pattern(q: string): (p: string)
    ensures |p| == |q| + 2 && p[0] == '%' && p[|p| - 1] == '%' && p[1..|p| - 1] == q
  {
    "%" + q + "%"
  }

  predicate NoWildcards(q: string) {
    forall i :: 0 <= i < |q| ==> q[i] != '%' && q[i] != '_'
  }

  /** q occurs in s from position 0, up to case. */
  predicate SamePrefix(q: string, s: string) {
    |q| <= |s| && forall k :: 0 <= k < |q| ==> SameLetter(s[k], q[k])
  }

  /** q occurs somewhere in s, up to case. */
  predicate ContainsIgnoringCase(s: string, q: string) {
    exists i :: 0 <= i <= |s| && SamePrefix(q, s[i..])
  }

  /** A trailing '%' matches whatever is left. */
  lemma {:induction false} LikeAnything(s: string)
    ensures Like(s, "%")
  {
    if s != [] {
      LikeAnything(s[1..]);
    }
  }

  /** Without wildcards, q followed by '%' matches exactly the strings q starts, up to case. */
  lemma {:induction false} LikePrefix(s: string, q: string)
    requires NoWildcards(q)
    ensures Like(s, q + "%") <==> SamePrefix(q, s)
  {
    if q == [] {
      assert q + "%" == "%";
      LikeAnything(s);
    } else {
      assert (q + "%")[0] == q[0];
      assert (q + "%")[1..] == q[1..] + "%";
      if s != [] {
        LikePrefix(s[1..], q[1..]);
        if SamePrefix(q[1..], s[1..]) && SameLetter(s[0], q[0]) {
          assert forall k :: 1 <= k < |q| ==> SameLetter(s[k], q[k]) by {
            forall k | 1 <= k < |q| ensures SameLetter(s[k], q[k]) {
              assert s[1..][k - 1] == s[k] && q[1..][k - 1] == q[k];
            }
          }
        }
        if SamePrefix(q, s) {
          assert forall k :: 0 <= k < |q| - 1 ==> SameLetter(s[1..][k], q[1..][k]) by {
            forall k | 0 <= k < |q| - 1 ensures SameLetter(s[1..][k], q[1..][k]) {
              assert SameLetter(s[k + 1], q[k + 1]);
            }
          }
        }
      }
    }
  }

  /** A leading '%' tries every suffix. */
  lemma {:induction false} LikeSuffix(s: string, r: string)
    ensures Like(s, "%" + r) <==> exists i :: 0 <= i <= |s| && Like(s[i..], r)
  {
    assert ("%" + r)[0] == '%' && ("%" + r)[1..] == r;
    assert s[0..] == s;
    if s != [] {
      LikeSuffix(s[1..], r);
      forall i | 1 <= i <= |s| ensures s[i..] == s[1..][i - 1..] { }
      if exists i :: 0 <= i <= |s| && Like(s[i..], r) {
        var i :| 0 <= i <= |s| && Like(s[i..], r);
        if i > 0 {
          assert Like(s[1..][i - 1..], r);
        }
      }
      if exists j :: 0 <= j <= |s| - 1 && Like(s[1..][j..], r) {
        var j :| 0 <= j <= |s| - 1 && Like(s[1..][j..], r);
        assert Like(s[j + 1..], r);
      }
    }
  }

  /** Without '%' or '_' in the query, the pattern is the case-insensitive substring test. */
  lemma LikeIsSubstring(s: string, q: string)
    requires NoWildcards(q)
    ensures Like(s, Pattern(q)) <==> ContainsIgnoringCase(s, q)
  {
    assert Pattern(q) == "%" + (q + "%");
    LikeSuffix(s, q + "%");
    forall i | 0 <= i <= |s| ensures Like(s[i..], q + "%") <==> SamePrefix(q, s[i..]) {
      LikePrefix(s[i..], q);
    }
  }

  /** '_' in the query is a wildcard, not a literal: "a_c" finds "ABC". */
  lemma UnderscoreIsWildcard()
    ensures Like("ABC", Pattern("a_c"))
    ensures !ContainsIgnoringCase("ABC", "a_c")
  {
    assert Pattern("a_c") == "%" + ("a_c" + "%");
    LikeSuffix("ABC", "a_c" + "%");
    assert "ABC"[0..] == "ABC";
    assert Like("C", "%") by { LikeAnything("C"[1..]); }
    assert Like("ABC", "a_c%");
    forall i | 0 <= i <= 3 ensures !SamePrefix("a_c", "ABC"[i..]) {
      if i == 0 {
        assert !SameLetter("ABC"[1], "a_c"[1]);
      }
    }
  }

  /** A query of a lone '%' matches every movie. */
  lemma PercentMatchesAll(m: Movie)
    ensures Matches(m, "%")
  {
    assert Pattern("%") == "%%%";
    assert "%%%"[1..] == "%%" && "%%"[1..] == "%";
    LikeAnything(m.title);
  }

  // ---------------------------------------------------------------- selection and order

  /** WHERE title LIKE ? OR description LIKE ?. */
  predicate Matches(m: Movie, q: string) {
    Like(m.title, Pattern(q)) || Like(m.description, Pattern(q))
  }

  /** The rows that match, in the order they are read. */
  function Filter(rows: seq<Movie>, q: string): (r: seq<Movie>)
    ensures |r| <= |rows|
    ensures forall m :: m in r <==> m in rows && Matches(m, q)
    ensures multiset(r) <= multiset(rows)
  {
    if rows == [] then []
    else
      var rest := Filter(rows[1..], q);
      assert rows == [rows[0]] + rows[1..];
      if Matches(rows[0], q) then [rows[0]] + rest else rest
  }

  /** ORDER BY rating DESC, created_at DESC: a comes no later than b. */
  predicate RanksBefore(a: Movie, b: Movie) {
    a.rating > b.rating || (a.rating == b.rating && a.createdAt >= b.createdAt)
  }

  predicate Ranked(r: seq<Movie>) {
    forall i, j :: 0 <= i < j < |r| ==> RanksBefore(r[i], r[j])
  }

  function InsertByRank(m: Movie, r: seq<Movie>): (out: seq<Movie>)
    ensures multiset(out) == multiset(r) + multiset{m}
  {
    if r == [] then [m]
    else if RanksBefore(m, r[0]) then [m] + r
    else
      assert r == [r[0]] + r[1..];
      [r[0]] + InsertByRank(m, r[1..])
  }

  /** When m goes after the head, the head still ranks before everything inserted behind it. */
  lemma HeadRanksBeforeRest(m: Movie, r: seq<Movie>)
    requires Ranked(r) && r != [] && !RanksBefore(m, r[0])
    ensures forall x :: x in multiset(InsertByRank(m, r[1..])) ==> RanksBefore(r[0], x)
  {
    forall x | x in multiset(InsertByRank(m, r[1..])) ensures RanksBefore(r[0], x) {
      if x != m {
        assert x in multiset(r[1..]);
        var j :| 0 <= j < |r[1..]| && r[1..][j] == x;
        assert r[j + 1] == x;
      }
    }
  }

  lemma {:induction false} InsertKeepsRanked(m: Movie, r: seq<Movie>)
    requires Ranked(r)
    ensures Ranked(InsertByRank(m, r))
  {
    if r != [] && !RanksBefore(m, r[0]) {
      InsertKeepsRanked(m, r[1..]);
      var rest := InsertByRank(m, r[1..]);
      HeadRanksBeforeRest(m, r);
      var out := [r[0]] + rest;
      forall i, j | 0 <= i < j < |out| ensures RanksBefore(out[i], out[j]) {
        assert out[j] == rest[j - 1] && out[j] in multiset(rest);
        if i > 0 {
          assert out[i] == rest[i - 1];
        }
      }
    }
  }

  /** The ordering the query asks for; rows that tie on both keys keep no particular order. */
  function SortByRank(rows: seq<Movie>): (r: seq<Movie>)
    ensures Ranked(r)
    ensures multiset(r) == multiset(rows)
  {
    if rows == [] then []
    else
      assert rows == [rows[0]] + rows[1..];
      InsertKeepsRanked(rows[0], SortByRank(rows[1..]));
      InsertByRank(rows[0], SortByRank(rows[1..]))
  }

  // ---------------------------------------------------------------- the request

  /** The whole request: `rows` is the movies table as it is read, `fault` a failing query. */
  function SearchSpec(qParam: Option<string>, ajaxParam: Option<string>, rows: seq<Movie>, fault: bool): SearchOutcome
  {
    var q := Query(qParam);
    var ajax := ajaxParam == Some("1");
    if Empty(Some(q)) then (if ajax then Json([], None) else ToIndex)
    else if fault then (if ajax then Json([], Some(DbErrorMessage)) else Results(q, [], true))
    else
      var found := SortByRank(Filter(rows, q));
      if ajax then Json(found, None) else Results(q, found, false)
  }

  /** An empty query answers at once: an empty list to AJAX, home otherwise. */
  lemma EmptyQueryAnswersAtOnce(qParam: Option<string>, ajaxParam: Option<string>, rows: seq<Movie>, fault: bool)
    requires qParam.None? || forall i :: 0 <= i < |qParam.value| ==> IsTrimChar(qParam.value[i])
    ensures SearchSpec(qParam, ajaxParam, rows, fault) == (if ajaxParam == Some("1") then Json([], None) else ToIndex)
  {
  }

  /** Because of empty(), the query "0" counts as empty, even with spaces around it. */
  lemma ZeroQueryIsEmpty(ajaxParam: Option<string>, rows: seq<Movie>, fault: bool)
    ensures SearchSpec(Some(" 0 "), ajaxParam, rows, fault) == (if ajaxParam == Some("1") then Json([], None) else ToIndex)
  {
    TrimSpacedZero();
    assert Empty(Some(Query(Some(" 0 "))));
  }

  lemma TrimSpacedZero()
    ensures Trim(" 0 ") == "0"
  {
    assert " 0 "[1..] == "0 ";
    assert TrimLeft(" 0 ") == "0 " by {
      assert TrimLeft("0 ") == "0 ";
    }
    assert "0 "[..1] == "0";
    assert TrimRight("0 ") == "0" by {
      assert TrimRight("0") == "0";
    }
  }

  /** AJAX mode needs the parameter to be exactly "1": anything else gets a page or a redirect. */
  lemma AjaxOnlyForExactlyOne(qParam: Option<string>, ajaxParam: Option<string>, rows: seq<Movie>, fault: bool)
    requires ajaxParam != Some("1")
    ensures !SearchSpec(qParam, ajaxParam, rows, fault).Json?
  {
  }

  /** The results are exactly the matching rows, each as often as it is read, in ranked order. */
  lemma ResultsAreRankedMatches(qParam: Option<string>, ajaxParam: Option<string>, rows: seq<Movie>)
    requires !Empty(Some(Query(qParam)))
    ensures var out := SearchSpec(qParam, ajaxParam, rows, false);
      && (out.Json? || out.Results?) && Ranked(out.movies)
      && multiset(out.movies) == multiset(Filter(rows, Query(qParam)))
      && (forall m :: m in out.movies <==> m in rows && Matches(m, Query(qParam)))
  {
    var found := Filter(rows, Query(qParam));
    var r := SortByRank(found);
    forall m ensures m in r <==> m in found {
      assert m in r <==> m in multiset(r);
      assert m in found <==> m in multiset(found);
    }
  }

  /** A failing query yields the error field and an empty list to AJAX, and the error flag to the page. */
  lemma DatabaseErrorEmptyList(qParam: Option<string>, ajaxParam: Option<string>, rows: seq<Movie>)
    requires !Empty(Some(Query(qParam)))
    ensures var out := SearchSpec(qParam, ajaxParam, rows, true);
      if ajaxParam == Some("1") then out == Json([], Some(DbErrorMessage)) else out == Results(Query(qParam), [], true)
  {
  }
}
