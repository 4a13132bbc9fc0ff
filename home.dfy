/** index.php: the home page's movie grid, which merges the eight newest and the eight best-rated
    movies into one id-keyed array, and the script that filters its cards by tag. */
module Home {
  import opened Php
  import opened Store
  import Dashboard

  datatype Tag = LatestTag | PopularTag

  /** A card of the grid: the row, with the 'type' key the merge adds. */
  datatype Card = Card(movie: Movie, tag: Tag)

  const Limit := 8

  /** LIMIT 8 on an ordered query result. */
  function Take(rows: seq<Movie>): (r: seq<Movie>)
    ensures |r| <= Limit && |r| <= |rows| && r == rows[..|r|]
    ensures |rows| <= Limit ==> r == rows
  {
    if |rows| <= Limit then rows else rows[..Limit]
  }

  function IdsOf(cs: seq<Card>): set<int> {
    set c | c in cs :: c.movie.id
  }

  function MovieIds(ms: seq<Movie>): set<int> {
    set m | m in ms :: m.id
  }

  predicate UniqueIds(cs: seq<Card>) {
    forall i, j :: 0 <= i < j < |cs| ==> cs[i].movie.id != cs[j].movie.id
  }

  // ---------------------------------------------------------------- the merge, on values

  /** $allMovies[$id] = $card on an ordered array, seen as its list of values: an existing key
      keeps its place and takes the new value, a new key goes to the end. */
  function Put(cs: seq<Card>, c: Card): (r: seq<Card>)
    ensures forall d :: d in r ==> d in cs || d == c
    ensures c.movie.id !in IdsOf(cs) ==> r == cs + [c]
    ensures |r| <= |cs| + 1
  {
    if cs == [] then [c]
    else if cs[0].movie.id == c.movie.id then
      assert cs == [cs[0]] + cs[1..];
      [c] + cs[1..]
    else
      assert cs == [cs[0]] + cs[1..];
      [cs[0]] + Put(cs[1..], c)
  }

  /** The first loop over the rows read so far: each one tagged 'latest' and put by id. */
  function AfterLatest(latest: seq<Movie>): (r: seq<Card>)
    ensures |r| <= |latest|
    ensures forall c :: c in r ==> c.tag == LatestTag
  {
    if latest == [] then []
    else Put(AfterLatest(latest[..|latest| - 1]), Card(latest[|latest| - 1], LatestTag))
  }

  /** The second loop over the rows read so far: a row whose id is not yet a key is added, tagged
      'popular'; any other row is skipped. */
  function AfterPopular(start: seq<Card>, popular: seq<Movie>): (r: seq<Card>)
    ensures |start| <= |r| <= |start| + |popular| && r[..|start|] == start
    ensures forall k :: |start| <= k < |r| ==> r[k].tag == PopularTag && r[k].movie in popular
                                               && r[k].movie.id !in IdsOf(start)
  {
    if popular == [] then start
    else
      var a := AfterPopular(start, popular[..|popular| - 1]);
      var m := popular[|popular| - 1];
      if m.id in IdsOf(a) then a
      else
        assert forall k :: |start| <= k < |a| ==> a[k].movie in popular;
        a + [Card(m, PopularTag)]
  }

  /** The grid: both loops over the two query results. */
  function Merged(latestRows: seq<Movie>, popularRows: seq<Movie>): seq<Card> {
    AfterPopular(AfterLatest(Take(latestRows)), Take(popularRows))
  }

  lemma {:induction false} PutKeepsUnique(cs: seq<Card>, c: Card)
    requires UniqueIds(cs)
    ensures UniqueIds(Put(cs, c))
  {
    if cs != [] && cs[0].movie.id != c.movie.id {
      PutKeepsUnique(cs[1..], c);
      var r := Put(cs, c);
      assert r == [cs[0]] + Put(cs[1..], c);
      assert cs[0].movie.id !in IdsOf(cs[1..]) by {
        forall d | d in cs[1..] ensures d.movie.id != cs[0].movie.id {
          var k :| 0 <= k < |cs[1..]| && cs[1..][k] == d;
          assert cs[k + 1] == d;
        }
      }
      forall j | 1 <= j < |r| ensures r[j].movie.id != r[0].movie.id {
        assert r[j] in Put(cs[1..], c);
      }
    } else if cs != [] {
      var r := Put(cs, c);
      forall i, j | 0 <= i < j < |r| ensures r[i].movie.id != r[j].movie.id {
        assert r[j] == cs[j];
        if i > 0 {
          assert r[i] == cs[i];
        }
      }
    }
  }

  lemma {:induction false} LatestUnique(latest: seq<Movie>)
    ensures UniqueIds(AfterLatest(latest))
    ensures IdsOf(AfterLatest(latest)) == MovieIds(latest)
  {
    if latest != [] {
      var init, m := latest[..|latest| - 1], latest[|latest| - 1];
      LatestUnique(init);
      PutKeepsUnique(AfterLatest(init), Card(m, LatestTag));
      assert latest == init + [m];
      assert MovieIds(latest) == MovieIds(init) + {m.id};
      PutIds(AfterLatest(init), Card(m, LatestTag));
    }
  }

  /** Put adds exactly its card's id. */
  lemma {:induction false} PutIds(cs: seq<Card>, c: Card)
    ensures IdsOf(Put(cs, c)) == IdsOf(cs) + {c.movie.id}
  {
    if cs != [] {
      assert cs == [cs[0]] + cs[1..];
      if cs[0].movie.id == c.movie.id {
        assert IdsOf(cs) == {cs[0].movie.id} + IdsOf(cs[1..]);
        assert IdsOf([c] + cs[1..]) == {c.movie.id} + IdsOf(cs[1..]);
      } else {
        PutIds(cs[1..], c);
        assert IdsOf(cs) == {cs[0].movie.id} + IdsOf(cs[1..]);
        assert IdsOf([cs[0]] + Put(cs[1..], c)) == {cs[0].movie.id} + IdsOf(Put(cs[1..], c));
      }
    }
  }

  lemma {:induction false} PopularUnique(start: seq<Card>, popular: seq<Movie>)
    requires UniqueIds(start)
    ensures UniqueIds(AfterPopular(start, popular))
    ensures IdsOf(AfterPopular(start, popular)) == IdsOf(start) + MovieIds(popular)
  {
    if popular != [] {
      var n := |popular| - 1;
      var init, m := popular[..n], popular[n];
      PopularUnique(start, init);
      MovieIdsSnoc(init, m);
      assert popular[..n + 1] == popular;
      AfterPopularStep(start, popular, n);
      var a := AfterPopular(start, init);
      if m.id !in IdsOf(a) {
        CardsSnoc(a, Card(m, PopularTag));
      }
    }
  }

  lemma MovieIdsSnoc(ms: seq<Movie>, m: Movie)
    ensures MovieIds(ms + [m]) == MovieIds(ms) + {m.id}
  {
    var r := ms + [m];
    assert r[|ms|] == m;
    forall x | x in MovieIds(r) ensures x in MovieIds(ms) + {m.id} {
      var y :| y in r && y.id == x;
      var k :| 0 <= k < |r| && r[k] == y;
      if k < |ms| { assert ms[k] in ms; }
    }
    forall x | x in MovieIds(ms) ensures x in MovieIds(r) {
      var y :| y in ms && y.id == x;
      var k :| 0 <= k < |ms| && ms[k] == y;
      assert r[k] in r;
    }
  }

  /** Appending a card whose id is new keeps the ids unique and adds that id. */
  lemma CardsSnoc(cs: seq<Card>, c: Card)
    requires UniqueIds(cs) && c.movie.id !in IdsOf(cs)
    ensures UniqueIds(cs + [c])
    ensures IdsOf(cs + [c]) == IdsOf(cs) + {c.movie.id}
  {
    var r := cs + [c];
    forall i | 0 <= i < |cs| ensures r[i].movie.id != c.movie.id {
      assert cs[i] in cs;
    }
    assert r[|cs|] == c;
    forall x | x in IdsOf(r) ensures x in IdsOf(cs) + {c.movie.id} {
      var y :| y in r && y.movie.id == x;
      var k :| 0 <= k < |r| && r[k] == y;
      if k < |cs| { assert cs[k] in cs; }
    }
    forall x | x in IdsOf(cs) ensures x in IdsOf(r) {
      var y :| y in cs && y.movie.id == x;
      var k :| 0 <= k < |cs| && cs[k] == y;
      assert r[k] in r;
    }
  }

  /** The ids in the grid are unique, and they are exactly the ids of the two limited lists. */
  lemma MergedIds(latestRows: seq<Movie>, popularRows: seq<Movie>)
    ensures UniqueIds(Merged(latestRows, popularRows))
    ensures IdsOf(Merged(latestRows, popularRows)) == MovieIds(Take(latestRows)) + MovieIds(Take(popularRows))
    ensures |Merged(latestRows, popularRows)| <= 2 * Limit
  {
    LatestUnique(Take(latestRows));
    PopularUnique(AfterLatest(Take(latestRows)), Take(popularRows));
  }

  /** A movie in both lists keeps the tag 'latest'; every other card of a popular row is tagged
      'popular' and comes after all the latest ones. */
  lemma {:induction false} LatestTagWins(latestRows: seq<Movie>, popularRows: seq<Movie>)
    ensures var cs := Merged(latestRows, popularRows);
            var n := |AfterLatest(Take(latestRows))|;
      && (forall c :: c in cs && c.movie.id in MovieIds(Take(latestRows)) ==> c.tag == LatestTag)
      && (forall k :: 0 <= k < |cs| ==> (cs[k].tag == LatestTag <==> k < n))
  {
    var start := AfterLatest(Take(latestRows));
    var cs := Merged(latestRows, popularRows);
    LatestUnique(Take(latestRows));
    forall c | c in cs && c.movie.id in MovieIds(Take(latestRows)) ensures c.tag == LatestTag {
      var k :| 0 <= k < |cs| && cs[k] == c;
      assert k < |start|;
      assert cs[..|start|][k] == c;
      assert c in start;
    }
    forall k | 0 <= k < |start| ensures cs[k].tag == LatestTag {
      assert cs[..|start|][k] == cs[k];
      assert cs[k] in start;
    }
  }

  /** With distinct ids, the last row's id is not among the earlier rows'. */
  lemma LastIdNew(latest: seq<Movie>)
    requires latest != []
    requires forall i, j :: 0 <= i < j < |latest| ==> latest[i].id != latest[j].id
    ensures latest[|latest| - 1].id !in MovieIds(latest[..|latest| - 1])
  {
    var init := latest[..|latest| - 1];
    forall x | x in init ensures x.id != latest[|latest| - 1].id {
      var i :| 0 <= i < |init| && init[i] == x;
      assert latest[i] == x;
    }
  }

  /** With distinct ids, as a table's rows have, the latest rows come first, in their order. */
  lemma {:induction false} LatestInOrder(latest: seq<Movie>)
    requires forall i, j :: 0 <= i < j < |latest| ==> latest[i].id != latest[j].id
    ensures |AfterLatest(latest)| == |latest|
    ensures forall k :: 0 <= k < |latest| ==> AfterLatest(latest)[k] == Card(latest[k], LatestTag)
  {
    if latest != [] {
      var init, m := latest[..|latest| - 1], latest[|latest| - 1];
      LatestInOrder(init);
      LatestUnique(init);
      LastIdNew(latest);
      assert m.id !in IdsOf(AfterLatest(init));
      var r := AfterLatest(latest);
      assert r == AfterLatest(init) + [Card(m, LatestTag)];
      forall k | 0 <= k < |latest| ensures r[k] == Card(latest[k], LatestTag) {
        if k < |init| {
          assert latest[k] == init[k];
        }
      }
    }
  }

  // ---------------------------------------------------------------- the merge, in place

  /** The values of an ordered PHP array, in key order. */
  function Listed(keys: seq<int>, byId: map<int, Card>): (r: seq<Card>)
    requires forall i :: 0 <= i < |keys| ==> keys[i] in byId
    ensures |r| == |keys| && forall i :: 0 <= i < |keys| ==> r[i] == byId[keys[i]]
  {
    seq(|keys|, i requires 0 <= i < |keys| => byId[keys[i]])
  }

  /** The shape of $allMovies: each key once, keyed by the card's movie id. */
  predicate Keyed(keys: seq<int>, byId: map<int, Card>) {
    && (forall i, j :: 0 <= i < j < |keys| ==> keys[i] != keys[j])
    && byId.Keys == set k | k in keys
    && (forall k :: k in byId ==> byId[k].movie.id == k)
  }

  lemma KeyedIds(keys: seq<int>, byId: map<int, Card>)
    requires Keyed(keys, byId)
    ensures UniqueIds(Listed(keys, byId))
    ensures IdsOf(Listed(keys, byId)) == byId.Keys
  {
    var cs := Listed(keys, byId);
    forall k | k in byId ensures k in IdsOf(cs) {
      var i :| 0 <= i < |keys| && keys[i] == k;
      assert cs[i] in cs;
    }
  }

  /** Replacing the card of a present id is Put on the list of values. */
  lemma {:induction false} PutReplaces(cs: seq<Card>, c: Card, j: nat)
    requires UniqueIds(cs) && j < |cs| && cs[j].movie.id == c.movie.id
    ensures Put(cs, c) == cs[j := c]
  {
    if j > 0 {
      assert cs[0].movie.id != c.movie.id;
      PutReplaces(cs[1..], c, j - 1);
      assert cs[1..][j - 1 := c] == cs[j := c][1..];
    }
  }

  /** $allMovies[$id] = $card for an id already a key: the value changes in place. */
  lemma PutPresent(keys: seq<int>, byId: map<int, Card>, c: Card)
    requires Keyed(keys, byId) && c.movie.id in byId
    ensures Keyed(keys, byId[c.movie.id := c])
    ensures Listed(keys, byId[c.movie.id := c]) == Put(Listed(keys, byId), c)
  {
    assert Keyed(keys, byId[c.movie.id := c]) by {
      assert byId[c.movie.id := c].Keys == byId.Keys;
    }
    assert Listed(keys, byId[c.movie.id := c]) == Put(Listed(keys, byId), c) by {
      assert c.movie.id in (set k | k in keys);
      var j :| 0 <= j < |keys| && keys[j] == c.movie.id;
      KeyedIds(keys, byId);
      PutReplaces(Listed(keys, byId), c, j);
      ReplaceAtKey(keys, byId, c, j);
    }
  }

  lemma ReplaceAtKey(keys: seq<int>, byId: map<int, Card>, c: Card, j: nat)
    requires forall i :: 0 <= i < |keys| ==> keys[i] in byId
    requires forall i, k :: 0 <= i < k < |keys| ==> keys[i] != keys[k]
    requires j < |keys| && keys[j] == c.movie.id
    ensures Listed(keys, byId[c.movie.id := c]) == Listed(keys, byId)[j := c]
  {
    var byId2 := byId[c.movie.id := c];
    forall i | 0 <= i < |keys| ensures Listed(keys, byId2)[i] == Listed(keys, byId)[j := c][i] {
      if i < j {
        assert keys[i] != keys[j];
      } else if i > j {
        assert keys[j] != keys[i];
      }
    }
  }

  /** $allMovies[$id] = $card for a new id: the key goes to the end. */
  lemma PutAbsent(keys: seq<int>, byId: map<int, Card>, c: Card)
    requires Keyed(keys, byId) && c.movie.id !in byId
    ensures Keyed(keys + [c.movie.id], byId[c.movie.id := c])
    ensures Listed(keys + [c.movie.id], byId[c.movie.id := c]) == Put(Listed(keys, byId), c)
  {
    KeyedIds(keys, byId);
    var keys2 := keys + [c.movie.id];
    assert (set k | k in keys2) == (set k | k in keys) + {c.movie.id};
    assert Listed(keys2, byId[c.movie.id := c]) == Listed(keys, byId) + [c];
  }

  /** The first while loop: every latest row, tagged 'latest', assigned under its id. */
  method PutLatest(latest: seq<Movie>) returns (keys: seq<int>, byId: map<int, Card>)
    ensures Keyed(keys, byId)
    ensures Listed(keys, byId) == AfterLatest(latest)
  {
    keys, byId := [], map[];
    var i := 0;
    while i < |latest|
      invariant 0 <= i <= |latest|
      invariant Keyed(keys, byId)
      invariant Listed(keys, byId) == AfterLatest(latest[..i])
    {
      var card := Card(latest[i], LatestTag);
      assert latest[..i + 1][..i] == latest[..i];
      if card.movie.id in byId {
        PutPresent(keys, byId, card);
      } else {
        PutAbsent(keys, byId, card);
        keys := keys + [card.movie.id];
      }
      byId := byId[card.movie.id := card];
      i := i + 1;
    }
    assert latest[..i] == latest;
  }

  /** One more popular row: added when its id is not yet listed, skipped otherwise. */
  lemma AfterPopularStep(start: seq<Card>, popular: seq<Movie>, i: nat)
    requires i < |popular|
    ensures var a := AfterPopular(start, popular[..i]);
      AfterPopular(start, popular[..i + 1])
      == if popular[i].id in IdsOf(a) then a else a + [Card(popular[i], PopularTag)]
  {
    assert popular[..i + 1][..i] == popular[..i];
  }

  /** The second while loop: a popular row is assigned, tagged 'popular', only when its id is
      not yet a key. */
  method AddPopular(keys0: seq<int>, byId0: map<int, Card>, popular: seq<Movie>) returns (keys: seq<int>, byId: map<int, Card>)
    requires Keyed(keys0, byId0)
    ensures Keyed(keys, byId)
    ensures Listed(keys, byId) == AfterPopular(Listed(keys0, byId0), popular)
  {
    keys, byId := keys0, byId0;
    var i := 0;
    while i < |popular|
      invariant 0 <= i <= |popular|
      invariant Keyed(keys, byId)
      invariant Listed(keys, byId) == AfterPopular(Listed(keys0, byId0), popular[..i])
    {
      var m := popular[i];
      AfterPopularStep(Listed(keys0, byId0), popular, i);
      KeyedIds(keys, byId);
      if m.id !in byId {
        PutAbsent(keys, byId, Card(m, PopularTag));
        keys, byId := keys + [m.id], byId[m.id := Card(m, PopularTag)];
      }
      i := i + 1;
    }
    assert popular[..i] == popular;
  }

  /** Both loops of the page over one id-keyed array: its values in key order are the grid. */
  method MergeCards(latestRows: seq<Movie>, popularRows: seq<Movie>) returns (keys: seq<int>, byId: map<int, Card>)
    ensures Keyed(keys, byId)
    ensures Listed(keys, byId) == Merged(latestRows, popularRows)
  {
    keys, byId := PutLatest(Take(latestRows));
    keys, byId := AddPopular(keys, byId, Take(popularRows));
  }

  // ---------------------------------------------------------------- a card's badges

  /** The 'Popular' badge: a rating of at least 4.0 (ratings in tenths). */
  predicate IsPopular(m: Movie) {
    m.rating >= 40
  }

  /** The 'New' badge: created within the last seven days of `now` (seconds). */
  predicate IsNew(m: Movie, now: int) {
    m.createdAt > now - 7 * 24 * 60 * 60
  }

  /** The card's image: the dashboard's poster chain on the row. */
  function CardPoster(c: Card): (r: string)
    ensures r == Dashboard.Placeholder || r == c.movie.posterUrl
    ensures !Empty(Some(c.movie.posterUrl)) ==> r == c.movie.posterUrl
  {
    Dashboard.PosterChoice(Dashboard.FieldsOf(c.movie))
  }

  /** The badge and the tag are independent: a row that only the rating query returned can carry
      a rating under 4.0 and so no badge, and a 'latest' card can carry the badge. */
  lemma BadgeIndependentOfTag(m: Movie)
    requires m.rating < 40
    ensures Merged([], [m]) == [Card(m, PopularTag)] && !IsPopular(m)
    ensures Merged([m.(rating := 45)], []) == [Card(m.(rating := 45), LatestTag)] && IsPopular(m.(rating := 45))
  {
    assert [m][..0] == [];
    assert [m.(rating := 45)][..0] == [];
  }

  // ---------------------------------------------------------------- the filter buttons

  const FilterAll := "all"

  function TagName(t: Tag): string {
    match t
    case LatestTag => "latest"
    case PopularTag => "popular"
  }

  /** A card is displayed iff the filter is 'all' or names the card's tag. */
  predicate Shows(filter: string, t: Tag) {
    filter == FilterAll || filter == TagName(t)
  }

  /** 'all' shows every card, and each card is shown by exactly one of the other two filters. */
  lemma FiltersPartition(t: Tag)
    ensures Shows(FilterAll, t)
    ensures Shows("latest", t) != Shows("popular", t)
    ensures Shows("latest", t) <==> t == LatestTag
  {
  }

  /** A click on button `clicked`: the 'active' class is removed from all buttons and added to
      the one clicked. */
  method ClickFilter(active: array<bool>, clicked: nat)
    requires clicked < active.Length
    modifies active
    ensures forall i :: 0 <= i < active.Length ==> (active[i] <==> i == clicked)
  {
    var i := 0;
    while i < active.Length
      invariant 0 <= i <= active.Length
      invariant forall k :: 0 <= k < i ==> !active[k]
    {
      active[i] := false;
      i := i + 1;
    }
    active[clicked] := true;
  }

  /** The display of each card after a click: shown iff the filter admits its tag. */
  method ApplyFilter(filter: string, tags: seq<Tag>, shown: array<bool>)
    requires shown.Length == |tags|
    modifies shown
    ensures forall i :: 0 <= i < |tags| ==> (shown[i] <==> Shows(filter, tags[i]))
  {
    var i := 0;
    while i < |tags|
      invariant 0 <= i <= |tags|
      invariant forall k :: 0 <= k < i ==> (shown[k] <==> Shows(filter, tags[k]))
    {
      shown[i] := filter == FilterAll || filter == TagName(tags[i]);
      i := i + 1;
    }
  }
}
