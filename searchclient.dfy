/** assets/js/search.js: the search box's dropdown. A trimmed term of at least two characters is
    looked up first among the movie cards on the page and, only when none matches, through
    search.php in AJAX mode; the results can be walked with the arrow keys and opened with Enter. */
module SearchClient {
  import opened Php
  import opened Store
  import Search

  // ---------------------------------------------------------------- String.prototype.trim

  /** The WhiteSpace and LineTerminator characters of ECMA-262, which trim() strips. Unlike PHP's
      trim, '\0' is not among them. */
  predicate IsJsSpace(c: char) {
    || c == ' ' || c == '\t' || c == '\n' || c == '\r' || c == '\U{B}' || c == '\U{C}'
    || c == '\U{A0}' || c == '\U{1680}' || ('\U{2000}' <= c <= '\U{200A}')
    || c == '\U{2028}' || c == '\U{2029}' || c == '\U{202F}' || c == '\U{205F}'
    || c == '\U{3000}' || c == '\U{FEFF}'
  }

  function JsTrimLeft(s: string): (r: string)
    ensures |r| <= |s| && r == s[|s| - |r|..]
    ensures r == [] || !IsJsSpace(r[0])
  {
    if s != [] && IsJsSpace(s[0]) then JsTrimLeft(s[1..]) else s
  }

  function JsTrimRight(s: string): (r: string)
    ensures |r| <= |s| && r == s[..|r|]
    ensures r == [] || !IsJsSpace(r[|r| - 1])
  {
    if s != [] && IsJsSpace(s[|s| - 1]) then JsTrimRight(s[..|s| - 1]) else s
  }

  /** value.trim(): neither end of the result is white space. */
  function JsTrim(s: string): (r: string)
    ensures |r| <= |s|
    ensures r == [] || (!IsJsSpace(r[0]) && !IsJsSpace(r[|r| - 1]))
  {
    var l := JsTrimLeft(s);
    var r := JsTrimRight(l);
    assert r != [] ==> r[0] == l[0];
    r
  }

  /** Trimming a trimmed term changes nothing. */
  lemma JsTrimIdempotent(s: string)
    ensures JsTrim(JsTrim(s)) == JsTrim(s)
  {
    var t := JsTrim(s);
    assert JsTrimLeft(t) == t;
    assert JsTrimRight(t) == t;
  }

  // ---------------------------------------------------------------- when a search starts

  /** What typing or focusing asks of the dropdown. */
  datatype TypingAction = Keep | Hide | Lookup(term: string)

  /** What submitting the form does. */
  datatype SubmitAction =
    | Blocked              // preventDefault: the term is too short
    | Open(url: string)    // the active dropdown item is opened instead
    | SubmitForm           // the normal GET to search.php

  /** The one threshold of the script: a trimmed term of at least two characters. */
  predicate Searchable(value: string) {
    |JsTrim(value)| >= 2
  }

  /** handleSearchFocus: search again when the box regains focus with a long enough term. */
  function OnFocus(value: string): TypingAction {
    if |JsTrim(value)| >= 2 then Lookup(JsTrim(value)) else Keep
  }

  /** handleSearchInput (after the debounce): hide the dropdown for a short term, search otherwise. */
  function OnInput(value: string): TypingAction {
    if |JsTrim(value)| < 2 then Hide else Lookup(JsTrim(value))
  }

  /** The submit listener: `activeUrl` is the data-url of the item marked active, if any, and
      `shown` whether the dropdown is displayed. */
  function OnSubmit(value: string, activeUrl: Option<string>, shown: bool): SubmitAction {
    if |JsTrim(value)| < 2 then Blocked
    else if activeUrl.Some? && shown then Open(activeUrl.value)
    else SubmitForm
  }

  /** The three listeners apply the same threshold, and a term that is looked up is the trimmed
      value, at least two characters long, with nothing left to trim. */
  lemma GatingAgrees(value: string, activeUrl: Option<string>, shown: bool)
    ensures OnFocus(value).Lookup? <==> Searchable(value)
    ensures OnInput(value).Lookup? <==> Searchable(value)
    ensures OnSubmit(value, activeUrl, shown).Blocked? <==> !Searchable(value)
    ensures OnInput(value).Hide? <==> !Searchable(value)
    ensures OnFocus(value).Lookup? ==> OnFocus(value) == OnInput(value)
    ensures OnInput(value).Lookup? ==>
      var t := OnInput(value).term; |t| >= 2 && t == JsTrim(value) && JsTrim(t) == t
  {
    JsTrimIdempotent(value);
  }

  // ---------------------------------------------------------------- the client-side match

  /** A .movie-card as the script reads it: the title's text, whether it has a link to
      movie.php, that link's id parameter (null when absent), the poster's src and the price text. */
  datatype Card = Card(title: string, hasLink: bool, idParam: Option<string>, image: string, price: string)

  /** One object pushed onto the results. */
  datatype Hit = Hit(id: string, title: string, image: string, price: string)

  /** t occurs in s at position i. */
  predicate OccursAt(s: string, t: string, i: nat) {
    i + |t| <= |s| && s[i..i + |t|] == t
  }

  /** s.includes(t). */
  predicate Contains(s: string, t: string) {
    exists i: nat :: i <= |s| && OccursAt(s, t, i)
  }

  /** title.toLowerCase().includes(termLower) && link. */
  predicate CardMatches(c: Card, term: string) {
    Contains(Lower(c.title), Lower(term)) && c.hasLink
  }

  /** The id a template literal prints: the parameter, or "null" when URLSearchParams has none. */
  function IdText(p: Option<string>): string {
    if p.Some? then p.value else "null"
  }

  function HitOf(c: Card): (h: Hit)
    ensures h.title == c.title && h.image == c.image && h.price == c.price
  {
    Hit(IdText(c.idParam), c.title, c.image, c.price)
  }

  /** The hits of performClientSideSearch, in card order. */
  function ClientHits(cards: seq<Card>, term: string): (r: seq<Hit>)
    ensures |r| <= |cards|
  {
    if cards == [] then []
    else
      var last := cards[|cards| - 1];
      ClientHits(cards[..|cards| - 1], term) + (if CardMatches(last, term) then [HitOf(last)] else [])
  }

  /** The hits are exactly those of the matching cards: every hit comes from a matching card and
      every matching card gives a hit. */
  lemma {:induction false} ClientHitsAreMatchingCards(cards: seq<Card>, term: string)
    ensures forall h :: h in ClientHits(cards, term) ==> exists c :: c in cards && CardMatches(c, term) && h == HitOf(c)
    ensures forall c :: c in cards && CardMatches(c, term) ==> HitOf(c) in ClientHits(cards, term)
  {
    if cards != [] {
      var init := cards[..|cards| - 1];
      ClientHitsAreMatchingCards(init, term);
      assert cards == init + [cards[|cards| - 1]];
      forall c | c in cards && CardMatches(c, term) ensures HitOf(c) in ClientHits(cards, term) {
        if c in init {
          assert HitOf(c) in ClientHits(init, term);
        }
      }
    }
  }

  /** The forEach over the cards, pushing a hit for each match. */
  method ClientSearch(cards: seq<Card>, term: string) returns (results: seq<Hit>)
    ensures results == ClientHits(cards, term)
  {
    var termLower := Lower(term);
    results := [];
    var i := 0;
    while i < |cards|
      invariant 0 <= i <= |cards|
      invariant results == ClientHits(cards[..i], term)
    {
      var card := cards[i];
      assert cards[..i + 1][..i] == cards[..i];
      if Contains(Lower(card.title), termLower) && card.hasLink {
        results := results + [HitOf(card)];
      }
      i := i + 1;
    }
    assert cards[..i] == cards;
  }

  /** Lower-casing both sides and testing includes is the server's case-insensitive substring test
      (both on ASCII letters only). */
  lemma LowerContainsIsIgnoringCase(s: string, q: string)
    ensures Contains(Lower(s), Lower(q)) <==> Search.ContainsIgnoringCase(s, q)
  {
    forall i: nat | i <= |s|
      ensures OccursAt(Lower(s), Lower(q), i) <==> Search.SamePrefix(q, s[i..])
    {
      if i + |q| <= |s| {
        if Lower(s)[i..i + |q|] == Lower(q) {
          forall k | 0 <= k < |q| ensures Search.SameLetter(s[i..][k], q[k]) {
            assert Lower(s)[i..i + |q|][k] == Lower(q)[k];
          }
        }
        if Search.SamePrefix(q, s[i..]) {
          forall k | 0 <= k < |q| ensures Lower(s)[i..i + |q|][k] == Lower(q)[k] {
            assert Search.SameLetter(s[i..][k], q[k]);
          }
        }
      }
    }
    if Contains(Lower(s), Lower(q)) {
      var i: nat :| i <= |Lower(s)| && OccursAt(Lower(s), Lower(q), i);
      assert Search.SamePrefix(q, s[i..]);
    }
    if Search.ContainsIgnoringCase(s, q) {
      var i :| 0 <= i <= |s| && Search.SamePrefix(q, s[i..]);
      assert OccursAt(Lower(s), Lower(q), i);
    }
  }

  /** For a term without '%' or '_', a card on the page matches exactly when the server's LIKE on
      its title would. */
  lemma ClientAgreesWithServerOnTitles(c: Card, term: string)
    requires c.hasLink && Search.NoWildcards(term)
    ensures CardMatches(c, term) <==> Search.Like(c.title, Search.Pattern(term))
  {
    LowerContainsIsIgnoringCase(c.title, term);
    Search.LikeIsSubstring(c.title, term);
  }

  // ---------------------------------------------------------------- the dropdown

  /** One .search-result-item: its data-url, title and image. */
  datatype Item = Item(url: string, title: string, image: string)

  datatype Dropdown =
    | Hidden
    | NoResults          // "No movies found"
    | Items(items: seq<Item>)

  const PlaceholderImage := "assets/images/placeholder.jpg"

  /** movie.image || movie.poster_url || the placeholder. */
  function ImageOf(image: string, posterUrl: string): (r: string)
    ensures r != ""
    ensures image != "" ==> r == image
  {
    if image != "" then image else if posterUrl != "" then posterUrl else PlaceholderImage
  }

  function Url(id: string): string {
    "movie.php?id=" + id
  }

  function ItemsOfHits(hits: seq<Hit>): (r: seq<Item>)
    ensures |r| == |hits|
    ensures forall k :: 0 <= k < |hits| ==> r[k] == Item(Url(hits[k].id), hits[k].title, ImageOf(hits[k].image, ""))
  {
    seq(|hits|, k requires 0 <= k < |hits| => Item(Url(hits[k].id), hits[k].title, ImageOf(hits[k].image, "")))
  }

  /** The server's JSON rows carry no `image`, so their poster_url is used. */
  function ItemsOfMovies(movies: seq<Movie>): (r: seq<Item>)
    ensures |r| == |movies|
    ensures forall k :: 0 <= k < |movies| ==>
      r[k] == Item(Url(IntToString(movies[k].id)), movies[k].title, ImageOf("", movies[k].posterUrl))
  {
    seq(|movies|, k requires 0 <= k < |movies| =>
      Item(Url(IntToString(movies[k].id)), movies[k].title, ImageOf("", movies[k].posterUrl)))
  }

  /** displayResults: the message for an empty list, the items otherwise; either way it is shown. */
  function Display(items: seq<Item>): (d: Dropdown)
    ensures d != Hidden
    ensures d.NoResults? <==> items == []
  {
    if items == [] then NoResults else Items(items)
  }

  /** performSearch: the cards first; only without a client hit is search.php asked with ajax=1.
      `rows` and `dbFault` are what the server reads, `netFail` a fetch that rejects, after which
      the dropdown stays as it was. */
  function PerformSearch(term: string, cards: seq<Card>, prior: Dropdown, rows: seq<Movie>, dbFault: bool, netFail: bool)
    : Dropdown
  {
    var hits := ClientHits(cards, term);
    if hits != [] then Display(ItemsOfHits(hits))
    else if netFail then prior
    else
      match Search.SearchSpec(Some(term), Some("1"), rows, dbFault)
      case Json(movies, _) => Display(ItemsOfMovies(movies))
      case _ => prior
  }

  /** A term found on the page is answered from the page: the server, the network and the
      dropdown before play no part. */
  lemma ServerOnlyWithoutClientHit(term: string, cards: seq<Card>, prior1: Dropdown, prior2: Dropdown,
                                   rows1: seq<Movie>, rows2: seq<Movie>, dbFault1: bool, dbFault2: bool,
                                   netFail1: bool, netFail2: bool)
    requires exists c :: c in cards && CardMatches(c, term)
    ensures PerformSearch(term, cards, prior1, rows1, dbFault1, netFail1)
         == PerformSearch(term, cards, prior2, rows2, dbFault2, netFail2)
         == Items(ItemsOfHits(ClientHits(cards, term)))
  {
    ClientHitsAreMatchingCards(cards, term);
    var c :| c in cards && CardMatches(c, term);
    assert HitOf(c) in ClientHits(cards, term);
  }

  /** Without a hit on the page, the dropdown lists search.php's answer: every movie whose title or
      description matches the server's trimmed term, in its ranked order, or "No movies found". */
  lemma FetchListsServerMatches(term: string, cards: seq<Card>, prior: Dropdown, rows: seq<Movie>)
    requires ClientHits(cards, term) == []
    requires !Empty(Some(Trim(term)))
    ensures var d := PerformSearch(term, cards, prior, rows, false, false);
            var found := Search.SortByRank(Search.Filter(rows, Trim(term)));
      && d == Display(ItemsOfMovies(found))
      && Search.Ranked(found)
      && (forall m :: m in found <==> m in rows && Search.Matches(m, Trim(term)))
  {
    Search.ResultsAreRankedMatches(Some(term), Some("1"), rows);
  }

  /** A database error on the server shows "No movies found"; a failed fetch leaves the dropdown. */
  lemma ServerErrorsShowNothingFound(term: string, cards: seq<Card>, prior: Dropdown, rows: seq<Movie>)
    requires ClientHits(cards, term) == []
    ensures PerformSearch(term, cards, prior, rows, true, false) == NoResults
    ensures PerformSearch(term, cards, prior, rows, false, true) == prior
  {
  }

  // ---------------------------------------------------------------- keyboard navigation

  datatype Key = ArrowDown | ArrowUp | Enter | OtherKey

  /** The index of the first item marked active (querySelector's choice), or -1. */
  function FirstActive(flags: seq<bool>): (r: int)
    ensures -1 <= r < |flags|
    ensures r >= 0 ==> flags[r] && forall k :: 0 <= k < r ==> !flags[k]
    ensures r == -1 <==> forall k :: 0 <= k < |flags| ==> !flags[k]
  {
    if flags == [] then -1
    else if flags[0] then 0
    else
      var r := FirstActive(flags[1..]);
      if r == -1 then -1 else r + 1
  }

  /** The flags after updateActiveItem(items, idx): the item at idx, and it alone, is active. */
  function Selected(n: nat, idx: int): (r: seq<bool>)
    ensures |r| == n
  {
    seq(n, k => k == idx)
  }

  /** Reading the selection back gives the index that was selected. */
  lemma FirstActiveOfSelected(n: nat, idx: int)
    requires 0 <= idx < n
    ensures FirstActive(Selected(n, idx)) == idx
  {
    var r := FirstActive(Selected(n, idx));
    assert Selected(n, idx)[idx];
  }

  /** ArrowDown: (activeIndex + 1) % items.length; the operand is never negative here, so the
      JavaScript and Dafny remainders agree. */
  function NextIndex(i: int, n: int): (r: int)
    requires -1 <= i < n && n > 0
    ensures 0 <= r < n
    ensures r == (if i == n - 1 then 0 else i + 1)
  {
    (i + 1) % n
  }

  /** ArrowUp as written: (activeIndex - 1 + items.length) % items.length. With one item and none
      active the operand is -1, where JavaScript yields -0, which === 0; Dafny's 0 agrees. */
  function PrevIndexAsWritten(i: int, n: int): (r: int)
    requires -1 <= i < n && n > 0
    ensures 0 <= r < n
  {
    (i - 1 + n) % n
  }

  /** ArrowUp as intended: the previous item, wrapping from the first, or from no selection, to the
      last. */
  function PrevIndex(i: int, n: int): (r: int)
    requires -1 <= i < n && n > 0
    ensures 0 <= r < n
  {
    if i <= 0 then n - 1 else i - 1
  }

  /** With nothing active, ArrowUp as written lands on the second-to-last of three items rather
      than on the last. */
  lemma ArrowUpFromNothingAsWritten()
    ensures PrevIndexAsWritten(-1, 3) == 1
    ensures PrevIndex(-1, 3) == 2
  {
  }

  /** The written formula is off by one exactly when nothing is active and there are two items or
      more; from a selected item it agrees with the intended step. */
  lemma PrevIndexAsWrittenDiffers(i: int, n: int)
    requires -1 <= i < n && n > 0
    ensures i == -1 && n >= 2 ==> PrevIndexAsWritten(i, n) == n - 2 != PrevIndex(i, n)
    ensures (i >= 0 || n == 1) ==> PrevIndexAsWritten(i, n) == PrevIndex(i, n)
  {
  }

  /** ArrowUp undoes ArrowDown and ArrowDown undoes ArrowUp on a selected item; from no selection
      they select the first and the last item. */
  lemma PrevNextInverse(i: int, n: int)
    requires n > 0
    ensures 0 <= i < n ==> PrevIndex(NextIndex(i, n), n) == i && NextIndex(PrevIndex(i, n), n) == i
    ensures NextIndex(-1, n) == 0 && PrevIndex(-1, n) == n - 1
  {
  }

  /** The keydown listener on the flags of the displayed items: nothing happens without items or
      while the dropdown is hidden; the arrows move the selection; Enter opens the active item's
      data-url (without an active item Enter falls through to the form's submit). */
  function KeySpec(key: Key, flags: seq<bool>, urls: seq<string>, shown: bool): (r: (seq<bool>, Option<string>))
    requires |flags| == |urls|
    ensures |r.0| == |flags|
  {
    var n := |flags|;
    if n == 0 || !shown then (flags, None)
    else
      var i := FirstActive(flags);
      match key
      case ArrowDown => (Selected(n, NextIndex(i, n)), None)
      case ArrowUp => (Selected(n, PrevIndex(i, n)), None)
      case Enter => (flags, if i >= 0 then Some(urls[i]) else None)
      case OtherKey => (flags, None)
  }

  /** The forEach that finds the active item's index. */
  method FindActive(active: array<bool>) returns (activeIndex: int)
    ensures activeIndex == FirstActive(active[..])
  {
    activeIndex := -1;
    var k := 0;
    while k < active.Length
      invariant 0 <= k <= active.Length
      invariant -1 <= activeIndex < k
      invariant activeIndex == -1 <==> forall j :: 0 <= j < k ==> !active[j]
      invariant activeIndex >= 0 ==> active[activeIndex] && forall j :: 0 <= j < activeIndex ==> !active[j]
    {
      if active[k] && activeIndex == -1 {
        activeIndex := k;
      }
      k := k + 1;
    }
  }

  /** updateActiveItem: the item at activeIndex gets the class, every other item loses it. */
  method UpdateActiveItem(active: array<bool>, activeIndex: int)
    modifies active
    ensures active[..] == Selected(active.Length, activeIndex)
  {
    var k := 0;
    while k < active.Length
      invariant 0 <= k <= active.Length
      invariant forall j :: 0 <= j < k ==> active[j] == (j == activeIndex)
    {
      active[k] := k == activeIndex;
      k := k + 1;
    }
  }

  /** The mouseover listener: every item loses the class, then the hovered one gets it. */
  method Hover(active: array<bool>, hovered: int)
    requires 0 <= hovered < active.Length
    modifies active
    ensures active[..] == Selected(active.Length, hovered)
  {
    var k := 0;
    while k < active.Length
      invariant 0 <= k <= active.Length
      invariant forall j :: 0 <= j < k ==> !active[j]
    {
      active[k] := false;
      k := k + 1;
    }
    active[hovered] := true;
  }

  /** One keydown in the search box; `active` holds the items' active flags and `urls` their
      data-url attributes. */
  method HandleKey(key: Key, active: array<bool>, urls: seq<string>, shown: bool) returns (open: Option<string>)
    requires active.Length == |urls|
    modifies active
    ensures (active[..], open) == KeySpec(key, old(active[..]), urls, shown)
  {
    open := None;
    if active.Length == 0 || !shown {
      return;
    }
    var activeIndex := FindActive(active);
    if key == ArrowDown {
      activeIndex := NextIndex(activeIndex, active.Length);
      UpdateActiveItem(active, activeIndex);
    }
    if key == ArrowUp {
      activeIndex := PrevIndex(activeIndex, active.Length);
      UpdateActiveItem(active, activeIndex);
    }
    if key == Enter && activeIndex >= 0 {
      open := Some(urls[activeIndex]);
    }
  }

  /** Only the arrows change the selection, and a URL is opened only by Enter on an active item. */
  lemma OnlyEnterOnActiveOpens(key: Key, flags: seq<bool>, urls: seq<string>, shown: bool)
    requires |flags| == |urls|
    ensures key != ArrowDown && key != ArrowUp ==> KeySpec(key, flags, urls, shown).0 == flags
    ensures KeySpec(key, flags, urls, shown).1.Some? <==> key == Enter && shown && FirstActive(flags) >= 0
  {
  }

  /** After an arrow key on a shown, non-empty list exactly one item is active. */
  lemma ArrowsSelectExactlyOne(key: Key, flags: seq<bool>, urls: seq<string>)
    requires |flags| == |urls| && flags != [] && (key == ArrowDown || key == ArrowUp)
    ensures var f := KeySpec(key, flags, urls, true).0;
      exists j :: 0 <= j < |f| && f == Selected(|f|, j) && FirstActive(f) == j
  {
    var n := |flags|;
    var i := FirstActive(flags);
    var j := if key == ArrowDown then NextIndex(i, n) else PrevIndex(i, n);
    FirstActiveOfSelected(n, j);
  }

  /** ArrowDown then ArrowUp, or ArrowUp then ArrowDown, returns to the item that was active. */
  lemma ArrowsUndoEachOther(n: nat, i: int, urls: seq<string>)
    requires 0 <= i < n && |urls| == n
    ensures KeySpec(ArrowUp, KeySpec(ArrowDown, Selected(n, i), urls, true).0, urls, true).0 == Selected(n, i)
    ensures KeySpec(ArrowDown, KeySpec(ArrowUp, Selected(n, i), urls, true).0, urls, true).0 == Selected(n, i)
  {
    FirstActiveOfSelected(n, i);
    FirstActiveOfSelected(n, NextIndex(i, n));
    FirstActiveOfSelected(n, PrevIndex(i, n));
    PrevNextInverse(i, n);
  }

  /** Enter opens the active item, and an item reached by hovering or by the arrows is the one
      Enter opens. */
  lemma EnterOpensSelected(n: nat, i: int, urls: seq<string>)
    requires 0 <= i < n && |urls| == n
    ensures KeySpec(Enter, Selected(n, i), urls, true) == (Selected(n, i), Some(urls[i]))
  {
    FirstActiveOfSelected(n, i);
  }

  /** With no items, or while the dropdown is hidden, a key changes nothing and opens nothing. */
  lemma KeysIgnoredWhenHidden(key: Key, flags: seq<bool>, urls: seq<string>, shown: bool)
    requires |flags| == |urls| && (flags == [] || !shown)
    ensures KeySpec(key, flags, urls, shown) == (flags, None)
  {
  }
}
