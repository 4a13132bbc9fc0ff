/** checkout.php: the session cart is replaced or checked, resolved against the catalogue, written
    as one completed order with one line item per resolved entry inside a transaction, and then
    cleared; otherwise the page shows the resolved cart with 7% tax. */
module Checkout {
  import opened Php
  import opened Store
  import opened Sessions
  import opened Config

  /** A cart entry that resolved: the movie and the price the catalogue lists for it now. */
  datatype Line = Line(movieId: int, price: int)

  /** The foreach over the cart: entries whose movie exists and whose lookup (at cart position k)
      does not throw give a line, in cart order; the others are skipped. */
  function Resolve(cart: seq<int>, movies: map<int, Movie>, fails: set<nat>): (r: seq<Line>)
    ensures |r| <= |cart|
    ensures forall l :: l in r ==> l.movieId in movies && l.price == movies[l.movieId].price
    ensures forall l :: l in r ==> l.movieId in cart
  {
    if cart == [] then []
    else
      var k := |cart| - 1;
      var rest := Resolve(cart[..k], movies, fails);
      assert forall l :: l in rest ==> l.movieId in cart by {
        forall l | l in rest ensures l.movieId in cart {
          var j :| 0 <= j < k && cart[..k][j] == l.movieId;
          assert cart[j] == l.movieId;
        }
      }
      if k !in fails && cart[k] in movies then rest + [Line(cart[k], movies[cart[k]].price)] else rest
  }

  /** The sum of the line prices ($totalAmount and $subtotal). */
  function Sum(lines: seq<Line>): int {
    if lines == [] then 0 else Sum(lines[..|lines| - 1]) + lines[|lines| - 1].price
  }

  function Ids(lines: seq<Line>): (ids: seq<int>)
    ensures |ids| == |lines|
    ensures forall k :: 0 <= k < |lines| ==> ids[k] == lines[k].movieId
  {
    seq(|lines|, k requires 0 <= k < |lines| => lines[k].movieId)
  }

  /** The resolution loop: proved to compute Resolve and its Sum. */
  method ResolveCart(cart: seq<int>, movies: map<int, Movie>, fails: set<nat>) returns (lines: seq<Line>, total: int)
    ensures lines == Resolve(cart, movies, fails)
    ensures total == Sum(lines)
  {
    lines, total := [], 0;
    var i := 0;
    while i < |cart|
      invariant 0 <= i <= |cart|
      invariant lines == Resolve(cart[..i], movies, fails)
      invariant total == Sum(lines)
    {
      assert cart[..i + 1][..i] == cart[..i];
      var movieId := cart[i];
      if i !in fails && movieId in movies {
        var line := Line(movieId, movies[movieId].price);
        assert (lines + [line])[..|lines|] == lines;
        lines := lines + [line];
        total := total + line.price;
      }
      i := i + 1;
    }
    assert cart[..|cart|] == cart;
  }

  /** The cart entry at position k, if it is charged: its lookup does not throw and finds the movie. */
  function Charged(cart: seq<int>, movies: map<int, Movie>, fails: set<nat>, k: nat): seq<int>
    requires k < |cart|
  {
    if k !in fails && cart[k] in movies then [cart[k]] else []
  }

  /** The charged entries among positions lo up to hi, read from the front. */
  function KeptRange(cart: seq<int>, movies: map<int, Movie>, fails: set<nat>, lo: nat, hi: nat): seq<int>
    requires lo <= hi <= |cart|
    decreases hi - lo
  {
    if lo == hi then [] else Charged(cart, movies, fails, lo) + KeptRange(cart, movies, fails, lo + 1, hi)
  }

  /** The cart entries that are charged, in cart order and with repeats. */
  function Kept(cart: seq<int>, movies: map<int, Movie>, fails: set<nat>): seq<int> {
    KeptRange(cart, movies, fails, 0, |cart|)
  }

  lemma {:induction false} KeptRangeSnoc(cart: seq<int>, movies: map<int, Movie>, fails: set<nat>, lo: nat, hi: nat)
    requires lo <= hi < |cart|
    ensures KeptRange(cart, movies, fails, lo, hi + 1)
         == KeptRange(cart, movies, fails, lo, hi) + Charged(cart, movies, fails, hi)
    decreases hi - lo
  {
    if lo < hi {
      KeptRangeSnoc(cart, movies, fails, lo + 1, hi);
      var c := Charged(cart, movies, fails, lo);
      assert c + (KeptRange(cart, movies, fails, lo + 1, hi) + Charged(cart, movies, fails, hi))
          == (c + KeptRange(cart, movies, fails, lo + 1, hi)) + Charged(cart, movies, fails, hi);
    }
  }

  lemma {:induction false} ResolvePrefixIsKept(cart: seq<int>, movies: map<int, Movie>, fails: set<nat>, n: nat)
    requires n <= |cart|
    ensures Ids(Resolve(cart[..n], movies, fails)) == KeptRange(cart, movies, fails, 0, n)
  {
    if n > 0 {
      ResolvePrefixIsKept(cart, movies, fails, n - 1);
      KeptRangeSnoc(cart, movies, fails, 0, n - 1);
      assert cart[..n][..n - 1] == cart[..n - 1];
      var rest := Resolve(cart[..n - 1], movies, fails);
      if n - 1 !in fails && cart[n - 1] in movies {
        var l := Line(cart[n - 1], movies[cart[n - 1]].price);
        assert Resolve(cart[..n], movies, fails) == rest + [l];
        assert Ids(rest + [l]) == Ids(rest) + [l.movieId];
      } else {
        assert Resolve(cart[..n], movies, fails) == rest;
      }
    }
  }

  /** Exactly the cart entries whose lookup answers are charged, each once per occurrence and in
      cart order, each at the price the catalogue lists. */
  lemma ResolveChargesKept(cart: seq<int>, movies: map<int, Movie>, fails: set<nat>)
    ensures Ids(Resolve(cart, movies, fails)) == Kept(cart, movies, fails)
    ensures forall j :: 0 <= j < |Resolve(cart, movies, fails)| ==>
      Resolve(cart, movies, fails)[j].price == movies[Resolve(cart, movies, fails)[j].movieId].price
  {
    ResolvePrefixIsKept(cart, movies, fails, |cart|);
    assert cart[..|cart|] == cart;
    forall j | 0 <= j < |Resolve(cart, movies, fails)|
      ensures Resolve(cart, movies, fails)[j].price == movies[Resolve(cart, movies, fails)[j].movieId].price
    {
      assert Resolve(cart, movies, fails)[j] in Resolve(cart, movies, fails);
    }
  }

  /** A cart with an unknown id between two known ones is charged for the two known ones only. */
  lemma UnknownEntrySkipped(a: Movie, b: Movie)
    requires a.id == 1 && b.id == 2
    ensures Kept([1, 9, 2], map[1 := a, 2 := b], {}) == [1, 2]
    ensures Ids(Resolve([1, 9, 2], map[1 := a, 2 := b], {})) == [1, 2]
  {
    var cart, movies := [1, 9, 2], map[1 := a, 2 := b];
    assert Charged(cart, movies, {}, 0) == [1] && Charged(cart, movies, {}, 1) == [];
    assert Charged(cart, movies, {}, 2) == [2];
    assert KeptRange(cart, movies, {}, 2, 3) == [2];
    assert KeptRange(cart, movies, {}, 1, 3) == [2];
    ResolveChargesKept(cart, movies, {});
  }

  /** When every entry resolves, every cart entry gives its own line, in cart order: duplicates
      are neither merged nor dropped. */
  lemma {:induction false} ResolveKeepsEveryEntry(cart: seq<int>, movies: map<int, Movie>, fails: set<nat>)
    requires forall k :: 0 <= k < |cart| ==> k !in fails && cart[k] in movies
    ensures Ids(Resolve(cart, movies, fails)) == cart
  {
    if cart != [] {
      var k := |cart| - 1;
      ResolveKeepsEveryEntry(cart[..k], movies, fails);
      assert cart == cart[..k] + [cart[k]];
    }
  }

  /** Entries that are all unknown, or whose lookups all throw, resolve to nothing. */
  lemma {:induction false} ResolveDropsUnresolved(cart: seq<int>, movies: map<int, Movie>, fails: set<nat>)
    requires forall k :: 0 <= k < |cart| ==> k in fails || cart[k] !in movies
    ensures Resolve(cart, movies, fails) == [] && Sum(Resolve(cart, movies, fails)) == 0
  {
    if cart != [] {
      ResolveDropsUnresolved(cart[..|cart| - 1], movies, fails);
    }
  }

  /** The total is additive over the lines: each duplicate adds its price once more. */
  lemma {:induction false} SumAppend(a: seq<Line>, b: seq<Line>)
    ensures Sum(a + b) == Sum(a) + Sum(b)
    decreases |b|
  {
    if b != [] {
      SumAppend(a, b[..|b| - 1]);
      assert (a + b)[..|a + b| - 1] == a + b[..|b| - 1];
    } else {
      assert a + b == a;
    }
  }

  /** A cart holding one movie twice costs twice its price and gives two lines. */
  lemma DuplicateCharged(m: Movie)
    requires m.id == 5 && m.price == 1249
    ensures Resolve([5, 5], map[5 := m], {}) == [Line(5, 1249), Line(5, 1249)]
    ensures Sum(Resolve([5, 5], map[5 := m], {})) == 2498
  {
    assert [5, 5][..1] == [5];
    assert [5][..0] == [];
    var lines := [Line(5, 1249), Line(5, 1249)];
    assert lines[..1] == [Line(5, 1249)];
    assert lines[..1][..0] == [];
  }

  /** The order_items rows for the lines, with consecutive ids from `firstId` and quantity 1. */
  function ItemRows(firstId: int, orderId: int, lines: seq<Line>): (rows: seq<OrderItem>)
    ensures |rows| == |lines|
    ensures forall k :: 0 <= k < |lines| ==> rows[k] == OrderItem(firstId + k, orderId, lines[k].movieId, lines[k].price, 1)
  {
    seq(|lines|, k requires 0 <= k < |lines| => OrderItem(firstId + k, orderId, lines[k].movieId, lines[k].price, 1))
  }

  lemma ItemRowsStep(firstId: int, orderId: int, lines: seq<Line>, i: nat)
    requires i < |lines|
    ensures ItemRows(firstId, orderId, lines[..i + 1])
         == ItemRows(firstId, orderId, lines[..i]) + [OrderItem(firstId + i, orderId, lines[i].movieId, lines[i].price, 1)]
  {
  }

  /** Whether the transaction commits: the order insert and every item insert succeed. */
  predicate OrderCommits(t: Tables, userId: int, lines: seq<Line>, orderFault: bool, itemFaults: set<nat>) {
    && !orderFault && userId in UserIds(t.users)
    && forall k :: 0 <= k < |lines| ==> k !in itemFaults && lines[k].movieId in t.movies
  }

  /** The tables after a committed checkout: one completed order, untaxed, and its items. */
  function Committed(t: Tables, orderId: int, firstItemId: int, userId: int, lines: seq<Line>): Tables {
    t.(orders := t.orders + [Order(orderId, userId, Sum(lines), Completed, None)],
       orderItems := t.orderItems + ItemRows(firstItemId, orderId, lines))
  }

  /** The foreach over the lines: one INSERT INTO order_items per line, quantity 1, stopping at the
      first that throws; the rows inserted before it stay until the caller rolls back. */
  method InsertItems(db: Database, orderId: int, lines: seq<Line>, itemFaults: set<nat>) returns (failed: bool)
    requires db.Valid() && orderId in OrderIds(db.orders)
    modifies db
    ensures db.Valid()
    ensures !failed <==> forall k :: 0 <= k < |lines| ==> k !in itemFaults && lines[k].movieId in old(db.movies)
    ensures !failed ==> db.Snapshot() == old(db.Snapshot()).(
      orderItems := old(db.orderItems) + ItemRows(old(db.nextItemId), orderId, lines))
    ensures db.nextMovieId == old(db.nextMovieId) && db.nextOrderId == old(db.nextOrderId)
    ensures db.nextHistoryId == old(db.nextHistoryId) && db.nextWatchId == old(db.nextWatchId)
    ensures db.nextUserId == old(db.nextUserId) && db.nextItemId >= old(db.nextItemId)
  {
    ghost var t0 := db.Snapshot();
    var firstItem := db.nextItemId;
    var i := 0;
    failed := false;
    while i < |lines| && !failed
      invariant 0 <= i <= |lines|
      invariant db.Valid() && orderId in OrderIds(db.orders)
      invariant db.nextItemId == firstItem + i + (if failed then 1 else 0)
      invariant db.nextMovieId == old(db.nextMovieId) && db.nextOrderId == old(db.nextOrderId)
      invariant db.nextHistoryId == old(db.nextHistoryId) && db.nextWatchId == old(db.nextWatchId)
      invariant db.nextUserId == old(db.nextUserId)
      invariant forall k :: 0 <= k < i ==> k !in itemFaults && lines[k].movieId in t0.movies
      invariant failed ==> i < |lines| && (i in itemFaults || lines[i].movieId !in t0.movies)
      invariant db.Snapshot() == t0.(orderItems := t0.orderItems + ItemRows(firstItem, orderId, lines[..i]))
      decreases |lines| - i, !failed
    {
      ghost var before := db.orderItems;
      assert before == t0.orderItems + ItemRows(firstItem, orderId, lines[..i]);
      var err := db.InsertOrderItem(orderId, lines[i].movieId, lines[i].price, 1, i in itemFaults);
      if err.Some? {
        failed := true;
      } else {
        ItemRowsStep(firstItem, orderId, lines, i);
        assert db.orderItems == t0.orderItems + ItemRows(firstItem, orderId, lines[..i + 1]) by {
          assert db.orderItems == before + [OrderItem(firstItem + i, orderId, lines[i].movieId, lines[i].price, 1)];
        }
        i := i + 1;
      }
    }
    assert !failed ==> lines[..i] == lines;
  }

  /** BEGIN; INSERT the order; INSERT one item per line; COMMIT. The first statement that throws
      ends the loop, and ROLLBACK restores every table. */
  method PlaceOrder(db: Database, userId: int, lines: seq<Line>, orderFault: bool, itemFaults: set<nat>)
    returns (ok: bool, orderId: int)
    requires db.Valid()
    modifies db
    ensures db.Valid()
    ensures ok <==> OrderCommits(old(db.Snapshot()), userId, lines, orderFault, itemFaults)
    ensures ok ==> (orderId == old(db.nextOrderId)
      && db.Snapshot() == Committed(old(db.Snapshot()), orderId, old(db.nextItemId), userId, lines))
    ensures !ok ==> db.Snapshot() == old(db.Snapshot())
    ensures db.nextOrderId >= old(db.nextOrderId) && db.nextItemId >= old(db.nextItemId)
  {
    var saved := db.Snapshot();
    var mv, o, h, w, u := db.nextMovieId, db.nextOrderId, db.nextHistoryId, db.nextWatchId, db.nextUserId;
    var total := Sum(lines);
    var err;
    err, orderId := db.InsertOrder(userId, total, Completed, None, orderFault);
    if err.Some? {
      ok := false;
      return;
    }
    assert orderId in OrderIds(db.orders) by {
      assert db.orders == saved.orders + [Order(orderId, userId, total, Completed, None)];
      assert db.orders[|db.orders| - 1].id == orderId;
    }
    var failed := InsertItems(db, orderId, lines, itemFaults);
    if failed {
      db.Restore(saved, mv, o, h, w, u);
      ok := false;
      return;
    }
    ok := true;
  }

  /** What the page shows: the resolved lines, their subtotal, 7% tax and the total (in cents;
      tax and total are exact reals, shipping is 0). */
  datatype Display = Display(lines: seq<Line>, subtotal: int, tax: real, total: real)

  function DisplayFor(lines: seq<Line>): (d: Display)
    ensures d.lines == lines && d.subtotal == Sum(lines)
    ensures d.total - d.tax == d.subtotal as real
    ensures d.tax * 100.0 == d.subtotal as real * 7.0
  {
    var s := Sum(lines);
    var tax := s as real * 0.07;
    Display(lines, s, tax, s as real + tax + 0.0)
  }

  /** The request: `movie_id` from the query string and whether the method is POST. */
  datatype Request = Request(movieIdParam: Option<string>, isPost: bool)

  /** The database failures a request may meet: the user lookup, the lookups of the POST and of the
      display loop (by cart position), the order insert and the item inserts (by line position). */
  datatype Faults = Faults(userLookup: bool, resolveFails: set<nat>, orderInsert: bool,
                           itemInserts: set<nat>, displayFails: set<nat>)

  datatype Outcome =
    | RedirectLogin              // login.php?redirect=checkout.php
    | RedirectCheckout           // checkout.php, after replacing the cart
    | RedirectMovies             // movies.php, on an empty cart
    | RedirectConfirmation(orderId: int)
    | ShowPage(display: Display)

  const OrderErrorMessage := "An error occurred while processing your order. Please try again."

  /** The whole request as a function of the session, the tables and the next auto-increment ids. */
  function CheckoutSpec(st: SessionState, t: Tables, nextOrderId: int, nextItemId: int, req: Request, f: Faults)
    : (Outcome, SessionState, Tables)
  {
    if st.userId.None? then (RedirectLogin, st, t)
    else
      var st1 := if st.cart.None? then st.(cart := Some([])) else st;
      if req.movieIdParam.Some? && IsNumeric(req.movieIdParam.value) then
        (RedirectCheckout, st1.(cart := Some([TruncateToInt(NumericValue(req.movieIdParam.value).value)])), t)
      else if st1.cart.value == [] then (RedirectMovies, st1, t)
      else if !f.userLookup && st.userId.value !in UserIds(t.users) then (RedirectLogin, NoSession, t)
      else CartPageSpec(st1, t, nextOrderId, nextItemId, req.isPost, f)
  }

  /** The rest of the request, once a logged-in visitor has a non-empty cart. */
  function CartPageSpec(st: SessionState, t: Tables, nextOrderId: int, nextItemId: int, isPost: bool, f: Faults)
    : (Outcome, SessionState, Tables)
    requires st.userId.Some? && st.cart.Some?
  {
    var cart := st.cart.value;
    var userId := st.userId.value;
    var display := DisplayFor(Resolve(cart, t.movies, f.displayFails));
    if !isPost then (ShowPage(display), st, t)
    else
      var lines := Resolve(cart, t.movies, f.resolveFails);
      if OrderCommits(t, userId, lines, f.orderInsert, f.itemInserts) then
        (RedirectConfirmation(nextOrderId),
         st.(lastOrder := Some(LastOrder(nextOrderId, Sum(lines), |lines|)), cart := Some([])),
         Committed(t, nextOrderId, nextItemId, userId, lines))
      else (ShowPage(display), st.(errorMessage := Some(OrderErrorMessage)), t)
  }

  /** One request to checkout.php. */
  method HandleCheckout(db: Database, session: Session, req: Request, f: Faults) returns (out: Outcome)
    requires db.Valid()
    modifies db, session
    ensures db.Valid()
    ensures (out, session.State(), db.Snapshot())
         == CheckoutSpec(old(session.State()), old(db.Snapshot()), old(db.nextOrderId), old(db.nextItemId), req, f)
  {
    if session.userId.None? {
      return RedirectLogin;
    }
    if session.cart.None? {
      session.cart := Some([]);
    }
    if req.movieIdParam.Some? && IsNumeric(req.movieIdParam.value) {
      session.cart := Some([TruncateToInt(NumericValue(req.movieIdParam.value).value)]);
      return RedirectCheckout;
    }
    if session.cart.value == [] {
      return RedirectMovies;
    }
    var userId := session.userId.value;
    if !f.userLookup && userId !in UserIds(db.users) {
      session.Destroy();
      return RedirectLogin;
    }
    out := ProcessCart(db, session, req.isPost, f);
  }

  /** The POST branch and the display of checkout.php. */
  method ProcessCart(db: Database, session: Session, isPost: bool, f: Faults) returns (out: Outcome)
    requires db.Valid() && session.userId.Some? && session.cart.Some?
    modifies db, session
    ensures db.Valid()
    ensures (out, session.State(), db.Snapshot())
         == CartPageSpec(old(session.State()), old(db.Snapshot()), old(db.nextOrderId), old(db.nextItemId), isPost, f)
  {
    var userId := session.userId.value;
    var cart := session.cart.value;
    if isPost {
      var lines, total := ResolveCart(cart, db.movies, f.resolveFails);
      var ok, orderId := PlaceOrder(db, userId, lines, f.orderInsert, f.itemInserts);
      if ok {
        session.lastOrder := Some(LastOrder(orderId, total, |lines|));
        session.cart := Some([]);
        return RedirectConfirmation(orderId);
      }
      session.errorMessage := Some(OrderErrorMessage);
    }
    var shown, subtotal := ResolveCart(cart, db.movies, f.displayFails);
    out := ShowPage(DisplayFor(shown));
  }

  /** A numeric movie_id replaces the whole cart with that one id; nothing is written. */
  lemma MovieIdReplacesCart(st: SessionState, t: Tables, no: int, ni: int, param: string, post: bool, f: Faults)
    requires st.userId.Some? && IsNumeric(param)
    ensures var r := CheckoutSpec(st, t, no, ni, Request(Some(param), post), f);
      r.0 == RedirectCheckout && r.1 == st.(cart := Some([TruncateToInt(NumericValue(param).value)])) && r.2 == t
  {
  }

  /** An empty or missing cart never reaches the order insert: the visitor is sent to the catalogue. */
  lemma EmptyCartRedirects(st: SessionState, t: Tables, no: int, ni: int, req: Request, f: Faults)
    requires st.userId.Some? && (st.cart.None? || st.cart.value == [])
    requires req.movieIdParam.None? || !IsNumeric(req.movieIdParam.value)
    ensures CheckoutSpec(st, t, no, ni, req, f).0 == RedirectMovies
    ensures CheckoutSpec(st, t, no, ni, req, f).2 == t
  {
  }

  /** Whatever the outcome, the tables either stay as they were or gain exactly the new order and
      its items; the order row belongs to the session user, is completed, carries the untaxed sum
      of the current prices, and each item holds one resolved cart entry at its current price. */
  lemma CheckoutWrites(st: SessionState, t: Tables, no: int, ni: int, req: Request, f: Faults)
    ensures var r := CheckoutSpec(st, t, no, ni, req, f);
      || r.2 == t
      || (&& r.0 == RedirectConfirmation(no) && st.userId.Some? && st.cart.Some?
          && var lines := Resolve(st.cart.value, t.movies, f.resolveFails);
          && r.2.orders == t.orders + [Order(no, st.userId.value, Sum(lines), Completed, None)]
          && r.2.orderItems == t.orderItems + ItemRows(ni, no, lines)
          && r.2.movies == t.movies && r.2.users == t.users && r.2.watchlist == t.watchlist
          && r.2.orderHistory == t.orderHistory && r.2.movieCategories == t.movieCategories)
  {
  }

  /** A committed checkout empties the cart and records the order id, the untaxed total and the
      number of resolved items; a failed one keeps the cart and sets the error message. */
  lemma CheckoutSession(st: SessionState, t: Tables, no: int, ni: int, req: Request, f: Faults)
    requires st.userId.Some? && st.cart.Some? && st.cart.value != [] && req.isPost
    requires req.movieIdParam.None? || !IsNumeric(req.movieIdParam.value)
    requires f.userLookup || st.userId.value in UserIds(t.users)
    ensures var r := CheckoutSpec(st, t, no, ni, req, f);
            var lines := Resolve(st.cart.value, t.movies, f.resolveFails);
      && (r.0.RedirectConfirmation? ==>
            r.1.cart == Some([]) && r.1.lastOrder == Some(LastOrder(no, Sum(lines), |lines|)))
      && (!r.0.RedirectConfirmation? ==>
            r.2 == t && r.1.cart == st.cart && r.1.errorMessage == Some(OrderErrorMessage))
  {
  }

  /** With every lookup answering, the shown total is the persisted total plus 7%: the order row
      stores the untaxed amount while the page charges tax on top. */
  lemma DisplayedTotalIsTaxed(cart: seq<int>, movies: map<int, Movie>)
    ensures var lines := Resolve(cart, movies, {});
      DisplayFor(lines).total * 100.0 == Sum(lines) as real * 107.0
  {
  }

  /** The cart positions 0 .. n-1. */
  function Positions(n: nat): (s: set<nat>)
    ensures forall k: nat :: k in s <==> k < n
  {
    if n == 0 then {} else Positions(n - 1) + {n - 1}
  }

  /** The display query asks for a `thumbnail` column that config.php's movies table does not have,
      so under that schema every lookup of the display loop throws: this is the display as written. */
  function DisplayAsWritten(cart: seq<int>, movies: map<int, Movie>): Display {
    DisplayFor(Resolve(cart, movies, Positions(|cart|)))
  }

  /** As written, the page lists nothing and a zero total, whatever the cart holds. */
  lemma DisplayAsWrittenIsEmpty(cart: seq<int>, movies: map<int, Movie>)
    ensures DisplayAsWritten(cart, movies).lines == []
    ensures DisplayAsWritten(cart, movies).total == 0.0
  {
    ResolveDropsUnresolved(cart, movies, Positions(|cart|));
  }

  /** Intended: the display lists what the order would hold, so a cart of known movies is shown in
      full, one line per entry. */
  lemma DisplayIntendedListsCart(cart: seq<int>, movies: map<int, Movie>)
    requires forall k :: 0 <= k < |cart| ==> cart[k] in movies
    ensures Ids(DisplayFor(Resolve(cart, movies, {})).lines) == cart
  {
    ResolveKeepsEveryEntry(cart, movies, {});
  }
}
