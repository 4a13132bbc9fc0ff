/** order-confirmation.php: the page after a purchase, which picks the order id from the query
    string or the session, shows the order's items when the order belongs to the signed-in user,
    and otherwise falls back to the order the session remembers. */
module Confirmation {
  import opened Php
  import opened Store
  import opened Sessions
  import opened Config

  /** A row of the join of order_items, orders and movies: oi.* with the order's total and
      status and the movie's title. */
  datatype JoinedRow = JoinedRow(itemId: int, orderId: int, movieId: int, price: int, quantity: int,
                                 total: int, status: OrderStatus, title: string)

  /** The order block of the page. */
  datatype OrderView = OrderView(number: int, total: int, status: string)

  /** One line of the item list. */
  datatype ItemView = ItemView(movieId: int, title: string, price: int, quantity: int)

  datatype ConfirmOutcome =
    | ToLogin                                          // login.php?redirect=order-confirmation.php
    | ToIndex                                          // index.php
    | Show(order: OrderView, items: seq<ItemView>)

  const FetchError := "An error occurred while fetching your order details."
  const FallbackStatus := "completed"

  // ---------------------------------------------------------------- choosing the order

  /** filter_input(INPUT_GET, 'id', FILTER_VALIDATE_INT), then the session's last order when that
      is falsy, then a redirect when the result is still falsy (absent, invalid or 0). */
  function SelectedOrderId(idParam: Option<string>, st: SessionState): (r: Option<int>)
    ensures r.Some? ==> r.value != 0
  {
    var fromGet := if idParam.Some? then FilterInt(idParam.value) else None;
    var id := if (fromGet.None? || fromGet.value == 0) && st.lastOrder.Some? then Some(st.lastOrder.value.id) else fromGet;
    if id.None? || id.value == 0 then None else id
  }

  /** A valid non-zero id in the query string wins over the session. */
  lemma QueryIdWins(st: SessionState, n: int)
    requires n != 0 && PhpIntMin <= n <= PhpIntMax
    ensures SelectedOrderId(Some(IntToString(n)), st) == Some(n)
  {
    FilterIntRoundTrip(n);
  }

  /** Without an id in the query string the session's last order is used, if its id is not 0. */
  lemma SessionIdWithoutQuery(st: SessionState)
    ensures SelectedOrderId(None, st)
         == (if st.lastOrder.Some? && st.lastOrder.value.id != 0 then Some(st.lastOrder.value.id) else None)
  {
  }

  /** An id that is not an integer counts as no id at all. */
  lemma InvalidIdIgnored(st: SessionState)
    ensures SelectedOrderId(Some("abc"), st) == SelectedOrderId(None, st)
  {
    assert FilterInt("abc") == None by {
      assert Trim("abc") == "abc" by { TrimKeepsClean("abc"); }
      assert !IsDigit("abc"[0]);
    }
  }

  // ---------------------------------------------------------------- the join

  function OrderById(orders: seq<Order>, id: int): (r: Option<Order>)
    ensures r.Some? ==> r.value in orders && r.value.id == id
    ensures r.None? ==> forall o :: o in orders ==> o.id != id
  {
    if orders == [] then None
    else if orders[0].id == id then Some(orders[0])
    else OrderById(orders[1..], id)
  }

  /** The order's rows, in the order the items are stored, when the order exists and belongs to
      the user; items whose movie is gone drop out of the inner join. */
  function JoinRows(items: seq<OrderItem>, orders: seq<Order>, movies: map<int, Movie>, orderId: int, userId: int)
    : (r: seq<JoinedRow>)
    ensures |r| <= |items|
    ensures forall row :: row in r ==> row.orderId == orderId
    ensures r != [] ==> exists o :: o in orders && o.id == orderId && o.userId == userId
  {
    var o := OrderById(orders, orderId);
    if items == [] || o.None? || o.value.userId != userId then []
    else
      var rest := JoinRows(items[..|items| - 1], orders, movies, orderId, userId);
      var it := items[|items| - 1];
      if it.orderId == orderId && it.movieId in movies then
        rest + [JoinedRow(it.id, it.orderId, it.movieId, it.price, it.quantity, o.value.total, o.value.status,
                          movies[it.movieId].title)]
      else rest
  }

  function ItemsOf(rows: seq<JoinedRow>): (r: seq<ItemView>)
    ensures |r| == |rows|
    ensures forall k :: 0 <= k < |rows| ==> r[k].movieId == rows[k].movieId && r[k].quantity == rows[k].quantity
  {
    seq(|rows|, k requires 0 <= k < |rows| => ItemView(rows[k].movieId, rows[k].title, rows[k].price, rows[k].quantity))
  }

  // ---------------------------------------------------------------- the order number

  /** The order block as written: 'id' is read from the first row, but the join selects oi.*,
      so that is the first order item's id. */
  function OrderHeaderAsWritten(rows: seq<JoinedRow>): (v: OrderView)
    requires rows != []
    ensures v.number == rows[0].itemId && v.total == rows[0].total
  {
    OrderView(rows[0].itemId, rows[0].total, StatusName(rows[0].status))
  }

  /** The order block as intended: the number is the order's id. */
  function OrderHeader(orderId: int, rows: seq<JoinedRow>): (v: OrderView)
    requires rows != []
    ensures v.number == orderId && v.total == rows[0].total
    ensures v.status in ["pending", "completed", "cancelled", "refunded"]
  {
    OrderView(orderId, rows[0].total, StatusName(rows[0].status))
  }

  /** Order 7 whose first item has id 12 is shown as order 12. */
  lemma OrderNumberShowsItemId()
    ensures var rows := [JoinedRow(12, 7, 3, 999, 1, 999, Completed, "Heat")];
      OrderHeaderAsWritten(rows).number == 12 != OrderHeader(7, rows).number
  {
  }

  /** With the corrected block, the number shown is the order the rows belong to. */
  lemma OrderNumberIsOrderId(items: seq<OrderItem>, orders: seq<Order>, movies: map<int, Movie>, orderId: int, userId: int)
    requires JoinRows(items, orders, movies, orderId, userId) != []
    ensures var rows := JoinRows(items, orders, movies, orderId, userId);
      OrderHeader(orderId, rows).number == rows[0].orderId
  {
    var rows := JoinRows(items, orders, movies, orderId, userId);
    assert rows[0] in rows;
  }

  // ---------------------------------------------------------------- the session fallback

  /** The two foreach loops of the fallback: the cart's ids are copied, and when there are any,
      each row of SELECT ... WHERE id IN (...) becomes a line of quantity 1. `inRows` is what that
      query returns. An unset cart iterates nothing. */
  method FallbackItems(cart: Option<seq<int>>, inRows: seq<Movie>) returns (items: seq<ItemView>)
    ensures items == Fallback(cart, inRows)
    ensures cart.None? || cart.value == [] ==> items == []
    ensures cart.Some? && cart.value != [] ==>
      |items| == |inRows| && forall k :: 0 <= k < |inRows| ==> items[k] == ItemView(inRows[k].id, inRows[k].title, inRows[k].price, 1)
  {
    var movieIds: seq<int> := [];
    if cart.Some? {
      var i := 0;
      while i < |cart.value|
        invariant 0 <= i <= |cart.value| && movieIds == cart.value[..i]
      {
        movieIds := movieIds + [cart.value[i]];
        i := i + 1;
        assert cart.value[..i] == cart.value[..i - 1] + [cart.value[i - 1]];
      }
      assert cart.value[..i] == cart.value;
    }
    items := [];
    if movieIds != [] {
      var k := 0;
      while k < |inRows|
        invariant 0 <= k <= |inRows| && |items| == k
        invariant forall j :: 0 <= j < k ==> items[j] == ItemView(inRows[j].id, inRows[j].title, inRows[j].price, 1)
      {
        items := items + [ItemView(inRows[k].id, inRows[k].title, inRows[k].price, 1)];
        k := k + 1;
      }
    }
  }

  /** The fallback as a value. */
  function Fallback(cart: Option<seq<int>>, inRows: seq<Movie>): seq<ItemView> {
    if cart.None? || cart.value == [] then []
    else seq(|inRows|, k requires 0 <= k < |inRows| => ItemView(inRows[k].id, inRows[k].title, inRows[k].price, 1))
  }

  // ---------------------------------------------------------------- the request

  /** The whole request as a function of the session and the tables; `inRows` is what the
      fallback's IN query returns and `fault` a failing query, which sends the visitor home with
      an error in the session. */
  function ConfirmSpec(st: SessionState, t: Tables, idParam: Option<string>, inRows: seq<Movie>, fault: bool)
    : (ConfirmOutcome, SessionState)
  {
    if !IsLoggedIn(st) then (ToLogin, st)
    else
      var id := SelectedOrderId(idParam, st);
      if id.None? then (ToIndex, st)
      else if fault then (ToIndex, st.(errorMessage := Some(FetchError)))
      else
        var rows := JoinRows(t.orderItems, t.orders, t.movies, id.value, st.userId.value);
        if rows != [] then (Show(OrderHeader(id.value, rows), ItemsOf(rows)), st)
        else if st.lastOrder.Some? && st.lastOrder.value.id == id.value then
          (Show(OrderView(id.value, st.lastOrder.value.total, FallbackStatus), Fallback(st.cart, inRows)), st)
        else (ToIndex, st)
  }

  /** One request to order-confirmation.php; the tables are only read. */
  method HandleConfirmation(db: Database, session: Session, idParam: Option<string>, inRows: seq<Movie>, fault: bool)
    returns (out: ConfirmOutcome)
    modifies session
    ensures (out, session.State()) == ConfirmSpec(old(session.State()), db.Snapshot(), idParam, inRows, fault)
  {
    if session.userId.None? {
      return ToLogin;
    }
    var id := SelectedOrderId(idParam, session.State());
    if id.None? {
      return ToIndex;
    }
    if fault {
      session.errorMessage := Some(FetchError);
      return ToIndex;
    }
    var rows := JoinRows(db.orderItems, db.orders, db.movies, id.value, session.userId.value);
    if rows != [] {
      return Show(OrderHeader(id.value, rows), ItemsOf(rows));
    }
    if session.lastOrder.Some? && session.lastOrder.value.id == id.value {
      var items := FallbackItems(session.cart, inRows);
      return Show(OrderView(id.value, session.lastOrder.value.total, FallbackStatus), items);
    }
    out := ToIndex;
  }

  /** A page is shown only for the order the request selects, and only when that order belongs to
      the signed-in user or is the session's own last order, shown with the status 'completed'. */
  lemma ItemsOnlyForOwner(st: SessionState, t: Tables, idParam: Option<string>, inRows: seq<Movie>, fault: bool)
    ensures var (out, st2) := ConfirmSpec(st, t, idParam, inRows, fault);
      out.Show? ==>
        && IsLoggedIn(st) && SelectedOrderId(idParam, st).Some? && !fault
        && (|| (exists o :: o in t.orders && o.id == SelectedOrderId(idParam, st).value && o.userId == st.userId.value)
            || (st.lastOrder.Some? && st.lastOrder.value.id == SelectedOrderId(idParam, st).value
                && out.order.status == FallbackStatus))
    ensures var (out, st2) := ConfirmSpec(st, t, idParam, inRows, fault);
      out.Show? ==>
        (|| (exists o :: o in t.orders && o.id == out.order.number && o.userId == st.userId.value)
         || (st.lastOrder.Some? && st.lastOrder.value.id == out.order.number && out.order.status == FallbackStatus))
  {
  }

  /** Another user's order, not remembered by the session, sends the visitor home. */
  lemma OthersOrderRedirects(st: SessionState, t: Tables, idParam: Option<string>, inRows: seq<Movie>)
    requires IsLoggedIn(st)
    requires var id := SelectedOrderId(idParam, st);
      id.Some? && (forall o :: o in t.orders && o.id == id.value ==> o.userId != st.userId.value)
      && (st.lastOrder.None? || st.lastOrder.value.id != id.value)
    ensures ConfirmSpec(st, t, idParam, inRows, false) == (ToIndex, st)
  {
  }

  /** Both queries of the page name a `thumbnail` column that config.php's movies table does not
      have, so under that schema the join always throws: every signed-in request with an order id
      is sent home with the error message, even for the user's own order. */
  lemma JoinAsWrittenGoesHome(st: SessionState, t: Tables, idParam: Option<string>, inRows: seq<Movie>)
    requires IsLoggedIn(st) && SelectedOrderId(idParam, st).Some?
    ensures ConfirmSpec(st, t, idParam, inRows, true) == (ToIndex, st.(errorMessage := Some(FetchError)))
  {
  }

  /** Every stored item of an order whose movie still exists appears in the join. */
  lemma {:induction false} JoinRowsListsItem(items: seq<OrderItem>, orders: seq<Order>, movies: map<int, Movie>,
                                              orderId: int, userId: int, it: OrderItem)
    requires OrderById(orders, orderId).Some? && OrderById(orders, orderId).value.userId == userId
    requires it in items && it.orderId == orderId && it.movieId in movies
    ensures exists k :: 0 <= k < |JoinRows(items, orders, movies, orderId, userId)|
                        && JoinRows(items, orders, movies, orderId, userId)[k].itemId == it.id
                        && JoinRows(items, orders, movies, orderId, userId)[k].movieId == it.movieId
  {
    var init := items[..|items| - 1];
    var rows := JoinRows(items, orders, movies, orderId, userId);
    if items[|items| - 1] == it {
      assert rows[|rows| - 1].itemId == it.id && rows[|rows| - 1].movieId == it.movieId;
    } else {
      assert it in init by {
        var j :| 0 <= j < |items| && items[j] == it;
        assert j < |items| - 1 && init[j] == it;
      }
      JoinRowsListsItem(init, orders, movies, orderId, userId, it);
      var rest := JoinRows(init, orders, movies, orderId, userId);
      var k :| 0 <= k < |rest| && rest[k].itemId == it.id && rest[k].movieId == it.movieId;
      assert rows[..|rest|] == rest;
      assert rows[k] == rest[k];
    }
  }

  /** With the column the queries expect, the user's own order is shown under its own number and
      lists every stored item whose movie still exists. */
  lemma JoinIntendedShowsOwnOrder(st: SessionState, t: Tables, idParam: Option<string>, inRows: seq<Movie>, it: OrderItem)
    requires IsLoggedIn(st) && SelectedOrderId(idParam, st).Some?
    requires var id := SelectedOrderId(idParam, st).value;
      OrderById(t.orders, id).Some? && OrderById(t.orders, id).value.userId == st.userId.value
      && it in t.orderItems && it.orderId == id && it.movieId in t.movies
    ensures var (out, st2) := ConfirmSpec(st, t, idParam, inRows, false);
      && st2 == st && out.Show? && out.order.number == SelectedOrderId(idParam, st).value
      && exists k :: 0 <= k < |out.items| && out.items[k].movieId == it.movieId
  {
    var id := SelectedOrderId(idParam, st).value;
    JoinRowsListsItem(t.orderItems, t.orders, t.movies, id, st.userId.value, it);
    var rows := JoinRows(t.orderItems, t.orders, t.movies, id, st.userId.value);
    var k :| 0 <= k < |rows| && rows[k].movieId == it.movieId;
    assert ItemsOf(rows)[k].movieId == it.movieId;
  }

  /** After a checkout, which leaves the session cart empty, the fallback shows the remembered
      total with no items at all. */
  lemma FallbackAfterCheckoutIsEmpty(st: SessionState, t: Tables, inRows: seq<Movie>, last: LastOrder)
    requires IsLoggedIn(st) && st.cart == Some([]) && st.lastOrder == Some(last) && last.id != 0
    requires JoinRows(t.orderItems, t.orders, t.movies, last.id, st.userId.value) == []
    ensures ConfirmSpec(st, t, None, inRows, false) == (Show(OrderView(last.id, last.total, FallbackStatus), []), st)
  {
  }
}
