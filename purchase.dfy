/** includes/process/process-purchase.php: a single-movie order with a quantity, written as one
    pending order and one line item inside a transaction. */
module Purchase {
  import opened Php
  import opened Store
  import opened Sessions
  import opened Config

  /** The form fields as filter_input() returns them: None stands for a missing field or one the
      filter rejected (null or false). The email filter itself is not modelled: `email` is its
      result. */
  datatype PurchaseForm = PurchaseForm(
    movieId: Option<int>, quantity: Option<int>, name: Option<string>,
    email: Option<string>, paymentMethod: Option<string>)

  /** The database failures a request may meet; `message` is the text a PDOException carries. */
  datatype PurchaseFaults = PurchaseFaults(lookup: bool, orderInsert: bool, itemInsert: bool, message: string)

  datatype PurchaseOutcome =
    | ToLogin                  // login.php?redirect=purchase
    | ToIndex                  // a request that is not a POST
    | ToPurchaseForm           // index.php#purchase, with $_SESSION['error'] set
    | ToConfirmation(orderId: int)

  const FillMessage := "Please fill in all required fields."
  const InvalidMovieMessage := "Invalid movie selected."

  /** An integer field is falsy when it is missing, rejected or 0. */
  predicate FalsyInt(v: Option<int>) {
    v.None? || v.value == 0
  }

  /** The required-field test: any falsy field rejects the form. A string is falsy when it is
      missing, "" or "0". */
  predicate Incomplete(form: PurchaseForm) {
    FalsyInt(form.movieId) || FalsyInt(form.quantity) || Empty(form.name) || Empty(form.email)
    || Empty(form.paymentMethod)
  }

  /** The order total: unit price times quantity. */
  function LineTotal(price: int, quantity: int): (total: int)
    ensures quantity == 1 ==> total == price
    ensures price >= 0 && quantity >= 1 ==> total >= price
    ensures price > 0 && quantity < 0 ==> total < 0
  {
    price * quantity
  }

  /** The whole request as a function of the session, the tables and the next auto-increment ids. */
  function PurchaseSpec(st: SessionState, t: Tables, nextOrderId: int, nextItemId: int, isPost: bool,
                        form: PurchaseForm, f: PurchaseFaults): (PurchaseOutcome, SessionState, Tables)
  {
    if !IsLoggedIn(st) then (ToLogin, st, t)
    else if !isPost then (ToIndex, st, t)
    else if Incomplete(form) then (ToPurchaseForm, st.(error := Some(FillMessage)), t)
    else if f.lookup then (ToPurchaseForm, st.(error := Some(f.message)), t)
    else if form.movieId.value !in t.movies then (ToPurchaseForm, st.(error := Some(InvalidMovieMessage)), t)
    else if f.orderInsert || st.userId.value !in UserIds(t.users) || f.itemInsert then
      (ToPurchaseForm, st.(error := Some(f.message)), t)
    else
      var movieId, quantity := form.movieId.value, form.quantity.value;
      var price := t.movies[movieId].price;
      (ToConfirmation(nextOrderId), st,
       t.(orders := t.orders + [Order(nextOrderId, st.userId.value, LineTotal(price, quantity), Pending, form.paymentMethod)],
          orderItems := t.orderItems + [OrderItem(nextItemId, nextOrderId, movieId, price, quantity)]))
  }

  /** One request to process-purchase.php. A failed INSERT INTO orders whose user row is missing
      raises the FOREIGN KEY error, which the catch turns into the same rollback. */
  method HandlePurchase(db: Database, session: Session, isPost: bool, form: PurchaseForm, f: PurchaseFaults)
    returns (out: PurchaseOutcome)
    requires db.Valid()
    modifies db, session
    ensures db.Valid()
    ensures (out, session.State(), db.Snapshot())
         == PurchaseSpec(old(session.State()), old(db.Snapshot()), old(db.nextOrderId), old(db.nextItemId), isPost, form, f)
  {
    if session.userId.None? {
      return ToLogin;
    }
    if !isPost {
      return ToIndex;
    }
    var saved := db.Snapshot();
    var mv, o, h, w, u := db.nextMovieId, db.nextOrderId, db.nextHistoryId, db.nextWatchId, db.nextUserId;
    var firstItem := db.nextItemId;
    if Incomplete(form) {
      session.error := Some(FillMessage);
      return ToPurchaseForm;
    }
    if f.lookup {
      session.error := Some(f.message);
      return ToPurchaseForm;
    }
    var movieId, quantity := form.movieId.value, form.quantity.value;
    if movieId !in db.movies {
      session.error := Some(InvalidMovieMessage);
      return ToPurchaseForm;
    }
    var price := db.movies[movieId].price;
    var err, orderId := db.InsertOrder(session.userId.value, LineTotal(price, quantity), Pending, form.paymentMethod, f.orderInsert);
    if err.Some? {
      session.error := Some(f.message);
      return ToPurchaseForm;
    }
    err := db.InsertOrderItem(orderId, movieId, price, quantity, f.itemInsert);
    if err.Some? {
      db.Restore(saved, mv, o, h, w, u);
      session.error := Some(f.message);
      return ToPurchaseForm;
    }
    out := ToConfirmation(orderId);
  }

  /** All or nothing: either no table changes, or exactly one pending order for the session user
      with the chosen payment method and total price * quantity, and exactly one item holding the
      quantity and the unit price, are added. The session changes at most in its error field. */
  lemma PurchaseAllOrNothing(st: SessionState, t: Tables, no: int, ni: int, isPost: bool, form: PurchaseForm, f: PurchaseFaults)
    ensures var r := PurchaseSpec(st, t, no, ni, isPost, form, f);
      && r.1 == st.(error := r.1.error)
      && (r.2 == t
          || (&& r.0 == ToConfirmation(no) && st.userId.Some? && form.movieId.Some? && form.quantity.Some?
              && form.movieId.value in t.movies
              && var price := t.movies[form.movieId.value].price;
              && r.2 == t.(orders := t.orders + [Order(no, st.userId.value, price * form.quantity.value, Pending, form.paymentMethod)],
                           orderItems := t.orderItems + [OrderItem(ni, no, form.movieId.value, price, form.quantity.value)])))
  {
  }

  /** An order is created only when the request is a logged-in POST with every field truthy, a
      known movie and no failing statement. */
  lemma PurchaseCommitsOnlyWhen(st: SessionState, t: Tables, no: int, ni: int, isPost: bool, form: PurchaseForm, f: PurchaseFaults)
    ensures PurchaseSpec(st, t, no, ni, isPost, form, f).0.ToConfirmation?
        <==> IsLoggedIn(st) && isPost && !Incomplete(form) && !f.lookup && form.movieId.value in t.movies
             && !f.orderInsert && !f.itemInsert && st.userId.value in UserIds(t.users)
  {
  }

  /** Quantity 0 is refused like a missing field. */
  lemma ZeroQuantityRejected(st: SessionState, t: Tables, no: int, ni: int, form: PurchaseForm, f: PurchaseFaults)
    requires IsLoggedIn(st) && form.quantity == Some(0)
    ensures PurchaseSpec(st, t, no, ni, true, form, f) == (ToPurchaseForm, st.(error := Some(FillMessage)), t)
  {
  }

  /** A negative quantity is truthy, so it passes the check and is stored with a negative total. */
  lemma NegativeQuantityAccepted(m: Movie, u: User)
    requires m.price == 999
    ensures var st := NoSession.(userId := Some(u.id));
            var t := Tables(map[3 := m.(id := 3)], [], [], [], [], [], [u]);
            var form := PurchaseForm(Some(3), Some(-2), Some("Ann"), Some("ann@example.com"), Some("card"));
            var r := PurchaseSpec(st, t, 1, 1, true, form, PurchaseFaults(false, false, false, ""));
      r.0 == ToConfirmation(1) && r.2.orders == [Order(1, u.id, -1998, Pending, Some("card"))]
  {
    var t := Tables(map[3 := m.(id := 3)], [], [], [], [], [], [u]);
    assert u.id in UserIds(t.users) by { assert t.users[0] == u; }
  }
}
