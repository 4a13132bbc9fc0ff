/** The database tables the pages read and write, held in memory. Prices and totals are integer
    cents (DECIMAL(10,2)), ratings integer tenths (DECIMAL(3,1)), timestamps integers.
    The schema is the one config.php creates: movies, orders, order_items, order_history,
    watchlist and users, plus the movie_categories link table the admin pages use. */
module Store {
  import opened Php

  datatype MovieStatus = Active | Inactive

  datatype Movie = Movie(
    id: int, title: string, slug: string, description: string,
    price: int, releaseYear: int, duration: int, rating: int,
    posterUrl: string, trailerUrl: Option<string>, status: MovieStatus, createdAt: int)

  datatype OrderStatus = Pending | Completed | Cancelled | Refunded

  datatype Order = Order(id: int, userId: int, total: int, status: OrderStatus, paymentMethod: Option<string>)

  datatype OrderItem = OrderItem(id: int, orderId: int, movieId: int, price: int, quantity: int)

  datatype HistoryEntry = HistoryEntry(id: int, orderId: int, status: OrderStatus, description: string)

  datatype WatchEntry = WatchEntry(id: int, userId: int, movieId: int)

  datatype CategoryLink = CategoryLink(movieId: int, categoryId: int)

  datatype User = User(id: int, username: string, email: string, passwordHash: string, roleId: int, name: Option<string>)

  /** The contents of every table at one moment. */
  datatype Tables = Tables(
    movies: map<int, Movie>, movieCategories: seq<CategoryLink>, orders: seq<Order>,
    orderItems: seq<OrderItem>, orderHistory: seq<HistoryEntry>, watchlist: seq<WatchEntry>,
    users: seq<User>)

  /** How a statement the engine refuses fails: SQLSTATE 23000 (integrity constraint) or another error. */
  datatype DbError = IntegrityViolation | OtherError

  function OrderIds(os: seq<Order>): set<int> { set o | o in os :: o.id }
  function UserIds(us: seq<User>): set<int> { set u | u in us :: u.id }

  predicate HasPair(rows: seq<WatchEntry>, userId: int, movieId: int) {
    exists e :: e in rows && e.userId == userId && e.movieId == movieId
  }

  /** The number of order_items rows that reference a movie. */
  function UsageCount(items: seq<OrderItem>, movieId: int): (n: nat)
    ensures n <= |items|
    ensures n == 0 <==> forall k :: 0 <= k < |items| ==> items[k].movieId != movieId
  {
    if items == [] then 0
    else UsageCount(items[..|items| - 1], movieId) + (if items[|items| - 1].movieId == movieId then 1 else 0)
  }

  /** DELETE FROM watchlist WHERE user_id = ? AND movie_id = ?, on the rows in order. */
  function WithoutPair(rows: seq<WatchEntry>, userId: int, movieId: int): (r: seq<WatchEntry>)
    ensures |r| <= |rows|
    ensures forall e :: e in r <==> e in rows && !(e.userId == userId && e.movieId == movieId)
  {
    if rows == [] then []
    else
      var rest := WithoutPair(rows[..|rows| - 1], userId, movieId);
      var e := rows[|rows| - 1];
      if e.userId == userId && e.movieId == movieId then rest else rest + [e]
  }

  /** DELETE FROM movie_categories WHERE movie_id = ?. */
  function LinksWithout(links: seq<CategoryLink>, movieId: int): (r: seq<CategoryLink>)
    ensures |r| <= |links|
    ensures forall l :: l in r <==> l in links && l.movieId != movieId
  {
    if links == [] then []
    else
      var rest := LinksWithout(links[..|links| - 1], movieId);
      var l := links[|links| - 1];
      if l.movieId == movieId then rest else rest + [l]
  }

  /** No two watchlist rows hold the same (user, movie) pair. */
  predicate PairsUnique(rows: seq<WatchEntry>) {
    forall i, j :: 0 <= i < j < |rows| ==>
      !(rows[i].userId == rows[j].userId && rows[i].movieId == rows[j].movieId)
  }

  /** The foreign keys config.php declares, and the watchlist key when the table has one. */
  predicate Consistent(t: Tables, uniqueWatch: bool) {
    && (forall k :: k in t.movies ==> t.movies[k].id == k)
    && (forall o :: o in t.orders ==> o.userId in UserIds(t.users))
    && (forall it :: it in t.orderItems ==> it.orderId in OrderIds(t.orders) && it.movieId in t.movies)
    && (forall h :: h in t.orderHistory ==> h.orderId in OrderIds(t.orders))
    && (forall e :: e in t.watchlist ==> e.userId in UserIds(t.users) && e.movieId in t.movies)
    && (uniqueWatch ==> PairsUnique(t.watchlist))
  }

  class Database {
    var movies: map<int, Movie>
    var movieCategories: seq<CategoryLink>
    var orders: seq<Order>
    var orderItems: seq<OrderItem>
    var orderHistory: seq<HistoryEntry>
    var watchlist: seq<WatchEntry>
    var users: seq<User>
    /** AUTO_INCREMENT counters; a rolled-back insert does not give its id back. */
    var nextMovieId: int
    var nextOrderId: int
    var nextItemId: int
    var nextHistoryId: int
    var nextWatchId: int
    var nextUserId: int
    /** Whether the watchlist table carries UNIQUE KEY (user_id, movie_id). */
    const uniqueWatch: bool
    /** Whether the users table has the `name` column profile.php writes; the CREATE TABLE in
        config.php gives it first_name and last_name instead. */
    const nameColumn: bool

    function Snapshot(): Tables
      reads this
    {
      Tables(movies, movieCategories, orders, orderItems, orderHistory, watchlist, users)
    }

    ghost predicate Valid()
      reads this
    {
      && Consistent(Snapshot(), uniqueWatch)
      && (forall k :: k in movies ==> k < nextMovieId)
      && (forall o :: o in orders ==> o.id < nextOrderId)
      && (forall h :: h in orderHistory ==> h.id < nextHistoryId)
      && (forall e :: e in watchlist ==> e.id < nextWatchId)
      && (forall u :: u in users ==> u.id < nextUserId)
    }

    /** Ids only grow, so a state valid under older counters stays valid under newer ones. */
    ghost predicate CountersAtLeast(t: Tables, mv: int, o: int, h: int, w: int, u: int)
      reads this
    {
      && Consistent(t, uniqueWatch)
      && (forall k :: k in t.movies ==> k < mv) && mv <= nextMovieId
      && (forall x :: x in t.orders ==> x.id < o) && o <= nextOrderId
      && (forall x :: x in t.orderHistory ==> x.id < h) && h <= nextHistoryId
      && (forall x :: x in t.watchlist ==> x.id < w) && w <= nextWatchId
      && (forall x :: x in t.users ==> x.id < u) && u <= nextUserId
    }

    /** Empty tables; `uniqueWatch` says whether the watchlist table was created with its UNIQUE KEY,
        `nameColumn` whether the users table has a `name` column. */
    constructor (uniqueWatch: bool, nameColumn: bool)
      ensures Valid() && this.uniqueWatch == uniqueWatch && this.nameColumn == nameColumn
      ensures Snapshot() == Tables(map[], [], [], [], [], [], [])
    {
      this.uniqueWatch := uniqueWatch;
      this.nameColumn := nameColumn;
      movies, movieCategories, orders, orderItems := map[], [], [], [];
      orderHistory, watchlist, users := [], [], [];
      nextMovieId, nextOrderId, nextItemId, nextHistoryId, nextWatchId, nextUserId := 1, 1, 1, 1, 1, 1;
    }

    /** ROLLBACK: every table returns to the saved contents; the counters keep their values. */
    method Restore(saved: Tables, mv: int, o: int, h: int, w: int, u: int)
      requires CountersAtLeast(saved, mv, o, h, w, u)
      modifies this
      ensures Valid() && Snapshot() == saved
      ensures nextMovieId == old(nextMovieId) && nextOrderId == old(nextOrderId) && nextItemId == old(nextItemId)
      ensures nextHistoryId == old(nextHistoryId) && nextWatchId == old(nextWatchId) && nextUserId == old(nextUserId)
    {
      movies, movieCategories, orders, orderItems := saved.movies, saved.movieCategories, saved.orders, saved.orderItems;
      orderHistory, watchlist, users := saved.orderHistory, saved.watchlist, saved.users;
      assert Snapshot() == saved;
      assert Consistent(Snapshot(), uniqueWatch);
    }

    /** INSERT INTO orders: refused when the user row is missing (FOREIGN KEY user_id). */
    method InsertOrder(userId: int, total: int, status: OrderStatus, paymentMethod: Option<string>, fault: bool)
      returns (err: Option<DbError>, id: int)
      requires Valid()
      modifies this
      ensures Valid() && nextOrderId >= old(nextOrderId)
      ensures err.None? <==> !fault && userId in UserIds(old(users))
      ensures err.None? ==> id == old(nextOrderId) && id !in OrderIds(old(orders))
      ensures err.None? ==> Snapshot() == old(Snapshot()).(orders := old(orders) + [Order(id, userId, total, status, paymentMethod)])
      ensures err.Some? ==> Snapshot() == old(Snapshot())
      ensures nextMovieId == old(nextMovieId) && nextHistoryId == old(nextHistoryId) && nextItemId == old(nextItemId)
      ensures nextWatchId == old(nextWatchId) && nextUserId == old(nextUserId)
    {
      id := nextOrderId;
      nextOrderId := nextOrderId + 1;
      if fault {
        err := Some(OtherError);
      } else if userId !in UserIds(users) {
        err := Some(IntegrityViolation);
      } else {
        assert id !in OrderIds(orders);
        orders := orders + [Order(id, userId, total, status, paymentMethod)];
        err := None;
      }
    }

    /** INSERT INTO order_items: refused when the order or the movie is missing (FOREIGN KEYs). */
    method InsertOrderItem(orderId: int, movieId: int, price: int, quantity: int, fault: bool)
      returns (err: Option<DbError>)
      requires Valid()
      modifies this
      ensures Valid() && nextOrderId == old(nextOrderId)
      ensures err.None? <==> !fault && orderId in OrderIds(old(orders)) && movieId in old(movies)
      ensures err.None? ==> Snapshot() == old(Snapshot()).(orderItems := old(orderItems) + [OrderItem(old(nextItemId), orderId, movieId, price, quantity)])
      ensures err.Some? ==> Snapshot() == old(Snapshot())
      ensures nextMovieId == old(nextMovieId) && nextHistoryId == old(nextHistoryId)
      ensures nextWatchId == old(nextWatchId) && nextUserId == old(nextUserId) && nextItemId == old(nextItemId) + 1
    {
      var id := nextItemId;
      nextItemId := nextItemId + 1;
      if fault {
        err := Some(OtherError);
      } else if orderId !in OrderIds(orders) || movieId !in movies {
        err := Some(IntegrityViolation);
      } else {
        orderItems := orderItems + [OrderItem(id, orderId, movieId, price, quantity)];
        err := None;
      }
    }

    /** INSERT INTO order_history: refused when the order is missing (FOREIGN KEY order_id). */
    method InsertHistory(orderId: int, status: OrderStatus, description: string, fault: bool)
      returns (err: Option<DbError>)
      requires Valid()
      modifies this
      ensures Valid() && nextOrderId == old(nextOrderId) && nextHistoryId >= old(nextHistoryId)
      ensures err.None? <==> !fault && orderId in OrderIds(old(orders))
      ensures err.None? ==> Snapshot() == old(Snapshot()).(orderHistory := old(orderHistory) + [HistoryEntry(old(nextHistoryId), orderId, status, description)])
      ensures err.Some? ==> Snapshot() == old(Snapshot())
      ensures nextMovieId == old(nextMovieId) && nextWatchId == old(nextWatchId) && nextUserId == old(nextUserId)
    {
      var id := nextHistoryId;
      nextHistoryId := nextHistoryId + 1;
      if fault {
        err := Some(OtherError);
      } else if orderId !in OrderIds(orders) {
        err := Some(IntegrityViolation);
      } else {
        orderHistory := orderHistory + [HistoryEntry(id, orderId, status, description)];
        err := None;
      }
    }

    /** UPDATE orders SET status = ? WHERE id = ?: every row with that id; none when there is no such order. */
    method UpdateOrderStatus(orderId: int, status: OrderStatus, fault: bool) returns (err: Option<DbError>)
      requires Valid()
      modifies this
      ensures Valid() && nextOrderId == old(nextOrderId) && nextHistoryId == old(nextHistoryId)
      ensures err.None? <==> !fault
      ensures err.None? ==> Snapshot() == old(Snapshot()).(orders := WithStatus(old(orders), orderId, status))
      ensures err.Some? ==> Snapshot() == old(Snapshot())
      ensures nextMovieId == old(nextMovieId) && nextWatchId == old(nextWatchId) && nextUserId == old(nextUserId)
    {
      if fault {
        err := Some(OtherError);
      } else {
        WithStatusKeepsIds(orders, orderId, status, UserIds(users), nextOrderId);
        orders := WithStatus(orders, orderId, status);
        err := None;
      }
    }

    /** INSERT INTO watchlist: refused with 23000 when the user or movie is missing, or, when the
        table has its UNIQUE KEY, when the pair is already there. */
    method InsertWatch(userId: int, movieId: int, fault: bool) returns (err: Option<DbError>)
      requires Valid()
      modifies this
      ensures Valid() && nextOrderId == old(nextOrderId)
      ensures fault ==> err == Some(OtherError)
      ensures !fault ==> (err.None? <==>
        userId in UserIds(old(users)) && movieId in old(movies) && !(uniqueWatch && HasPair(old(watchlist), userId, movieId)))
      ensures !fault && err.Some? ==> err == Some(IntegrityViolation)
      ensures err.None? ==> Snapshot() == old(Snapshot()).(watchlist := old(watchlist) + [WatchEntry(old(nextWatchId), userId, movieId)])
      ensures err.Some? ==> Snapshot() == old(Snapshot())
      ensures nextMovieId == old(nextMovieId) && nextHistoryId == old(nextHistoryId) && nextUserId == old(nextUserId)
    {
      var id := nextWatchId;
      nextWatchId := nextWatchId + 1;
      if fault {
        err := Some(OtherError);
      } else if userId !in UserIds(users) || movieId !in movies || (uniqueWatch && HasPair(watchlist, userId, movieId)) {
        err := Some(IntegrityViolation);
      } else {
        var w := watchlist + [WatchEntry(id, userId, movieId)];
        assert uniqueWatch ==> PairsUnique(w) by {
          if uniqueWatch {
            forall i, j | 0 <= i < j < |w|
              ensures !(w[i].userId == w[j].userId && w[i].movieId == w[j].movieId)
            {
              if j == |w| - 1 { assert w[i] in watchlist; }
            }
          }
        }
        watchlist := w;
        err := None;
      }
    }

    /** DELETE FROM watchlist WHERE user_id = ? AND movie_id = ?. */
    method DeleteWatch(userId: int, movieId: int, fault: bool) returns (err: Option<DbError>)
      requires Valid()
      modifies this
      ensures Valid() && nextOrderId == old(nextOrderId)
      ensures err.None? <==> !fault
      ensures err.None? ==> Snapshot() == old(Snapshot()).(watchlist := WithoutPair(old(watchlist), userId, movieId))
      ensures err.Some? ==> Snapshot() == old(Snapshot())
      ensures nextMovieId == old(nextMovieId) && nextHistoryId == old(nextHistoryId)
      ensures nextWatchId == old(nextWatchId) && nextUserId == old(nextUserId)
    {
      if fault {
        err := Some(OtherError);
      } else {
        if uniqueWatch { WithoutPairKeepsUnique(watchlist, userId, movieId); }
        watchlist := WithoutPair(watchlist, userId, movieId);
        err := None;
      }
    }

    /** DELETE FROM movies WHERE id = ?: refused while order_items or watchlist rows reference the
        movie (config.php declares both foreign keys without ON DELETE CASCADE). */
    method DeleteMovie(movieId: int, fault: bool) returns (err: Option<DbError>)
      requires Valid()
      modifies this
      ensures Valid() && nextOrderId == old(nextOrderId)
      ensures err.None? <==> !fault && UsageCount(old(orderItems), movieId) == 0
                                  && (forall e :: e in old(watchlist) ==> e.movieId != movieId)
      ensures err.None? ==> Snapshot() == old(Snapshot()).(movies := old(movies) - {movieId})
      ensures err.Some? ==> Snapshot() == old(Snapshot())
      ensures nextMovieId == old(nextMovieId) && nextHistoryId == old(nextHistoryId)
      ensures nextWatchId == old(nextWatchId) && nextUserId == old(nextUserId)
    {
      if fault {
        err := Some(OtherError);
      } else if UsageCount(orderItems, movieId) != 0 || (exists e :: e in watchlist && e.movieId == movieId) {
        err := Some(IntegrityViolation);
      } else {
        assert forall it :: it in orderItems ==> it.movieId != movieId by {
          forall it | it in orderItems ensures it.movieId != movieId {
            var k :| 0 <= k < |orderItems| && orderItems[k] == it;
          }
        }
        movies := movies - {movieId};
        err := None;
      }
    }

    /** INSERT INTO movies: the new row gets the next id. */
    method InsertMovie(m: Movie, fault: bool) returns (err: Option<DbError>, id: int)
      requires Valid()
      modifies this
      ensures Valid() && nextOrderId == old(nextOrderId)
      ensures err.None? <==> !fault
      ensures id == old(nextMovieId) && id !in old(movies)
      ensures err.None? ==> Snapshot() == old(Snapshot()).(movies := old(movies)[id := m.(id := id)])
      ensures err.Some? ==> Snapshot() == old(Snapshot())
      ensures nextMovieId > old(nextMovieId) && nextHistoryId == old(nextHistoryId)
      ensures nextWatchId == old(nextWatchId) && nextUserId == old(nextUserId)
    {
      id := nextMovieId;
      nextMovieId := nextMovieId + 1;
      if fault {
        err := Some(OtherError);
      } else {
        movies := movies[id := m.(id := id)];
        err := None;
      }
    }

    /** UPDATE movies SET ... WHERE id = ?: replaces the row's columns; no row, no change. */
    method UpdateMovie(id: int, m: Movie, fault: bool) returns (err: Option<DbError>)
      requires Valid()
      modifies this
      ensures Valid() && nextOrderId == old(nextOrderId)
      ensures err.None? <==> !fault
      ensures err.None? ==> Snapshot() == old(Snapshot()).(movies := if id in old(movies) then old(movies)[id := m.(id := id)] else old(movies))
      ensures err.Some? ==> Snapshot() == old(Snapshot())
      ensures nextMovieId == old(nextMovieId) && nextHistoryId == old(nextHistoryId)
      ensures nextWatchId == old(nextWatchId) && nextUserId == old(nextUserId)
    {
      if fault {
        err := Some(OtherError);
      } else {
        if id in movies { movies := movies[id := m.(id := id)]; }
        err := None;
      }
    }

    /** UPDATE movies SET status = ? WHERE id = ?: no row, no change. */
    method SetMovieStatus(id: int, status: MovieStatus, fault: bool) returns (err: Option<DbError>)
      requires Valid()
      modifies this
      ensures Valid() && nextOrderId == old(nextOrderId)
      ensures err.None? <==> !fault
      ensures err.None? ==> Snapshot() == old(Snapshot()).(movies := if id in old(movies) then old(movies)[id := old(movies)[id].(status := status)] else old(movies))
      ensures err.Some? ==> Snapshot() == old(Snapshot())
      ensures nextMovieId == old(nextMovieId) && nextHistoryId == old(nextHistoryId)
      ensures nextWatchId == old(nextWatchId) && nextUserId == old(nextUserId)
    {
      if fault {
        err := Some(OtherError);
      } else {
        if id in movies { movies := movies[id := movies[id].(status := status)]; }
        err := None;
      }
    }

    /** DELETE FROM movie_categories WHERE movie_id = ?. */
    method DeleteCategoryLinks(movieId: int, fault: bool) returns (err: Option<DbError>)
      requires Valid()
      modifies this
      ensures Valid() && nextOrderId == old(nextOrderId)
      ensures err.None? <==> !fault
      ensures err.None? ==> Snapshot() == old(Snapshot()).(movieCategories := LinksWithout(old(movieCategories), movieId))
      ensures err.Some? ==> Snapshot() == old(Snapshot())
      ensures nextMovieId == old(nextMovieId) && nextHistoryId == old(nextHistoryId)
      ensures nextWatchId == old(nextWatchId) && nextUserId == old(nextUserId)
    {
      if fault {
        err := Some(OtherError);
      } else {
        movieCategories := LinksWithout(movieCategories, movieId);
        err := None;
      }
    }

    /** INSERT INTO movie_categories (movie_id, category_id). */
    method InsertCategoryLink(movieId: int, categoryId: int, fault: bool) returns (err: Option<DbError>)
      requires Valid()
      modifies this
      ensures Valid() && nextOrderId == old(nextOrderId)
      ensures err.None? <==> !fault
      ensures err.None? ==> Snapshot() == old(Snapshot()).(movieCategories := old(movieCategories) + [CategoryLink(movieId, categoryId)])
      ensures err.Some? ==> Snapshot() == old(Snapshot())
      ensures nextMovieId == old(nextMovieId) && nextHistoryId == old(nextHistoryId)
      ensures nextWatchId == old(nextWatchId) && nextUserId == old(nextUserId)
    {
      if fault {
        err := Some(OtherError);
      } else {
        movieCategories := movieCategories + [CategoryLink(movieId, categoryId)];
        err := None;
      }
    }

    /** INSERT INTO users: refused with 23000 when the username or the email is taken (UNIQUE). */
    method InsertUser(username: string, email: string, passwordHash: string, fault: bool)
      returns (err: Option<DbError>, id: int)
      requires Valid()
      modifies this
      ensures Valid() && nextOrderId == old(nextOrderId)
      ensures id == old(nextUserId) && id !in UserIds(old(users))
      ensures err.None? <==> !fault && !TakenBy(old(users), username, email)
      ensures err.None? ==> Snapshot() == old(Snapshot()).(users := old(users) + [User(id, username, email, passwordHash, 2, None)])
      ensures err.Some? ==> Snapshot() == old(Snapshot())
      ensures nextMovieId == old(nextMovieId) && nextHistoryId == old(nextHistoryId) && nextWatchId == old(nextWatchId)
    {
      id := nextUserId;
      nextUserId := nextUserId + 1;
      if fault {
        err := Some(OtherError);
      } else if TakenBy(users, username, email) {
        err := Some(IntegrityViolation);
      } else {
        users := users + [User(id, username, email, passwordHash, 2, None)];
        err := None;
      }
    }

    /** UPDATE users SET name = ?, email = ? WHERE id = ?: refused when the table has no `name`
        column, and with 23000 when another user holds the email (UNIQUE). */
    method UpdateUserProfile(userId: int, name: string, email: string, fault: bool) returns (err: Option<DbError>)
      requires Valid()
      modifies this
      ensures Valid() && nextOrderId == old(nextOrderId)
      ensures err.None? <==> !fault && nameColumn && !EmailOfOther(old(users), userId, email)
      ensures err.None? ==> Snapshot() == old(Snapshot()).(users := WithProfile(old(users), userId, name, email))
      ensures err.Some? ==> Snapshot() == old(Snapshot())
      ensures nextMovieId == old(nextMovieId) && nextHistoryId == old(nextHistoryId)
      ensures nextWatchId == old(nextWatchId) && nextUserId == old(nextUserId)
    {
      if fault || !nameColumn {
        err := Some(OtherError);
      } else if EmailOfOther(users, userId, email) {
        err := Some(IntegrityViolation);
      } else {
        WithProfileKeepsIds(users, userId, name, email, nextUserId);
        users := WithProfile(users, userId, name, email);
        err := None;
      }
    }
  }

  /** An email held by a user other than `userId`. */
  predicate EmailOfOther(users: seq<User>, userId: int, email: string) {
    exists u :: u in users && u.id != userId && u.email == email
  }

  /** A username or email already present in the users table. */
  predicate TakenBy(users: seq<User>, username: string, email: string) {
    exists u :: u in users && (u.username == username || u.email == email)
  }

  function WithStatus(os: seq<Order>, orderId: int, status: OrderStatus): (r: seq<Order>)
    ensures |r| == |os|
    ensures forall k :: 0 <= k < |os| ==> r[k] == if os[k].id == orderId then os[k].(status := status) else os[k]
  {
    seq(|os|, k requires 0 <= k < |os| => if os[k].id == orderId then os[k].(status := status) else os[k])
  }

  /** Changing a status keeps every order's id and user, so the ids, the users' foreign key and the
      id bound all carry over. */
  lemma WithStatusKeepsIds(os: seq<Order>, orderId: int, status: OrderStatus, users: set<int>, bound: int)
    requires forall p :: p in os ==> p.userId in users && p.id < bound
    ensures OrderIds(WithStatus(os, orderId, status)) == OrderIds(os)
    ensures forall o :: o in WithStatus(os, orderId, status) ==> o.userId in users && o.id < bound
  {
    var r := WithStatus(os, orderId, status);
    forall x | x in OrderIds(os) ensures x in OrderIds(r) {
      var o :| o in os && o.id == x;
      var k :| 0 <= k < |os| && os[k] == o;
      assert r[k] in r && r[k].id == x;
    }
    forall x | x in OrderIds(r) ensures x in OrderIds(os) {
      var o :| o in r && o.id == x;
      var k :| 0 <= k < |r| && r[k] == o;
      assert os[k] in os && os[k].id == x;
    }
    forall o | o in r ensures o.userId in users && o.id < bound {
      var k :| 0 <= k < |r| && r[k] == o;
      assert os[k] in os;
    }
  }

  function WithProfile(us: seq<User>, userId: int, name: string, email: string): (r: seq<User>)
    ensures |r| == |us|
    ensures forall k :: 0 <= k < |us| ==> r[k] == if us[k].id == userId then us[k].(name := Some(name), email := email) else us[k]
  {
    seq(|us|, k requires 0 <= k < |us| => if us[k].id == userId then us[k].(name := Some(name), email := email) else us[k])
  }

  /** Changing a name and email keeps every user's id, so the id set and the id bound carry over. */
  lemma WithProfileKeepsIds(us: seq<User>, userId: int, name: string, email: string, bound: int)
    requires forall v :: v in us ==> v.id < bound
    ensures UserIds(WithProfile(us, userId, name, email)) == UserIds(us)
    ensures forall u :: u in WithProfile(us, userId, name, email) ==> u.id < bound
  {
    var r := WithProfile(us, userId, name, email);
    forall x | x in UserIds(us) ensures x in UserIds(r) {
      var u :| u in us && u.id == x;
      var k :| 0 <= k < |us| && us[k] == u;
      assert r[k] in r && r[k].id == x;
    }
    forall x | x in UserIds(r) ensures x in UserIds(us) {
      var u :| u in r && u.id == x;
      var k :| 0 <= k < |r| && r[k] == u;
      assert us[k] in us && us[k].id == x;
    }
    forall u | u in r ensures u.id < bound {
      var k :| 0 <= k < |r| && r[k] == u;
      assert us[k] in us;
    }
  }


  lemma {:induction false} WithoutPairKeepsUnique(rows: seq<WatchEntry>, userId: int, movieId: int)
    requires PairsUnique(rows)
    ensures PairsUnique(WithoutPair(rows, userId, movieId))
  {
    if rows != [] {
      var init := rows[..|rows| - 1];
      assert PairsUnique(init);
      WithoutPairKeepsUnique(init, userId, movieId);
      var rest := WithoutPair(init, userId, movieId);
      var e := rows[|rows| - 1];
      if !(e.userId == userId && e.movieId == movieId) {
        var w := rest + [e];
        forall i, j | 0 <= i < j < |w|
          ensures !(w[i].userId == w[j].userId && w[i].movieId == w[j].movieId)
        {
          if j == |w| - 1 {
            assert w[i] in init;
            var k :| 0 <= k < |init| && init[k] == w[i];
          }
        }
      }
    }
  }

  /** A decimal number as MySQL reads it from the front of a string it compares with a number:
      ±mantissa × 10^(exponent − scale), where the mantissa holds the digits before and after the
      point and the scale counts those after it. */
  datatype SqlNumber = SqlNumber(negative: bool, mantissa: nat, scale: nat, exponent: int)

  /** The exponent part "e"/"E", a sign and digits; none (0) when the string does not start with it. */
  function ExponentOf(a: string): int {
    if a == [] || (a[0] != 'e' && a[0] != 'E') then 0
    else if |a| > 1 && a[1] == '-' then -(LeadingDigitsValue(a[2..]) as int)
    else if |a| > 1 && a[1] == '+' then LeadingDigitsValue(a[2..])
    else LeadingDigitsValue(a[1..])
  }

  /** The digits after a leading point of `rest`; none when `rest` does not start with one. */
  function Fraction(rest: string): (f: string)
    ensures AllDigits(f)
    ensures rest != [] && rest[0] == '.' ==> 1 + |f| <= |rest| && f == rest[1..1 + |f|]
    ensures !(rest != [] && rest[0] == '.') ==> f == []
  {
    if rest != [] && rest[0] == '.' then rest[1..][..DigitRun(rest[1..])] else []
  }

  /** What follows the point and its digits. */
  function AfterFraction(rest: string): string {
    if rest != [] && rest[0] == '.' then rest[1 + |Fraction(rest)|..] else rest
  }

  lemma DigitsJoin(a: string, b: string)
    requires AllDigits(a) && AllDigits(b)
    ensures AllDigits(a + b)
  {
    assert forall i :: 0 <= i < |a + b| ==> (a + b)[i] == if i < |a| then a[i] else b[i - |a|];
  }

  /** The unsigned part: digits, a point and digits, an exponent, as far as they go. */
  function UnsignedSqlNumber(negative: bool, u: string): SqlNumber {
    var k := DigitRun(u);
    var frac := Fraction(u[k..]);
    DigitsJoin(u[..k], frac);
    SqlNumber(negative, DigitsValue(u[..k] + frac), |frac|, ExponentOf(AfterFraction(u[k..])))
  }

  /** Leading whitespace, a sign, then the unsigned part; the rest of the string is ignored, and a
      string without digits reads as 0. */
  function SqlNumberOf(s: string): SqlNumber {
    var t := SkipNumericSpace(s);
    if t != [] && (t[0] == '-' || t[0] == '+') then UnsignedSqlNumber(t[0] == '-', t[1..])
    else UnsignedSqlNumber(false, t)
  }

  function SignedMantissa(n: SqlNumber): int {
    if n.negative then -(n.mantissa as int) else n.mantissa
  }

  /** The comparison `id = ?` of an INT column with a bound string, which MySQL makes on the
      numbers: the id equals ±mantissa × 10^(exponent − scale), cross-multiplied when the power
      is negative so that the comparison stays exact. */
  predicate SqlEquals(s: string, id: int) {
    NumberEquals(SqlNumberOf(s), id)
  }

  predicate NumberEquals(n: SqlNumber, id: int) {
    var shift := n.exponent - n.scale;
    if shift >= 0 then id == SignedMantissa(n) * Pow10(shift)
    else id * Pow10(-shift) == SignedMantissa(n)
  }

  /** The id a `WHERE id = ?` with this string bound matches, when its value is a whole number;
      none when it has a fractional part, so that no row matches. */
  function SqlIntKey(s: string): Option<int> {
    NumberKey(SqlNumberOf(s))
  }

  function NumberKey(n: SqlNumber): Option<int> {
    var shift := n.exponent - n.scale;
    if shift >= 0 then Some(SignedMantissa(n) * Pow10(shift))
    else if SignedMantissa(n) % Pow10(-shift) == 0 then Some(SignedMantissa(n) / Pow10(-shift))
    else None
  }

  /** A row's id matches the bound string exactly when it is the string's key. */
  lemma SqlKeyMatches(s: string, id: int)
    ensures SqlIntKey(s) == Some(id) <==> SqlEquals(s, id)
  {
    NumberKeyMatches(SqlNumberOf(s), id);
  }

  lemma NumberKeyMatches(n: SqlNumber, id: int)
    ensures NumberKey(n) == Some(id) <==> NumberEquals(n, id)
  {
    var shift := n.exponent - n.scale;
    if shift < 0 {
      var m, p := SignedMantissa(n), Pow10(-shift);
      if NumberEquals(n, id) {
        assert m == id * p;
        DivModOfMultiple(id, p);
      }
      if NumberKey(n) == Some(id) {
        assert m % p == 0 && id == m / p;
        assert m == p * (m / p) + m % p;
      }
    }
  }

  /** Division by p undoes multiplication by p and leaves no remainder. */
  lemma DivModOfMultiple(a: int, p: nat)
    requires p > 0
    ensures (a * p) % p == 0 && (a * p) / p == a
  {
    var q, r := (a * p) / p, (a * p) % p;
    assert a * p == p * q + r && 0 <= r < p;
    var d := a - q;
    assert p * d == a * p - p * q;
    assert p * d == r;
    if d > 0 {
      MulAtLeast(p, d);
    }
  }

  lemma {:induction false} MulAtLeast(p: nat, d: nat)
    requires d >= 1
    ensures p * d >= p
  {
    if d > 1 {
      MulAtLeast(p, d - 1);
      assert p * d == p * (d - 1) + p;
    }
  }

  /** A printed integer is read back as itself, as (int) reads it. */
  lemma SqlKeyOfPrintedInt(n: int)
    ensures SqlIntKey(IntToString(n)) == Some(n) == Some(IntCast(IntToString(n)))
  {
    IntCastRoundTrip(n);
    var m := if n < 0 then -n else n;
    var d := NatToString(m);
    PrintedDigitsClean(m);
    if n < 0 {
      SqlNumberOfNegated(d);
    } else {
      SqlNumberOfUnsigned(d);
    }
    UnsignedOfDigits(n < 0, d);
    var k := SqlNumber(n < 0, m, 0, 0);
    assert SqlNumberOf(IntToString(n)) == k;
    assert Pow10(0) == 1;
    assert NumberKey(k) == Some(SignedMantissa(k));
  }

  /** A string starting with a digit has no sign to read. */
  lemma SqlNumberOfUnsigned(s: string)
    requires s != [] && IsDigit(s[0])
    ensures SqlNumberOf(s) == UnsignedSqlNumber(false, s)
  {
    assert SkipNumericSpace(s) == s;
  }

  lemma SqlNumberOfNegated(d: string)
    requires d != [] && AllDigits(d)
    ensures SqlNumberOf("-" + d) == UnsignedSqlNumber(true, d)
  {
    var s := "-" + d;
    assert SkipNumericSpace(s) == s;
    assert s[1..] == d;
  }

  /** A digit string alone reads as its value, with no point and no exponent. */
  lemma UnsignedOfDigits(negative: bool, d: string)
    requires AllDigits(d)
    ensures UnsignedSqlNumber(negative, d) == SqlNumber(negative, DigitsValue(d), 0, 0)
  {
    DigitRunAll(d);
    assert d[..|d|] == d && d[|d|..] == [] && d + [] == d;
    assert Fraction([]) == [] && AfterFraction([]) == [] && ExponentOf([]) == 0;
  }

  lemma {:induction false} DigitRunPrefix(a: string, r: string)
    requires AllDigits(a) && (r == [] || !IsDigit(r[0]))
    ensures DigitRun(a + r) == |a|
  {
    if a == [] {
      assert a + r == r;
    } else {
      assert (a + r)[1..] == a[1..] + r;
      DigitRunPrefix(a[1..], r);
    }
  }

  /** The unsigned part split at the end of its leading digits. */
  lemma UnsignedSplit(negative: bool, a: string, r: string)
    requires AllDigits(a) && (r == [] || !IsDigit(r[0]))
    ensures UnsignedSqlNumber(negative, a + r)
         == SqlNumber(negative, DigitsValue(a + Fraction(r)), |Fraction(r)|, ExponentOf(AfterFraction(r)))
  {
    DigitRunPrefix(a, r);
    var u := a + r;
    assert u[..|a|] == a && u[|a|..] == r;
  }

  /** Digits, a point and digits read as their digits together, scaled by the digits after the point. */
  lemma DecimalReads(a: string, b: string)
    requires a != [] && AllDigits(a) && AllDigits(b)
    ensures SqlNumberOf(a + "." + b) == SqlNumber(false, DigitsValue(a + b), |b|, 0)
  {
    UnsignedDecimal(a, b);
    var s := a + "." + b;
    assert s[0] == a[0];
    SqlNumberOfUnsigned(s);
  }

  lemma UnsignedDecimal(a: string, b: string)
    requires AllDigits(a) && AllDigits(b)
    ensures UnsignedSqlNumber(false, a + "." + b) == SqlNumber(false, DigitsValue(a + b), |b|, 0)
  {
    var r := "." + b;
    assert a + "." + b == a + r;
    UnsignedSplit(false, a, r);
    PointDigits(b);
  }

  /** A point followed by digits is all fraction. */
  lemma PointDigits(b: string)
    requires AllDigits(b)
    ensures Fraction("." + b) == b && AfterFraction("." + b) == []
  {
    var r := "." + b;
    DigitRunAll(b);
    assert r[1..] == b && b[..|b|] == b;
    assert r[1 + |b|..] == [];
  }

  /** "5.5" has a fractional part, so the DELETE matches no row, where (int) reads 5. */
  lemma FractionMatchesNothing()
    ensures SqlIntKey("5.5") == None && IntCast("5.5") == 5
  {
    ReadsFiveFive();
    FiftyFiveTenthsNotWhole();
    IntCastStopsAtPoint();
  }

  lemma ReadsFiveFive()
    ensures SqlNumberOf("5.5") == SqlNumber(false, 55, 1, 0)
  {
    TwoDigits('5', '5');
    assert "5" + "." + "5" == "5.5";
    DecimalReads("5", "5");
  }

  lemma TwoDigits(c: char, d: char)
    requires IsDigit(c) && IsDigit(d)
    ensures DigitsValue([c] + [d]) == 10 * (c as int - '0' as int) + (d as int - '0' as int)
  {
    var s := [c] + [d];
    assert |s| == 2 && s[1] == d && s[..1] == [c];
    OneDigit(c);
  }

  lemma FiftyFiveTenthsNotWhole()
    ensures NumberKey(SqlNumber(false, 55, 1, 0)) == None
  {
    assert Pow10(1) == 10;
    assert 55 % 10 == 5;
  }

  lemma IntCastStopsAtPoint()
    ensures IntCast("5.5") == 5
  {
    var s := "5.5";
    assert SkipNumericSpace(s) == s;
    DigitRunPrefix("5", ".5");
    assert "5" + ".5" == s;
    assert s[..1] == "5";
  }

  /** "5.0" is the whole number 5. */
  lemma ZeroFractionMatchesWhole()
    ensures SqlIntKey("5.0") == Some(5)
  {
    ReadsFiveZero();
    FiftyTenthsWhole();
  }

  lemma ReadsFiveZero()
    ensures SqlNumberOf("5.0") == SqlNumber(false, 50, 1, 0)
  {
    TwoDigits('5', '0');
    assert "5" + "." + "0" == "5.0";
    DecimalReads("5", "0");
  }

  lemma FiftyTenthsWhole()
    ensures NumberKey(SqlNumber(false, 50, 1, 0)) == Some(5)
  {
    assert Pow10(1) == 10;
    assert 50 % 10 == 0 && 50 / 10 == 5;
  }

  /** "1e1" is read with its exponent as 10, where (int) reads 1. */
  lemma ExponentScalesKey()
    ensures SqlIntKey("1e1") == Some(10) && IntCast("1e1") == 1
  {
    ReadsOneEOne();
    assert NumberKey(SqlNumber(false, 1, 0, 1)) == Some(10) by {
      assert Pow10(1) == 10;
    }
    IntCastStopsAtExponent();
  }

  lemma ReadsOneEOne()
    ensures SqlNumberOf("1e1") == SqlNumber(false, 1, 0, 1)
  {
    OneDigit('1');
    assert "1" + "e" + "1" == "1e1";
    ExponentReads("1", "1");
  }

  /** Digits, an "e" and digits read as the first digits scaled by the power the second give. */
  lemma ExponentReads(a: string, d: string)
    requires a != [] && AllDigits(a) && d != [] && AllDigits(d)
    ensures SqlNumberOf(a + "e" + d) == SqlNumber(false, DigitsValue(a), 0, DigitsValue(d))
  {
    UnsignedExponent(a, d);
    var s := a + "e" + d;
    assert s[0] == a[0];
    SqlNumberOfUnsigned(s);
  }

  lemma UnsignedExponent(a: string, d: string)
    requires AllDigits(a) && d != [] && AllDigits(d)
    ensures UnsignedSqlNumber(false, a + "e" + d) == SqlNumber(false, DigitsValue(a), 0, DigitsValue(d))
  {
    var r := "e" + d;
    assert a + "e" + d == a + r;
    UnsignedSplit(false, a, r);
    assert Fraction(r) == [] && AfterFraction(r) == r;
    assert a + [] == a;
    assert r[1..] == d && d[0] != '-' && d[0] != '+';
    LeadingDigitsOfDigits(d);
  }

  lemma OneDigit(c: char)
    requires IsDigit(c)
    ensures DigitsValue([c]) == c as int - '0' as int
  {
    assert [c][..0] == [];
  }

  lemma IntCastStopsAtExponent()
    ensures IntCast("1e1") == 1
  {
    var s := "1e1";
    assert SkipNumericSpace(s) == s;
    DigitRunPrefix("1", "e1");
    assert "1" + "e1" == s;
    assert s[..1] == "1";
  }
}
