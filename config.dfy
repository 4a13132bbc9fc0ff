/** The helper functions of config.php: session predicates, status colours, input sanitising,
    CSRF checking, the cart badge count and the order-history transaction. */
module Config {
  import opened Php
  import opened Store
  import opened Sessions

  /** isLoggedIn(): a user id is in the session. */
  predicate IsLoggedIn(st: SessionState) {
    st.userId.Some?
  }

  /** isAdmin(): both user_id and role_id are set and role_id == 1. */
  function IsAdmin(st: SessionState): (r: bool)
    ensures r ==> IsLoggedIn(st)
    ensures r <==> st.roleId == Some(1) && IsLoggedIn(st)
  {
    if st.userId.None? || st.roleId.None? then false else st.roleId.value == 1
  }

  /** The four order statuses by their ENUM names. */
  function StatusName(s: OrderStatus): string {
    match s
    case Pending => "pending"
    case Completed => "completed"
    case Cancelled => "cancelled"
    case Refunded => "refunded"
  }

  /** The ENUM value a status string names, if any. */
  function StatusNamed(name: string): (r: Option<OrderStatus>)
    ensures r.Some? ==> StatusName(r.value) == name
    ensures forall s :: StatusName(s) == name ==> r == Some(s)
  {
    if name == "pending" then Some(Pending)
    else if name == "completed" then Some(Completed)
    else if name == "cancelled" then Some(Cancelled)
    else if name == "refunded" then Some(Refunded)
    else None
  }

  /** getStatusColor(): the badge colour for an order status string. */
  function StatusColor(status: string): (color: string)
    ensures color == "secondary" <==> StatusNamed(status).None?
    ensures status == "completed" ==> color == "success"
    ensures status == "pending" ==> color == "warning"
    ensures status == "cancelled" ==> color == "danger"
    ensures status == "refunded" ==> color == "info"
  {
    match status
    case "completed" => "success"
    case "pending" => "warning"
    case "cancelled" => "danger"
    case "refunded" => "info"
    case _ => "secondary"
  }

  /** Each of the four statuses gets its own colour, and none of them the fallback. */
  lemma StatusColorsDistinct(a: OrderStatus, b: OrderStatus)
    ensures StatusColor(StatusName(a)) != "secondary"
    ensures a != b ==> StatusColor(StatusName(a)) != StatusColor(StatusName(b))
  {
  }

  /** The characters htmlspecialchars() with ENT_QUOTES turns into entities. */
  predicate IsSpecial(c: char) {
    c == '&' || IsMarkup(c)
  }

  /** The special characters other than '&', which never appear in escaped text. */
  predicate IsMarkup(c: char) {
    c == '<' || c == '>' || c == '"' || c == '\''
  }

  /** htmlspecialchars(ENT_QUOTES) on one character. */
  function EscapeChar(c: char): (r: string)
    ensures |r| >= 1
    ensures r == [c] <==> !IsSpecial(c)
  {
    if c == '&' then "&amp;"
    else if c == '<' then "&lt;"
    else if c == '>' then "&gt;"
    else if c == '"' then "&quot;"
    else if c == '\'' then "&#039;"
    else [c]
  }

  function Escape(s: string): (r: string)
    ensures |r| >= |s|
    ensures forall i :: 0 <= i < |r| ==> !IsMarkup(r[i])
  {
    if s == [] then [] else Escape(s[..|s| - 1]) + EscapeChar(s[|s| - 1])
  }

  /** The first character of an escaped string is the input's first character or the '&' of an entity;
      the last is the input's last character or the ';' closing an entity. */
  lemma {:induction false} EscapeEdges(s: string)
    requires s != []
    ensures Escape(s)[0] == s[0] || Escape(s)[0] == '&'
    ensures Escape(s)[|Escape(s)| - 1] == s[|s| - 1] || Escape(s)[|Escape(s)| - 1] == ';'
  {
    if |s| > 1 {
      EscapeEdges(s[..|s| - 1]);
      assert s[..|s| - 1][0] == s[0];
    }
  }

  /** sanitize(): trim, then htmlspecialchars with ENT_QUOTES. */
  function Sanitize(input: string): string {
    Escape(Trim(input))
  }

  /** A sanitized value neither starts nor ends with whitespace; it holds no markup character
      because Escape never yields one. */
  lemma SanitizeProperties(input: string)
    ensures var r := Sanitize(input); r == [] || (!IsTrimChar(r[0]) && !IsTrimChar(r[|r| - 1]))
  {
    EscapeKeepsEdges(Trim(input));
  }

  /** Escaping a string that neither starts nor ends with whitespace gives one that does not either. */
  lemma EscapeKeepsEdges(s: string)
    requires s == [] || (!IsTrimChar(s[0]) && !IsTrimChar(s[|s| - 1]))
    ensures var r := Escape(s); r == [] || (!IsTrimChar(r[0]) && !IsTrimChar(r[|r| - 1]))
  {
    if s != [] {
      EscapeEdges(s);
    }
  }

  /** A value sanitizes to nothing exactly when it is all whitespace. */
  lemma SanitizeEmpty(input: string)
    ensures Sanitize(input) == [] <==> forall i :: 0 <= i < |input| ==> IsTrimChar(input[i])
  {
    var t := Trim(input);
    assert |Escape(t)| >= |t|;
  }

  /** verify_csrf_token(): a token is stored in the session and equals the one supplied. */
  function VerifyCsrfToken(st: SessionState, token: string): (r: bool)
    ensures r <==> st.csrfToken == Some(token)
  {
    st.csrfToken.Some? && st.csrfToken.value == token
  }

  /** A byte, as random_bytes() yields them. */
  newtype Byte = x: int | 0 <= x < 256

  /** The lower-case hexadecimal digit bin2hex() writes for a value below 16. */
  function HexDigit(d: int): (c: char)
    requires 0 <= d < 16
    ensures IsDigit(c) || 'a' <= c <= 'f'
  {
    if d < 10 then ('0' as int + d) as char else ('a' as int + d - 10) as char
  }

  /** The value of a lower-case hexadecimal digit. */
  function HexValue(c: char): (d: int)
    requires IsDigit(c) || 'a' <= c <= 'f'
    ensures 0 <= d < 16
  {
    if IsDigit(c) then c as int - '0' as int else c as int - 'a' as int + 10
  }

  predicate IsHexText(s: string) {
    forall i :: 0 <= i < |s| ==> IsDigit(s[i]) || 'a' <= s[i] <= 'f'
  }

  /** bin2hex(): two lower-case hexadecimal digits per byte, the high half first. */
  function Bin2Hex(bytes: seq<Byte>): (s: string)
    ensures |s| == 2 * |bytes| && IsHexText(s)
  {
    if bytes == [] then []
    else [HexDigit(bytes[0] as int / 16), HexDigit(bytes[0] as int % 16)] + Bin2Hex(bytes[1..])
  }

  /** hex2bin() of an even-length lower-case hexadecimal string. */
  function Hex2Bin(s: string): (bytes: seq<Byte>)
    requires |s| % 2 == 0 && IsHexText(s)
    ensures 2 * |bytes| == |s|
  {
    if s == [] then []
    else [(16 * HexValue(s[0]) + HexValue(s[1])) as Byte] + Hex2Bin(s[2..])
  }

  /** bin2hex() loses nothing: decoding the text gives the bytes back, so distinct random bytes
      give distinct tokens. */
  lemma {:induction false} Bin2HexRoundTrip(bytes: seq<Byte>)
    ensures Hex2Bin(Bin2Hex(bytes)) == bytes
  {
    if bytes != [] {
      var b := bytes[0] as int;
      var s := Bin2Hex(bytes);
      assert s[2..] == Bin2Hex(bytes[1..]);
      assert HexValue(s[0]) == b / 16 && HexValue(s[1]) == b % 16;
      Bin2HexRoundTrip(bytes[1..]);
    }
  }

  /** What including config.php does to the session: without a CSRF token it stores
      bin2hex(random_bytes(32)), where `randomBytes` stands for the 32 bytes random_bytes() draws;
      a stored token is kept. */
  function WithToken(st: SessionState, randomBytes: seq<Byte>): (r: SessionState)
    ensures r.csrfToken.Some?
  {
    if st.csrfToken.None? then st.(csrfToken := Some(Bin2Hex(randomBytes))) else st
  }

  /** The include step on the live session. */
  method IncludeConfig(session: Session, randomBytes: seq<Byte>)
    requires |randomBytes| == 32
    modifies session
    ensures session.State() == WithToken(old(session.State()), randomBytes)
  {
    if session.csrfToken.None? {
      session.csrfToken := Some(Bin2Hex(randomBytes));
    }
  }

  /** After the include step the session holds a token, and only the token: a session that had
      one keeps it, and a new one is the 64 hexadecimal characters of the 32 random bytes, which
      then verifies. */
  lemma TokenIssued(st: SessionState, randomBytes: seq<Byte>)
    requires |randomBytes| == 32
    ensures var r := WithToken(st, randomBytes);
      && r.(csrfToken := st.csrfToken) == st
      && (st.csrfToken.Some? ==> r == st)
      && (st.csrfToken.None? ==> |r.csrfToken.value| == 64 && IsHexText(r.csrfToken.value)
                                 && Hex2Bin(r.csrfToken.value) == randomBytes)
      && VerifyCsrfToken(r, r.csrfToken.value)
  {
    Bin2HexRoundTrip(randomBytes);
  }

  /** Every later page keeps the first token issued, whatever bytes it draws, so a form rendered
      on one page verifies on the next. */
  lemma TokenStable(st: SessionState, first: seq<Byte>, later: seq<Byte>)
    ensures WithToken(WithToken(st, first), later) == WithToken(st, first)
    ensures VerifyCsrfToken(WithToken(WithToken(st, first), later), WithToken(st, first).csrfToken.value)
  {
  }

  /** Whether an order row with this id belongs to the user and is pending (the JOIN's condition). */
  predicate PendingOrderOf(orders: seq<Order>, orderId: int, userId: int) {
    exists o :: o in orders && o.id == orderId && o.userId == userId && o.status == Pending
  }

  /** COUNT(*) over order_items joined to the user's pending orders. */
  function PendingItemCount(items: seq<OrderItem>, orders: seq<Order>, userId: int): (n: nat)
    ensures n <= |items|
  {
    if items == [] then 0
    else PendingItemCount(items[..|items| - 1], orders, userId)
         + (if PendingOrderOf(orders, items[|items| - 1].orderId, userId) then 1 else 0)
  }

  /** getCartCount() with a working connection: 0 when logged out or when the query fails. */
  function CartCount(st: SessionState, t: Tables, fault: bool): (n: nat)
    ensures !IsLoggedIn(st) || fault ==> n == 0
    ensures n <= |t.orderItems|
  {
    if !IsLoggedIn(st) || fault then 0 else PendingItemCount(t.orderItems, t.orders, st.userId.value)
  }

  /** An order that is not pending, together with its items, never changes the count. */
  lemma {:induction false} NonPendingOrderNotCounted(items: seq<OrderItem>, orders: seq<Order>, userId: int,
                                                     o: Order, newItems: seq<OrderItem>)
    requires o.status != Pending && o.id !in OrderIds(orders)
    requires forall it :: it in newItems ==> it.orderId == o.id
    ensures PendingItemCount(items + newItems, orders + [o], userId) == PendingItemCount(items, orders, userId)
    decreases |newItems|, |items|
  {
    if newItems != [] {
      var init := newItems[..|newItems| - 1];
      assert items + newItems == (items + init) + [newItems[|newItems| - 1]];
      assert (items + newItems)[..|items + newItems| - 1] == items + init;
      NonPendingOrderNotCounted(items, orders, userId, o, init);
      var last := newItems[|newItems| - 1];
      assert last in newItems;
      assert forall p :: p in orders ==> p.id in OrderIds(orders);
      assert !PendingOrderOf(orders + [o], last.orderId, userId);
    } else if items != [] {
      assert items + newItems == items;
      NonPendingOrderNotCounted(items[..|items| - 1], orders, userId, o, []);
      assert items[..|items| - 1] + [] == items[..|items| - 1];
      var last := items[|items| - 1];
      assert PendingOrderOf(orders + [o], last.orderId, userId) <==> PendingOrderOf(orders, last.orderId, userId) by {
        if PendingOrderOf(orders + [o], last.orderId, userId) {
          var p :| p in orders + [o] && p.id == last.orderId && p.userId == userId && p.status == Pending;
          assert p in orders;
        }
      }
    } else {
      assert items + newItems == [];
    }
  }

  /** What a PHP call amounts to: a returned value, or an uncaught Error that ends the request. */
  datatype Call<T> = Returned(value: T) | Fatal

  /** getCartCount() as written: it reads `global $pdo`, which config.php never assigns (the
      connection is `$db`, line 118), so a logged-in call invokes prepare() on null; the Error this
      raises is not a PDOException and escapes the catch. `pdo` is that global. */
  function CartCountAsWritten(st: SessionState, pdo: Option<Tables>, fault: bool): (r: Call<nat>)
    ensures !IsLoggedIn(st) ==> r == Returned(0)
    ensures IsLoggedIn(st) && pdo.None? ==> r == Fatal
    ensures pdo.Some? ==> r == Returned(CartCount(st, pdo.value, fault))
  {
    if !IsLoggedIn(st) then Returned(0)
    else if pdo.None? then Fatal
    else Returned(CartCount(st, pdo.value, fault))
  }

  /** With the global left unassigned, a logged-in user with one pending item gets a fatal error
      where the count 1 was meant. */
  lemma CartCountAsWrittenFails()
    ensures var st := NoSession.(userId := Some(7));
            var t := Tables(map[], [], [Order(1, 7, 999, Pending, None)], [OrderItem(1, 1, 3, 999, 1)], [], [], []);
            CartCountAsWritten(st, None, false) == Fatal && CartCount(st, t, false) == 1
  {
    var t := Tables(map[], [], [Order(1, 7, 999, Pending, None)], [OrderItem(1, 1, 3, 999, 1)], [], [], []);
    assert PendingOrderOf(t.orders, 1, 7) by { assert t.orders[0] in t.orders; }
    assert t.orderItems[..0] == [];
  }

  /** saveOrderHistory() over the tables: one history row and the order's new status, or, when a
      statement fails, neither. An unknown status or order id fails (ENUM and FOREIGN KEY). */
  function HistoryOutcome(t: Tables, historyId: int, orderId: int, status: string, description: string,
                          insertFault: bool, updateFault: bool): (r: (bool, Tables))
    ensures r.0 <==> !insertFault && !updateFault && StatusNamed(status).Some? && orderId in OrderIds(t.orders)
    ensures !r.0 ==> r.1 == t
  {
    var s := StatusNamed(status);
    if insertFault || updateFault || s.None? || orderId !in OrderIds(t.orders) then (false, t)
    else (true, t.(orderHistory := t.orderHistory + [HistoryEntry(historyId, orderId, s.value, description)],
                   orders := WithStatus(t.orders, orderId, s.value)))
  }

  /** After a successful save the order's status is the status of the newest history row for it,
      and no other table changed. */
  lemma HistoryAgreesWithStatus(t: Tables, historyId: int, orderId: int, status: string, description: string)
    requires StatusNamed(status).Some? && orderId in OrderIds(t.orders)
    ensures var r := HistoryOutcome(t, historyId, orderId, status, description, false, false);
      && r.0
      && |r.1.orderHistory| == |t.orderHistory| + 1
      && r.1.orderHistory[|t.orderHistory|].orderId == orderId
      && (forall o :: o in r.1.orders && o.id == orderId ==> o.status == r.1.orderHistory[|t.orderHistory|].status)
      && (forall o :: o in r.1.orders && o.id != orderId ==> o in t.orders)
      && r.1.movies == t.movies && r.1.orderItems == t.orderItems && r.1.watchlist == t.watchlist
  {
    var r := HistoryOutcome(t, historyId, orderId, status, description, false, false);
    forall o | o in r.1.orders
      ensures o.id == orderId ==> o.status == StatusNamed(status).value
      ensures o.id != orderId ==> o in t.orders
    {
      var k :| 0 <= k < |r.1.orders| && r.1.orders[k] == o;
    }
  }

  /** saveOrderHistory() run against a connection: BEGIN, INSERT INTO order_history, UPDATE orders,
      COMMIT, with ROLLBACK and false when a statement throws. */
  method SaveOrderHistory(db: Database, orderId: int, status: string, description: string,
                          insertFault: bool, updateFault: bool) returns (ok: bool)
    requires db.Valid()
    modifies db
    ensures db.Valid()
    ensures (ok, db.Snapshot()) == HistoryOutcome(old(db.Snapshot()), old(db.nextHistoryId), orderId, status,
                                                  description, insertFault, updateFault)
  {
    ghost var t0 := db.Snapshot();
    var saved := db.Snapshot();
    var mv, o, h, w, u := db.nextMovieId, db.nextOrderId, db.nextHistoryId, db.nextWatchId, db.nextUserId;
    var s := StatusNamed(status);
    if s.None? {
      ok := false;
      return;
    }
    var err := db.InsertHistory(orderId, s.value, description, insertFault);
    if err.Some? {
      ok := false;
      return;
    }
    assert orderId in OrderIds(t0.orders);
    err := db.UpdateOrderStatus(orderId, s.value, updateFault);
    if err.Some? {
      db.Restore(saved, mv, o, h, w, u);
      ok := false;
      return;
    }
    ok := true;
  }

  /** saveOrderHistory() as written: `pdo` is the unassigned global, so with None the first call on it
      is fatal and no row is written; with a connection it behaves as HistoryOutcome. */
  function SaveOrderHistoryAsWritten(pdo: Option<Tables>, historyId: int, orderId: int, status: string,
                                     description: string): (r: Call<(bool, Tables)>)
    ensures pdo.None? ==> r == Fatal
    ensures pdo.Some? ==> r == Returned(HistoryOutcome(pdo.value, historyId, orderId, status, description, false, false))
  {
    if pdo.None? then Fatal
    else Returned(HistoryOutcome(pdo.value, historyId, orderId, status, description, false, false))
  }

  /** Marking order 1 'cancelled': the written code ends fatally, the intended one records it. */
  lemma SaveOrderHistoryAsWrittenFails()
    ensures var t := Tables(map[], [], [Order(1, 7, 999, Completed, None)], [], [], [], []);
            && SaveOrderHistoryAsWritten(None, 1, 1, "cancelled", "") == Fatal
            && HistoryOutcome(t, 1, 1, "cancelled", "", false, false).0
            && HistoryOutcome(t, 1, 1, "cancelled", "", false, false).1.orders[0].status == Cancelled
  {
    var t := Tables(map[], [], [Order(1, 7, 999, Completed, None)], [], [], [], []);
    assert 1 in OrderIds(t.orders) by { assert t.orders[0] in t.orders; }
  }
}
