/** The order engine of the database-backed Streamlit app (app/app.py):
    loading orders by username, the evaluation pass `check_orders_db`
    that executes pending orders against market prices and updates the
    lots, cancelling an order, and the throttled pass run by the Buy Bot
    page. */
module AppEngine {
  import opened Common
  import opened AppDatabase
  import opened PriceParsing
  import Throttle

  /** The market-data side of a pass: the quote `get_yfinance_stock_info`
      returns for a ticker, and the last close of its one-day history (none
      when that history is empty or cannot be fetched). */
  datatype Market = Market(quote: string -> StockInfo, lastClose: string -> Option<real>)

  /** `load_orders_db`: a truthy username is resolved to its user id first,
      and an unknown username yields no orders. */
  function LoadOrdersDb(users: seq<User>, orders: seq<OrderRow>, username: Option<string>, status: Option<Status>): seq<OrderView>
  {
    if Given(username) then
      match FindUser(users, username.value)
      case None => []
      case Some(u) => QueryOrders(users, orders, Some(u.id), status)
    else
      QueryOrders(users, orders, None, status)
  }

  /** Filtering by username is filtering the joined rows by their username,
      so an unknown username gives the empty result; rows stay newest first. */
  lemma LoadOrdersDbByName(users: seq<User>, orders: seq<OrderRow>, username: Option<string>, status: Option<Status>)
    requires UniqueUsers(users)
    ensures var r := LoadOrdersDb(users, orders, username, status);
      && (forall v :: v in r <==> v in QueryOrders(users, orders, None, status) && (Given(username) ==> v.username == username.value))
      && (Given(username) && FindUser(users, username.value).None? ==> r == [])
      && (forall i, j :: 0 <= i < j < |r| ==> r[i].createdAt >= r[j].createdAt)
  {
    var all := QueryOrders(users, orders, None, status);
    if Given(username) {
      var name := username.value;
      match FindUser(users, name)
      case None =>
        forall v | v in all ensures v.username != name {
          var o :| o in orders && Selects(o, None, status) && UserById(users, o.userId).Some? && v == View(o, UserById(users, o.userId).value.username);
        }
      case Some(u) =>
        ByIdIsByName(users, orders, status, u);
    }
  }

  /** Names are unique, so a listed user is fixed by the name. */
  lemma SameName(users: seq<User>, w: User, u: User)
    requires UniqueUsers(users) && w in users && u in users && w.username == u.username
    ensures w == u
  {
    var i :| 0 <= i < |users| && users[i] == w;
    var j :| 0 <= j < |users| && users[j] == u;
    assert users[i].username == users[j].username;
  }

  /** For a listed user, the orders joined to the user's id are the joined
      orders that carry the user's name. */
  lemma ByIdIsByName(users: seq<User>, orders: seq<OrderRow>, status: Option<Status>, u: User)
    requires UniqueUsers(users) && u in users
    ensures forall v :: v in QueryOrders(users, orders, Some(u.id), status) <==> v in QueryOrders(users, orders, None, status) && v.username == u.username
  {
    var all := QueryOrders(users, orders, None, status);
    var r := QueryOrders(users, orders, Some(u.id), status);
    UserByIdOfMember(users, u);
    forall v ensures v in r <==> v in all && v.username == u.username {
      if v in all && v.username == u.username {
        var o :| o in orders && Selects(o, None, status) && UserById(users, o.userId).Some? && v == View(o, UserById(users, o.userId).value.username);
        SameName(users, UserById(users, o.userId).value, u);
      }
    }
  }

  /** The price at which the pass executes an order, or none when the pass
      skips it (unknown user, no usable price) or holds it (not triggered). */
  function ExecutionPrice(users: seq<User>, v: OrderView, market: Market): (r: Option<real>)
    ensures var p := CurrentPrice(market.quote(v.ticker), market.lastClose(v.ticker));
      && (r.Some? <==> FindUser(users, v.username).Some? && p.Some? && Triggered(v.side, p.value, v.price))
      && (r.Some? ==> r == p)
  {
    if FindUser(users, v.username).None? then None
    else match CurrentPrice(market.quote(v.ticker), market.lastClose(v.ticker))
      case None => None
      case Some(p) => if Triggered(v.side, p, v.price) then Some(p) else None
  }

  /** The tables a pass changes. */
  datatype Tables = Tables(lots: seq<Lot>, orders: seq<OrderRow>, nextLotId: nat)

  /** Executing one order: its status becomes executed, then a buy adds a
      lot at the execution price dated today and a sell runs the FIFO
      reduction, whose result is ignored. */
  function Execute(users: seq<User>, t: Tables, v: OrderView, price: real, today: Timestamp): Tables
    requires FindUser(users, v.username).Some?
  {
    var userId := FindUser(users, v.username).value.id;
    var orders := SetStatus(t.orders, v.id, Executed);
    match v.side
    case Buy =>
      var (lots, next) := AddLot(t.lots, t.nextLotId, userId, v.ticker, v.quantity, price, today);
      Tables(lots, orders, next)
    case Sell =>
      Tables(AfterSell(t.lots, userId, v.ticker, v.quantity).0, orders, t.nextLotId)
  }

  /** The remainder of a pass over the loaded pending orders: the tables it
      leaves and the records it reports. */
  function PassFrom(users: seq<User>, t: Tables, pending: seq<OrderView>, market: Market, today: Timestamp): (Tables, seq<Execution>)
    decreases |pending|
  {
    if pending == [] then (t, [])
    else
      var v := pending[0];
      match ExecutionPrice(users, v, market)
      case None => PassFrom(users, t, pending[1..], market, today)
      case Some(p) =>
        var (t', records) := PassFrom(users, Execute(users, t, v, p, today), pending[1..], market, today);
        (t', [Execution(v.username, v.ticker, v.side, p, v.quantity)] + records)
  }

  /** `check_orders_db`: one pass over the pending orders as loaded at its start. */
  function CheckOrdersDbSpec(users: seq<User>, t: Tables, market: Market, today: Timestamp): (Tables, seq<Execution>)
  {
    PassFrom(users, t, QueryOrders(users, t.orders, None, Some(Pending)), market, today)
  }

  /** The records of the orders that fire, in pass order. */
  function Fired(users: seq<User>, pending: seq<OrderView>, market: Market): (r: seq<Execution>)
    ensures |r| <= |pending|
    ensures forall e :: e in r <==> exists v :: (v in pending && ExecutionPrice(users, v, market).Some?
      && e == Execution(v.username, v.ticker, v.side, ExecutionPrice(users, v, market).value, v.quantity))
  {
    if pending == [] then []
    else
      var rest := Fired(users, pending[1..], market);
      assert forall q :: q in pending <==> q == pending[0] || q in pending[1..];
      match ExecutionPrice(users, pending[0], market)
      case None => rest
      case Some(p) => [Execution(pending[0].username, pending[0].ticker, pending[0].side, p, pending[0].quantity)] + rest
  }

  /** The pass reports exactly one record per order that fires — with the
      price it executed at and the order's quantity — and none for skipped
      or untriggered orders, whatever the tables hold. */
  lemma {:induction false} PassRecords(users: seq<User>, t: Tables, pending: seq<OrderView>, market: Market, today: Timestamp)
    decreases |pending|
    ensures PassFrom(users, t, pending, market, today).1 == Fired(users, pending, market)
  {
    if pending != [] {
      match ExecutionPrice(users, pending[0], market)
      case None =>
        PassRecords(users, t, pending[1..], market, today);
      case Some(p) =>
        PassRecords(users, Execute(users, t, pending[0], p, today), pending[1..], market, today);
    }
  }

  /** Some loaded order with that id fires. */
  ghost predicate FiresWithId(users: seq<User>, pending: seq<OrderView>, market: Market, id: nat)
  {
    exists k :: 0 <= k < |pending| && pending[k].id == id && ExecutionPrice(users, pending[k], market).Some?
  }

  lemma {:induction false} FiresWithIdTail(users: seq<User>, pending: seq<OrderView>, market: Market, id: nat)
    requires pending != []
    ensures FiresWithId(users, pending, market, id) <==>
      (pending[0].id == id && ExecutionPrice(users, pending[0], market).Some?) || FiresWithId(users, pending[1..], market, id)
  {
    if FiresWithId(users, pending, market, id) {
      var k :| 0 <= k < |pending| && pending[k].id == id && ExecutionPrice(users, pending[k], market).Some?;
      if k > 0 {
        assert pending[1..][k - 1] == pending[k];
      }
    }
    if FiresWithId(users, pending[1..], market, id) {
      var k :| 0 <= k < |pending[1..]| && pending[1..][k].id == id && ExecutionPrice(users, pending[1..][k], market).Some?;
      assert pending[k + 1] == pending[1..][k];
    }
  }

  /** After a pass, an order is executed exactly when some loaded order with
      its id fired; every other order keeps its status, so a skipped order
      stays pending. */
  lemma {:induction false} PassStatuses(users: seq<User>, t: Tables, pending: seq<OrderView>, market: Market, today: Timestamp, id: nat)
    decreases |pending|
    ensures StatusOf(PassFrom(users, t, pending, market, today).0.orders, id) ==
      if StatusOf(t.orders, id).Some? && FiresWithId(users, pending, market, id) then Some(Executed) else StatusOf(t.orders, id)
  {
    if pending != [] {
      var v := pending[0];
      FiresWithIdTail(users, pending, market, id);
      match ExecutionPrice(users, v, market)
      case None =>
        PassStatuses(users, t, pending[1..], market, today, id);
      case Some(p) =>
        var t' := Execute(users, t, v, p, today);
        SetStatusEffect(t.orders, v.id, Executed, id);
        PassStatuses(users, t', pending[1..], market, today, id);
    }
  }

  /** A pass in which no order fires changes nothing and reports nothing; in
      particular a pass with no pending orders. */
  lemma {:induction false} PassQuiet(users: seq<User>, t: Tables, pending: seq<OrderView>, market: Market, today: Timestamp)
    decreases |pending|
    requires forall k :: 0 <= k < |pending| ==> ExecutionPrice(users, pending[k], market).None?
    ensures PassFrom(users, t, pending, market, today) == (t, [])
  {
    if pending != [] {
      assert forall k :: 0 <= k < |pending[1..]| ==> pending[1..][k] == pending[k + 1];
      PassQuiet(users, t, pending[1..], market, today);
    }
  }

  lemma PassStep(users: seq<User>, t: Tables, pending: seq<OrderView>, market: Market, today: Timestamp)
    requires pending != []
    ensures var v := pending[0];
      var rest := PassFrom(users, t, pending[1..], market, today);
      ExecutionPrice(users, v, market).None? ==> PassFrom(users, t, pending, market, today) == rest
    ensures var v := pending[0];
      var p := ExecutionPrice(users, v, market);
      p.Some? ==>
        var rest := PassFrom(users, Execute(users, t, v, p.value, today), pending[1..], market, today);
        PassFrom(users, t, pending, market, today) == (rest.0, [Execution(v.username, v.ticker, v.side, p.value, v.quantity)] + rest.1)
  {
  }

  /** What the loop of `check_orders_db` keeps: after `i` orders with
      tables `t` and records `executed`, the rest of the pass yields the
      whole pass's result. */
  ghost predicate PassInvariant(users: seq<User>, start: Tables, t: Tables, pending: seq<OrderView>, i: nat, executed: seq<Execution>, market: Market, today: Timestamp)
  {
    i <= |pending| &&
    var rest := PassFrom(users, t, pending[i..], market, today);
    PassFrom(users, start, pending, market, today) == (rest.0, executed + rest.1)
  }

  /** One order's step: with no execution price nothing is recorded and
      the tables `t` stay as they were; otherwise the order is recorded at
      that price and the tables become those of its execution. */
  ghost predicate Outcome(users: seq<User>, t: Tables, t': Tables, v: OrderView, record: Option<Execution>, market: Market, today: Timestamp)
  {
    var p := ExecutionPrice(users, v, market);
    && (p.None? ==> record.None? && t' == t)
    && (p.Some? ==> record == Some(Execution(v.username, v.ticker, v.side, p.value, v.quantity)) && t' == Execute(users, t, v, p.value, today))
  }

  lemma PassStart(users: seq<User>, start: Tables, pending: seq<OrderView>, market: Market, today: Timestamp)
    ensures PassInvariant(users, start, start, pending, 0, [], market, today)
  {
    assert pending[0..] == pending;
    assert [] + PassFrom(users, start, pending, market, today).1 == PassFrom(users, start, pending, market, today).1;
  }

  lemma PassAdvance(users: seq<User>, start: Tables, t: Tables, t': Tables, pending: seq<OrderView>, i: nat, executed: seq<Execution>,
                    record: Option<Execution>, market: Market, today: Timestamp)
    requires i < |pending| && PassInvariant(users, start, t, pending, i, executed, market, today)
    requires Outcome(users, t, t', pending[i], record, market, today)
    ensures PassInvariant(users, start, t', pending, i + 1, if record.Some? then executed + [record.value] else executed, market, today)
  {
    assert pending[i..][0] == pending[i] && pending[i..][1..] == pending[i + 1..];
    PassStep(users, t, pending[i..], market, today);
    if record.Some? {
      var rest := PassFrom(users, t', pending[i + 1..], market, today).1;
      assert executed + ([record.value] + rest) == (executed + [record.value]) + rest;
    }
  }

  lemma PassEnd(users: seq<User>, start: Tables, t: Tables, pending: seq<OrderView>, executed: seq<Execution>, market: Market, today: Timestamp)
    requires PassInvariant(users, start, t, pending, |pending|, executed, market, today)
    ensures PassFrom(users, start, pending, market, today) == (t, executed)
  {
    assert pending[|pending|..] == [];
    assert executed + [] == executed;
  }

  /** The effect of one executed order on the database: status first, then
      the lots. */
  method ExecuteOnDb(db: Database, v: OrderView, price: real, today: Timestamp)
    requires db.Valid() && FindUser(db.users, v.username).Some?
    modifies db
    ensures db.Valid()
    ensures Tables(db.lots, db.orders, db.nextLotId) == Execute(old(db.users), Tables(old(db.lots), old(db.orders), old(db.nextLotId)), v, price, today)
    ensures db.users == old(db.users) && db.nextUserId == old(db.nextUserId) && db.nextOrderId == old(db.nextOrderId)
  {
    var userId := FindUser(db.users, v.username).value.id;
    db.UpdateOrderStatus(v.id, Executed);
    match v.side {
      case Buy =>
        db.AddToPortfolio(userId, v.ticker, v.quantity, price, today);
      case Sell =>
        var _ := db.UpdatePortfolioAfterSell(userId, v.ticker, v.quantity);
    }
  }

  /** One iteration of `check_orders_db`: the record of the order if it
      was executed. */
  method ProcessOrder(db: Database, v: OrderView, market: Market, today: Timestamp) returns (record: Option<Execution>)
    requires db.Valid()
    modifies db
    ensures db.Valid()
    ensures Outcome(old(db.users), Tables(old(db.lots), old(db.orders), old(db.nextLotId)), Tables(db.lots, db.orders, db.nextLotId), v, record, market, today)
    ensures db.users == old(db.users) && db.nextUserId == old(db.nextUserId) && db.nextOrderId == old(db.nextOrderId)
  {
    var user := FindUser(db.users, v.username);
    if user.None? {
      return None;
    }
    var price := CurrentPrice(market.quote(v.ticker), market.lastClose(v.ticker));
    if price.Some? && Triggered(v.side, price.value, v.price) {
      ExecuteOnDb(db, v, price.value, today);
      record := Some(Execution(v.username, v.ticker, v.side, price.value, v.quantity));
    } else {
      record := None;
    }
  }

  /** The loop of `check_orders_db` over the loaded pending orders. */
  method RunPass(db: Database, pending: seq<OrderView>, market: Market, today: Timestamp) returns (executed: seq<Execution>)
    requires db.Valid()
    modifies db
    ensures db.Valid()
    ensures (Tables(db.lots, db.orders, db.nextLotId), executed)
      == PassFrom(old(db.users), Tables(old(db.lots), old(db.orders), old(db.nextLotId)), pending, market, today)
    ensures db.users == old(db.users) && db.nextUserId == old(db.nextUserId) && db.nextOrderId == old(db.nextOrderId)
  {
    var users := db.users;
    ghost var start := Tables(db.lots, db.orders, db.nextLotId);
    executed := [];
    var i := 0;
    PassStart(users, start, pending, market, today);
    while i < |pending|
      invariant 0 <= i <= |pending|
      invariant db.Valid()
      invariant db.users == users && db.nextUserId == old(db.nextUserId) && db.nextOrderId == old(db.nextOrderId)
      invariant PassInvariant(users, start, Tables(db.lots, db.orders, db.nextLotId), pending, i, executed, market, today)
    {
      ghost var before := Tables(db.lots, db.orders, db.nextLotId);
      var record := ProcessOrder(db, pending[i], market, today);
      PassAdvance(users, start, before, Tables(db.lots, db.orders, db.nextLotId), pending, i, executed, record, market, today);
      if record.Some? {
        executed := executed + [record.value];
      }
      i := i + 1;
    }
    PassEnd(users, start, Tables(db.lots, db.orders, db.nextLotId), pending, executed, market, today);
  }

  /** `check_orders_db` over the database: the pending orders are loaded
      once, and an empty load returns no records. */
  method CheckOrdersDb(db: Database, market: Market, today: Timestamp) returns (executed: seq<Execution>)
    requires db.Valid()
    modifies db
    ensures db.Valid()
    ensures (Tables(db.lots, db.orders, db.nextLotId), executed)
      == CheckOrdersDbSpec(old(db.users), Tables(old(db.lots), old(db.orders), old(db.nextLotId)), market, today)
    ensures db.users == old(db.users) && db.nextUserId == old(db.nextUserId) && db.nextOrderId == old(db.nextOrderId)
  {
    var pending := LoadOrdersDb(db.users, db.orders, None, Some(Pending));
    if pending == [] {
      return [];
    }
    executed := RunPass(db, pending, market, today);
  }

  /** `cancel_order_db`: the order is cancelled whatever its status, and
      the call always reports success. */
  method CancelOrderDb(db: Database, id: nat) returns (ok: bool)
    requires db.Valid()
    modifies db
    ensures db.Valid() && ok
    ensures db.orders == SetStatus(old(db.orders), id, Cancelled)
    ensures db.users == old(db.users) && db.lots == old(db.lots)
    ensures db.nextUserId == old(db.nextUserId) && db.nextLotId == old(db.nextLotId) && db.nextOrderId == old(db.nextOrderId)
  {
    db.UpdateOrderStatus(id, Cancelled);
    ok := true;
  }

  /** The Buy Bot page visit: the throttled pass, with clock readings
      `initNow` (for a session without a stamp) and `now`. */
  method BuyBotVisit(db: Database, clock: Throttle.SessionClock, market: Market, today: Timestamp, initNow: real, now: real)
    returns (executed: seq<Execution>)
    requires db.Valid()
    modifies db, clock
    ensures db.Valid()
    ensures clock.ordersChecked == Some(if Throttle.Due(old(clock.ordersChecked), initNow, now) then now else Throttle.Stamp(old(clock.ordersChecked), initNow))
    ensures Throttle.Due(old(clock.ordersChecked), initNow, now) ==>
      (Tables(db.lots, db.orders, db.nextLotId), executed)
        == CheckOrdersDbSpec(old(db.users), Tables(old(db.lots), old(db.orders), old(db.nextLotId)), market, today)
    ensures !Throttle.Due(old(clock.ordersChecked), initNow, now) ==>
      executed == [] && db.lots == old(db.lots) && db.orders == old(db.orders) && db.nextLotId == old(db.nextLotId)
    ensures db.users == old(db.users)
  {
    var due := clock.Poll(initNow, now);
    if due {
      executed := CheckOrdersDb(db, market, today);
    } else {
      executed := [];
    }
  }
}
