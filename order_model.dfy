/** The order service of src/models/order.py over the CSV orders file:
    creating an order (always pending), listing orders with their row
    labels, cancelling the n-th pending order of a user, and executing an
    order, which marks its rows executed and changes the owner's portfolio
    file (a buy upserts the ticker, a sell reduces or removes it). */
module OrderModel {
  import opened Common
  import opened CsvStorage
  import opened PortfolioModel

  /** An `Order` object; `orderId` is the label of the row it was read
      from. */
  datatype Order = Order(
    username: string,
    ticker: string,
    side: Side,
    price: real,
    quantity: real,
    createdAt: Timestamp,
    status: Status,
    orderId: Option<nat>)

  /** The columns of an order, as a row of the orders file. */
  function RecordOf(o: Order): OrderRecord
  {
    OrderRecord(o.username, o.ticker, o.side, o.price, o.quantity, o.createdAt, o.status)
  }

  function FromLabelled(l: Labelled): Order
  {
    Order(l.row.username, l.row.ticker, l.row.side, l.row.price, l.row.quantity, l.row.createdAt, l.row.status, Some(l.index))
  }

  function AsOrders(ls: seq<Labelled>): (r: seq<Order>)
    ensures |r| == |ls|
  {
    seq(|ls|, i requires 0 <= i < |ls| => FromLabelled(ls[i]))
  }

  /** The orders `get_orders` returns for the file's rows. */
  function OrderList(rows: seq<OrderRecord>, username: Option<string>): seq<Order>
  {
    AsOrders(OrdersOf(rows, username))
  }

  /** Every listed order is the row its id labels, the listed orders are
      exactly the rows of the requested owner, and ids increase along the
      list; an empty file lists nothing. */
  lemma OrderListEffect(rows: seq<OrderRecord>, username: Option<string>)
    ensures var r := OrderList(rows, username);
      && (forall o :: o in r <==> o.orderId.Some? && o.orderId.value < |rows| && RecordOf(o) == rows[o.orderId.value] && OwnedBy(rows[o.orderId.value], username))
      && (forall a, b :: 0 <= a < b < |r| ==> r[a].orderId.Some? && r[b].orderId.Some? && r[a].orderId.value < r[b].orderId.value)
      && (rows == [] ==> r == [])
  {
    var ls := OrdersOf(rows, username);
    var r := OrderList(rows, username);
    OrdersOfEffect(rows, username);
    forall o ensures o in r <==> o.orderId.Some? && o.orderId.value < |rows| && RecordOf(o) == rows[o.orderId.value] && OwnedBy(rows[o.orderId.value], username) {
      if o in r {
        var k :| 0 <= k < |r| && r[k] == o;
        assert ls[k] in ls;
      }
      if o.orderId.Some? && o.orderId.value < |rows| && RecordOf(o) == rows[o.orderId.value] && OwnedBy(rows[o.orderId.value], username) {
        var l := Labelled(o.orderId.value, rows[o.orderId.value]);
        assert l in ls;
        var k :| 0 <= k < |ls| && ls[k] == l;
        assert r[k] == o;
      }
    }
  }

  /** `[o for o in orders if o.status == "pending"]`. */
  function PendingOnly(os: seq<Order>): seq<Order>
  {
    if os == [] then [] else (if os[0].status == Pending then [os[0]] else []) + PendingOnly(os[1..])
  }

  lemma {:induction false} PendingOnlyMembers(os: seq<Order>)
    ensures forall o :: o in PendingOnly(os) <==> o in os && o.status == Pending
    ensures |PendingOnly(os)| <= |os|
  {
    if os != [] {
      PendingOnlyMembers(os[1..]);
      assert forall o :: o in os <==> o == os[0] || o in os[1..] by {
        assert os == [os[0]] + os[1..];
      }
    }
  }

  lemma {:induction false} PendingOnlyAppend(os: seq<Order>, more: seq<Order>)
    ensures PendingOnly(os + more) == PendingOnly(os) + PendingOnly(more)
  {
    if os == [] {
      assert os + more == more;
    } else {
      var head := if os[0].status == Pending then [os[0]] else [];
      assert (os + more)[0] == os[0] && (os + more)[1..] == os[1..] + more;
      assert PendingOnly(os + more) == head + PendingOnly(os[1..] + more);
      PendingOnlyAppend(os[1..], more);
      assert head + (PendingOnly(os[1..]) + PendingOnly(more)) == (head + PendingOnly(os[1..])) + PendingOnly(more);
    }
  }

  /** The pending filter keeps exactly the pending orders, in their order:
      it distributes over concatenation. */
  lemma PendingOnlyEffect(os: seq<Order>, more: seq<Order>)
    ensures forall o :: o in PendingOnly(os) <==> o in os && o.status == Pending
    ensures PendingOnly(os + more) == PendingOnly(os) + PendingOnly(more)
    ensures |PendingOnly(os)| <= |os|
  {
    PendingOnlyMembers(os);
    PendingOnlyAppend(os, more);
  }

  /** A row of the user and ticker, created at `createdAt`, still pending:
      the mask of `cancel_order` and of `execute_order`. */
  predicate MatchesPending(r: OrderRecord, username: string, ticker: string, createdAt: Timestamp)
  {
    r.username == username && r.ticker == ticker && r.createdAt == createdAt && r.status == Pending
  }

  predicate AnyMatching(rows: seq<OrderRecord>, username: string, ticker: string, createdAt: Timestamp)
  {
    exists i :: 0 <= i < |rows| && MatchesPending(rows[i], username, ticker, createdAt)
  }

  /** `df.loc[mask, "status"] = status`. */
  function MarkMatching(rows: seq<OrderRecord>, username: string, ticker: string, createdAt: Timestamp, status: Status): seq<OrderRecord>
  {
    seq(|rows|, i requires 0 <= i < |rows| => if MatchesPending(rows[i], username, ticker, createdAt) then rows[i].(status := status) else rows[i])
  }

  /** The masked update moves only pending rows, only to the new status,
      and changes no other column; executed and cancelled rows stay as
      they are, and once moved out of pending no row matches the mask
      again, so a repeated update changes nothing. */
  lemma MarkMatchingEffect(rows: seq<OrderRecord>, username: string, ticker: string, createdAt: Timestamp, status: Status)
    ensures var r := MarkMatching(rows, username, ticker, createdAt, status);
      && |r| == |rows|
      && (forall i :: 0 <= i < |rows| && rows[i].status != Pending ==> r[i] == rows[i])
      && (forall i :: 0 <= i < |rows| ==> r[i] == rows[i] || (rows[i].status == Pending && r[i] == rows[i].(status := status)))
      && (!AnyMatching(rows, username, ticker, createdAt) ==> r == rows)
      && (status != Pending ==> !AnyMatching(r, username, ticker, createdAt))
  {
    var r := MarkMatching(rows, username, ticker, createdAt, status);
    if status != Pending {
      forall i | 0 <= i < |r| ensures !MatchesPending(r[i], username, ticker, createdAt) {
      }
    }
  }

  /** The order `cancel_order` picks: the `index`-th pending order among
      the user's orders, if there are that many. */
  function CancelTarget(rows: seq<OrderRecord>, username: string, index: nat): Option<Order>
  {
    var pending := PendingOnly(OrderList(rows, Some(username)));
    if index < |pending| then Some(pending[index]) else None
  }

  /** For a non-empty username, an index within the user's pending orders
      always cancels: the picked order's own row matches the mask. */
  lemma CancelInRangeSucceeds(rows: seq<OrderRecord>, username: string, index: nat)
    requires username != ""
    ensures var t := CancelTarget(rows, username, index);
      t.Some? <==> index < |PendingOnly(OrderList(rows, Some(username)))|
    ensures var t := CancelTarget(rows, username, index);
      t.Some? ==> AnyMatching(rows, username, t.value.ticker, t.value.createdAt)
  {
    var t := CancelTarget(rows, username, index);
    if t.Some? {
      var pending := PendingOnly(OrderList(rows, Some(username)));
      PendingOnlyEffect(OrderList(rows, Some(username)), []);
      OrderListEffect(rows, Some(username));
      assert pending[index] in pending;
      var o := t.value;
      assert MatchesPending(rows[o.orderId.value], username, o.ticker, o.createdAt);
    }
  }

  /** The empty username lists every user's orders, but the mask compares
      owners with "", so cancelling with it fails unless some row belongs
      to the empty username. */
  lemma CancelWithEmptyUsername(rows: seq<OrderRecord>, index: nat)
    requires forall i :: 0 <= i < |rows| ==> rows[i].username != ""
    ensures var t := CancelTarget(rows, "", index);
      t.Some? ==> !AnyMatching(rows, "", t.value.ticker, t.value.createdAt)
    ensures OrderList(rows, Some("")) == OrderList(rows, None)
  {
    LabelledFromUngiven(rows, 0);
  }

  lemma {:induction false} LabelledFromUngiven(rows: seq<OrderRecord>, from: nat)
    decreases |rows| - from
    ensures LabelledFrom(rows, from, Some("")) == LabelledFrom(rows, from, None)
  {
    if from < |rows| {
      LabelledFromUngiven(rows, from + 1);
    }
  }

  /** Whether `execute_order` goes ahead: the order object is pending, the
      re-fetched price is there and still meets the order's rule, and a
      pending row of the order is in the file. */
  predicate Executes(rows: seq<OrderRecord>, order: Order, recheck: Option<real>)
  {
    && order.status == Pending
    && recheck.Some?
    && Triggered(order.side, recheck.value, order.price)
    && AnyMatching(rows, order.username, order.ticker, order.createdAt)
  }

  /** The owner's portfolio file after a sell of `quantity`, or none when
      nothing is written: the position of the loaded portfolio is reduced
      and the loaded portfolio written back when it holds more shares than
      sold, and otherwise the ticker's rows are removed. */
  function SellFilled(rows: seq<PositionRow>, ticker: string, quantity: real): (r: Option<seq<PositionRow>>)
    ensures r.None? <==> !HasKey(rows, RowTicker, ticker)
  {
    DedupKeys(rows);
    SellLoaded(Dedup(rows), rows, ticker, quantity)
  }

  /** The sell on the loaded portfolio `d` of the file `rows`. */
  function SellLoaded(d: seq<PositionRow>, rows: seq<PositionRow>, ticker: string, quantity: real): Option<seq<PositionRow>>
  {
    match KeyIndex(d, RowTicker, ticker)
    case None => None
    case Some(i) =>
      if d[i].shares > quantity then Some(d[i := d[i].(shares := d[i].shares - quantity)])
      else Some(Without(rows, RowTicker, ticker))
  }

  /** The owner's portfolio file after the order fills at `executionPrice`,
      or none when nothing is written. */
  function Filled(rows: seq<PositionRow>, order: Order, executionPrice: real, now: Timestamp): (r: Option<seq<PositionRow>>)
    ensures r.None? <==> order.side == Sell && !HasKey(rows, RowTicker, order.ticker)
  {
    match order.side
    case Buy => Some(PositionAdded(rows, order.ticker, order.quantity, executionPrice, now))
    case Sell => SellFilled(rows, order.ticker, order.quantity)
  }

  lemma SellLoadedAt(d: seq<PositionRow>, rows: seq<PositionRow>, i: nat, quantity: real)
    requires i < |d| && KeyIndex(d, RowTicker, d[i].ticker) == Some(i)
    ensures SellLoaded(d, rows, d[i].ticker, quantity) ==
      Some(if d[i].shares > quantity then d[i := d[i].(shares := d[i].shares - quantity)] else Without(rows, RowTicker, d[i].ticker))
  {
  }

  /** On a file with one row per ticker, a sell reduces the ticker's row
      in place when it holds more shares than sold and removes it
      otherwise, so the holding becomes `shares - quantity` or nothing. */
  lemma SellOnUniqueFile(rows: seq<PositionRow>, i: nat, quantity: real)
    requires UniqueKeys(rows, RowTicker) && i < |rows|
    ensures SellFilled(rows, rows[i].ticker, quantity) ==
      Some(if rows[i].shares > quantity then rows[i := rows[i].(shares := rows[i].shares - quantity)] else Without(rows, RowTicker, rows[i].ticker))
  {
    DedupOfUnique(rows);
    UniqueKeyIndex(rows, RowTicker, i);
    SellLoadedAt(rows, rows, i, quantity);
  }

  /** A sell of a ticker the file does not hold writes nothing. */
  lemma SellOfUnheldTicker(rows: seq<PositionRow>, ticker: string, quantity: real)
    requires !HasKey(rows, RowTicker, ticker)
    ensures SellFilled(rows, ticker, quantity) == None
  {
    DedupKeys(rows);
  }

  /** A buy of a ticker already held stores the bought quantity and the
      execution price in place of the holding rather than adding to it;
      the other tickers' rows stay as they were. */
  lemma BuyOverwritesHolding(rows: seq<PositionRow>, order: Order, executionPrice: real, now: Timestamp)
    requires order.side == Buy
    ensures var f := Filled(rows, order, executionPrice, now).value;
      && (forall i :: 0 <= i < |f| && f[i].ticker == order.ticker ==> f[i] == PositionRow(order.ticker, order.quantity, executionPrice, now))
      && Without(f, RowTicker, order.ticker) == Without(rows, RowTicker, order.ticker)
      && HasKey(f, RowTicker, order.ticker)
  {
    PositionAddedEffect(rows, order.ticker, order.quantity, executionPrice, now);
  }

  class OrderService {
    const orderManager: OrderManager
    const portfolios: PortfolioManager

    constructor (orderManager: OrderManager, portfolios: PortfolioManager)
      ensures this.orderManager == orderManager && this.portfolios == portfolios
    {
      this.orderManager := orderManager;
      this.portfolios := portfolios;
    }

    /** Forces the order's status to pending and appends its row; the row's
        creation time is the clock reading `now`, not the order's own. */
    method CreateOrder(order: Order, now: Timestamp) returns (stored: Order)
      modifies orderManager
      ensures stored == order.(status := Pending)
      ensures orderManager.rows == old(orderManager.rows) + [OrderRecord(order.username, order.ticker, order.side, order.price, order.quantity, now, Pending)]
    {
      stored := order.(status := Pending);
      orderManager.AddOrder(stored.username, stored.ticker, stored.side, stored.price, stored.quantity, now);
    }

    /** One order per listed row, with the row's label as its id. */
    method GetOrders(username: Option<string>) returns (orders: seq<Order>)
      ensures orders == OrderList(orderManager.rows, username)
    {
      var frame := orderManager.GetOrders(username);
      orders := [];
      if frame == [] {
        return;
      }
      var k := 0;
      while k < |frame|
        invariant 0 <= k <= |frame|
        invariant orders == AsOrders(frame[..k])
      {
        orders := orders + [FromLabelled(frame[k])];
        k := k + 1;
      }
      assert frame[..k] == frame;
    }

    method GetPendingOrders(username: Option<string>) returns (orders: seq<Order>)
      ensures orders == PendingOnly(OrderList(orderManager.rows, username))
    {
      var all := GetOrders(username);
      orders := PendingOnly(all);
    }

    /** Cancels the `index`-th pending order of the user: every pending row
        of the user with that order's ticker and creation time becomes
        cancelled. False, with nothing written, when the index is out of
        range or no row matches. */
    method CancelOrder(username: string, index: nat) returns (ok: bool)
      modifies orderManager
      ensures var t := CancelTarget(old(orderManager.rows), username, index);
        ok <==> t.Some? && AnyMatching(old(orderManager.rows), username, t.value.ticker, t.value.createdAt)
      ensures var t := CancelTarget(old(orderManager.rows), username, index);
        orderManager.rows == if ok then MarkMatching(old(orderManager.rows), username, t.value.ticker, t.value.createdAt, Cancelled) else old(orderManager.rows)
    {
      var userOrders := GetOrders(Some(username));
      var pendingOrders := PendingOnly(userOrders);
      if index < |pendingOrders| {
        var order := pendingOrders[index];
        var rows := orderManager.rows;
        if AnyMatching(rows, username, order.ticker, order.createdAt) {
          orderManager.Write(MarkMatching(rows, username, order.ticker, order.createdAt, Cancelled));
          return true;
        }
      }
      return false;
    }

    /** Executes `order` at `executionPrice`. `recheck` is the price the
        method fetches again itself. Nothing changes unless the order goes
        ahead; then its pending rows become executed and the owner's
        portfolio file takes the fill. */
    method ExecuteOrder(order: Order, executionPrice: real, recheck: Option<real>, now: Timestamp)
      modifies orderManager, portfolios
      ensures var go := Executes(old(orderManager.rows), order, recheck);
        orderManager.rows == if go then MarkMatching(old(orderManager.rows), order.username, order.ticker, order.createdAt, Executed) else old(orderManager.rows)
      ensures var go := Executes(old(orderManager.rows), order, recheck);
        var f := Filled(old(portfolios.Read(order.username)), order, executionPrice, now);
        portfolios.files == if go && f.Some? then old(portfolios.files)[order.username := f.value] else old(portfolios.files)
    {
      if order.status != Pending {
        return;
      }
      if recheck.None? {
        return;
      }
      var current := recheck.value;
      if order.side == Buy && current > order.price {
        return;
      } else if order.side == Sell && current < order.price {
        return;
      }
      var rows := orderManager.rows;
      if !AnyMatching(rows, order.username, order.ticker, order.createdAt) {
        return;
      }
      orderManager.Write(MarkMatching(rows, order.username, order.ticker, order.createdAt, Executed));
      var service := new PortfolioService(order.username, portfolios);
      if order.side == Buy {
        service.AddPosition(order.ticker, order.quantity, executionPrice, now);
      } else {
        SellPosition(service, order.ticker, order.quantity);
      }
    }

    /** Reduces the position, which sits at index `i` of the portfolio and
        nowhere else, upserts it and writes the portfolio back. */
    static method ReduceAndSave(service: PortfolioService, portfolio: Portfolio, position: Position, quantity: real, ghost d: seq<PositionRow>, ghost i: nat)
      requires d == portfolio.Rows()
      requires i < |portfolio.positions| && portfolio.positions[i] == position
      requires KeyIndex(portfolio.positions, PositionTicker, position.ticker) == Some(i)
      requires forall j, k :: 0 <= j < k < |portfolio.positions| ==> portfolio.positions[j] != portfolio.positions[k]
      modifies service.manager, portfolio, position
      ensures service.manager.files == old(service.manager.files)[service.username := d[i := d[i].(shares := d[i].shares - quantity)]]
    {
      ghost var ps := portfolio.positions;
      ghost var reduced := d[i := d[i].(shares := d[i].shares - quantity)];
      assert forall j :: 0 <= j < |ps| ==> d[j] == ps[j].Row();
      position.shares := position.shares - quantity;
      forall j | 0 <= j < |ps| ensures RowsOf(ps)[j] == reduced[j] {
        assert RowsOf(ps)[j] == ps[j].Row();
        if j != i {
          assert ps[j] != position;
        }
      }
      assert RowsOf(ps) == reduced;
      portfolio.AddPosition(position);
      assert portfolio.positions == ps;
      assert portfolio.Rows() == reduced;
      assert service.manager.files == old(service.manager.files);
      service.SavePortfolio(portfolio);
    }

    /** The sell branch of `execute_order`. */
    static method SellPosition(service: PortfolioService, ticker: string, quantity: real)
      modifies service.manager
      ensures var f := SellFilled(old(service.manager.Read(service.username)), ticker, quantity);
        service.manager.files == if f.Some? then old(service.manager.files)[service.username := f.value] else old(service.manager.files)
    {
      ghost var rows := service.manager.Read(service.username);
      var portfolio := service.LoadPortfolio();
      SellFromPortfolio(service, portfolio, rows, ticker, quantity);
    }

    /** The sell branch once the portfolio `portfolio` has been loaded from
        the file rows `rows`. */
    static method SellFromPortfolio(service: PortfolioService, portfolio: Portfolio, ghost rows: seq<PositionRow>, ticker: string, quantity: real)
      requires rows == service.manager.Read(service.username)
      requires portfolio.Rows() == Dedup(rows)
      requires forall j, k :: 0 <= j < k < |portfolio.positions| ==> portfolio.positions[j] != portfolio.positions[k]
      modifies service.manager, portfolio, portfolio.positions
      ensures var f := SellFilled(rows, ticker, quantity);
        service.manager.files == if f.Some? then old(service.manager.files)[service.username := f.value] else old(service.manager.files)
    {
      ghost var d := portfolio.Rows();
      ghost var ps := portfolio.positions;
      assert SellFilled(rows, ticker, quantity) == SellLoaded(d, rows, ticker, quantity);
      assert forall j :: 0 <= j < |ps| ==> d[j] == ps[j].Row();
      assert forall j :: 0 <= j < |ps| ==> PositionTicker(ps[j]) == RowTicker(d[j]);
      KeyIndexOfSameKeys(ps, PositionTicker, d, RowTicker, ticker);
      WithKeyFirst(ps, PositionTicker, ticker);
      var positions := WithKey(portfolio.positions, PositionTicker, ticker);
      if positions != [] {
        var position := positions[0];
        ghost var i := KeyIndex(ps, PositionTicker, ticker).value;
        assert position == ps[i] && d[i] == position.Row() && d[i].ticker == ticker;
        SellLoadedAt(d, rows, i, quantity);
        if position.shares > quantity {
          ReduceAndSave(service, portfolio, position, quantity, d, i);
        } else {
          DedupKeys(rows);
          assert HasKey(d, RowTicker, ticker);
          var _ := service.RemovePosition(ticker);
        }
      }
    }
  }
}
