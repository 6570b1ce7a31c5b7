/** The Stock Assistant page of the layered app
    (src/views/trading_bot_view.py): its own evaluation pass over the
    pending orders, the throttle that runs it, the holdings it builds from
    the loaded portfolio, and the checks an order form must pass before an
    order is created. */
module TradingBotView {
  import opened Common
  import opened CsvStorage
  import opened PortfolioModel
  import opened OrderModel
  import opened TradingBot
  import Throttle

  /** The page's pass over all pending orders. It is the bot's pass, except
      that it returns its own list of records. */
  method CheckPendingOrders(service: OrderService, quote: string -> Option<real>, recheck: string -> Option<real>, now: Timestamp)
    returns (executed: seq<Execution>)
    modifies service.orderManager, service.portfolios
    ensures var pending := PendingOnly(OrderList(old(service.orderManager.rows), None));
      executed == Records(pending, quote)
    ensures var pending := PendingOnly(OrderList(old(service.orderManager.rows), None));
      Stores(service.orderManager.rows, service.portfolios.files) ==
        Pass(Stores(old(service.orderManager.rows), old(service.portfolios.files)), pending, quote, recheck, now)
  {
    var pending := service.GetPendingOrders(None);
    ghost var s0 := Stores(service.orderManager.rows, service.portfolios.files);
    executed := [];
    var k := 0;
    while k < |pending|
      invariant 0 <= k <= |pending|
      invariant executed == Records(pending[..k], quote)
      invariant Stores(service.orderManager.rows, service.portfolios.files) == Pass(s0, pending[..k], quote, recheck, now)
    {
      assert pending[..k + 1] == pending[..k] + [pending[k]];
      PassSnoc(s0, pending[..k], pending[k], quote, recheck, now);
      RecordsSnoc(pending[..k], pending[k], quote);
      var record := TryOrder(service, pending[k], quote, recheck, now);
      if record.Some? {
        executed := executed + [record.value];
      }
      k := k + 1;
    }
    assert pending[..k] == pending;
  }

  /** A page visit: the pass runs when the throttle says it is due, and
      its records are returned; otherwise nothing is written. */
  method Visit(service: OrderService, clock: Throttle.SessionClock, quote: string -> Option<real>, recheck: string -> Option<real>,
               today: Timestamp, initNow: real, now: real)
    returns (executed: seq<Execution>)
    modifies clock, service.orderManager, service.portfolios
    ensures clock.ordersChecked == Some(if Throttle.Due(old(clock.ordersChecked), initNow, now) then now else Throttle.Stamp(old(clock.ordersChecked), initNow))
    ensures var pending := PendingOnly(OrderList(old(service.orderManager.rows), None));
      Throttle.Due(old(clock.ordersChecked), initNow, now) ==>
        executed == Records(pending, quote) &&
        Stores(service.orderManager.rows, service.portfolios.files) ==
          Pass(Stores(old(service.orderManager.rows), old(service.portfolios.files)), pending, quote, recheck, today)
    ensures !Throttle.Due(old(clock.ordersChecked), initNow, now) ==>
      executed == [] && service.orderManager.rows == old(service.orderManager.rows) && service.portfolios.files == old(service.portfolios.files)
  {
    var due := clock.Poll(initNow, now);
    if due {
      executed := CheckPendingOrders(service, quote, recheck, today);
    } else {
      executed := [];
    }
  }

  // ---------------------------------------------------------------------
  // Holdings and the order form

  /** `total_holdings`: ticker to shares, filled in row order, so a later
      row of a ticker replaces an earlier one. */
  function HoldingsOf(rows: seq<PositionRow>): map<string, real>
  {
    if rows == [] then map[]
    else HoldingsOf(rows[..|rows| - 1])[rows[|rows| - 1].ticker := rows[|rows| - 1].shares]
  }

  /** The holdings have exactly the tickers of the rows, each with the
      shares of its last row. */
  lemma {:induction false} HoldingsLastWins(rows: seq<PositionRow>)
    ensures forall t :: t in HoldingsOf(rows) <==> HasKey(rows, RowTicker, t)
    ensures forall t :: t in HoldingsOf(rows) ==> LastIndex(rows, t).Some? && HoldingsOf(rows)[t] == rows[LastIndex(rows, t).value].shares
  {
    if rows != [] {
      var front, x := rows[..|rows| - 1], rows[|rows| - 1];
      HoldingsLastWins(front);
      assert forall k :: 0 <= k < |front| ==> front[k] == rows[k];
      forall t ensures HasKey(rows, RowTicker, t) <==> HasKey(front, RowTicker, t) || t == x.ticker {
        if HasKey(rows, RowTicker, t) && t != x.ticker {
          var j :| 0 <= j < |rows| && RowTicker(rows[j]) == t;
          assert j < |front| && RowTicker(front[j]) == t;
        }
        if HasKey(front, RowTicker, t) {
          var j :| 0 <= j < |front| && RowTicker(front[j]) == t;
          assert RowTicker(rows[j]) == t;
        }
        if t == x.ticker {
          assert RowTicker(rows[|rows| - 1]) == t;
        }
      }
    }
  }

  /** The holdings of a loaded portfolio are those of its file: one entry
      per ticker in the file, with the shares of the ticker's last row. */
  lemma LoadedHoldings(rows: seq<PositionRow>)
    ensures forall t :: t in HoldingsOf(Dedup(rows)) <==> HasKey(rows, RowTicker, t)
    ensures forall t :: t in HoldingsOf(Dedup(rows)) ==> LastIndex(rows, t).Some? && HoldingsOf(Dedup(rows))[t] == rows[LastIndex(rows, t).value].shares
  {
    var d := Dedup(rows);
    HoldingsLastWins(d);
    DedupKeys(rows);
    DedupLastRowWins(rows);
    forall t | t in HoldingsOf(d)
      ensures LastIndex(rows, t).Some? && HoldingsOf(d)[t] == rows[LastIndex(rows, t).value].shares
    {
      var j := LastIndex(d, t).value;
      assert d[j].ticker == t;
    }
  }

  /** Builds `total_holdings` from the positions of a portfolio. */
  method TotalHoldings(portfolio: Portfolio) returns (holdings: map<string, real>)
    ensures holdings == HoldingsOf(portfolio.Rows())
  {
    ghost var rows := portfolio.Rows();
    holdings := map[];
    var k := 0;
    while k < |portfolio.positions|
      invariant 0 <= k <= |portfolio.positions|
      invariant holdings == HoldingsOf(rows[..k])
    {
      var position := portfolio.positions[k];
      assert rows[..k + 1][..k] == rows[..k] && rows[k] == position.Row();
      holdings := holdings[position.ticker := position.shares];
      k := k + 1;
    }
    assert rows[..k] == rows;
  }

  /** Whether a submitted form creates an order: a ticker, a positive price
      and a positive quantity are required, and a sell needs a holding of
      the ticker of at least the quantity; a buy is not checked against the
      holdings. */
  predicate Accepted(ticker: string, side: Side, price: real, quantity: real, holdings: map<string, real>)
  {
    && ticker != "" && price > 0.0 && quantity > 0.0
    && (side == Sell ==> ticker in holdings && holdings[ticker] >= quantity)
  }

  /** A buy is accepted whatever the holdings, exactly when its ticker,
      price and quantity are valid. */
  lemma BuyIgnoresHoldings(ticker: string, price: real, quantity: real, holdings: map<string, real>)
    ensures Accepted(ticker, Buy, price, quantity, holdings) <==> ticker != "" && price > 0.0 && quantity > 0.0
  {
  }

  /** On the page, a sell is accepted exactly when the form is valid and
      the last row of the ticker in the user's portfolio file holds at
      least the quantity. */
  lemma SellAcceptedOnFile(rows: seq<PositionRow>, ticker: string, price: real, quantity: real)
    ensures Accepted(ticker, Sell, price, quantity, HoldingsOf(Dedup(rows))) <==>
      && ticker != "" && price > 0.0 && quantity > 0.0
      && LastIndex(rows, ticker).Some? && rows[LastIndex(rows, ticker).value].shares >= quantity
  {
    LoadedHoldings(rows);
  }

  /** The form's submission branch: an accepted order is created pending
      at the clock reading `now`; otherwise nothing is written. */
  method SubmitOrder(service: OrderService, username: string, ticker: string, side: Side, price: real, quantity: real,
                     holdings: map<string, real>, now: Timestamp)
    returns (created: bool)
    modifies service.orderManager
    ensures created <==> Accepted(ticker, side, price, quantity, holdings)
    ensures service.orderManager.rows ==
      if created then old(service.orderManager.rows) + [OrderRecord(username, ticker, side, price, quantity, now, Pending)]
      else old(service.orderManager.rows)
  {
    if ticker != "" && price > 0.0 && quantity > 0.0 {
      if side == Sell {
        if ticker in holdings && holdings[ticker] >= quantity {
          var _ := service.CreateOrder(Order(username, ticker, side, price, quantity, now, Pending, None), now);
          return true;
        } else {
          return false;
        }
      } else {
        var _ := service.CreateOrder(Order(username, ticker, side, price, quantity, now, Pending, None), now);
        return true;
      }
    }
    return false;
  }

  /** The Automated Trading tab: the user's portfolio is loaded, its
      holdings built, and the form submitted against them. */
  method SubmitFromPage(service: OrderService, portfolios: PortfolioService, ticker: string, side: Side, price: real, quantity: real, now: Timestamp)
    returns (created: bool)
    modifies service.orderManager
    ensures created <==> Accepted(ticker, side, price, quantity, HoldingsOf(Dedup(portfolios.manager.Read(portfolios.username))))
    ensures service.orderManager.rows ==
      if created then old(service.orderManager.rows) + [OrderRecord(portfolios.username, ticker, side, price, quantity, now, Pending)]
      else old(service.orderManager.rows)
  {
    var portfolio := portfolios.LoadPortfolio();
    var holdings := TotalHoldings(portfolio);
    created := SubmitOrder(service, portfolios.username, ticker, side, price, quantity, holdings, now);
  }
}
