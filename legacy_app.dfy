/** The single-file Streamlit app test.py: an orders file, one portfolio
    file of lots per user, the evaluation pass `check_orders`, cancelling
    by index, and the Buy Bot form's check of a sell against the summed
    holdings. */
module LegacyApp {
  import opened Common
  import opened CsvStorage
  import opened LegacyCsv
  import TradingBotView

  function OrderUser(r: OrderRecord): string
  {
    r.username
  }

  /** The rows still pending, in file order. */
  function PendingRows(rows: seq<OrderRecord>): seq<OrderRecord>
  {
    Filtered(rows, None, Some(Pending))
  }

  /** The mask of `check_orders`: every row of the user, ticker and
      creation time is executed, whatever its status. */
  function ExecutedWhere(rows: seq<OrderRecord>, username: string, ticker: string, createdAt: Timestamp): (r: seq<OrderRecord>)
    ensures |r| == |rows|
  {
    seq(|rows|, i requires 0 <= i < |rows| =>
      if rows[i].username == username && rows[i].ticker == ticker && rows[i].createdAt == createdAt then rows[i].(status := Executed) else rows[i])
  }

  /** Marking an order executed reaches every row with its user, ticker
      and creation time, a cancelled or executed one included, and no other
      row. */
  lemma ExecutedWhereEffect(rows: seq<OrderRecord>, username: string, ticker: string, createdAt: Timestamp, j: nat)
    requires j < |rows|
    ensures rows[j].username == username && rows[j].ticker == ticker && rows[j].createdAt == createdAt ==>
      ExecutedWhere(rows, username, ticker, createdAt)[j] == rows[j].(status := Executed)
    ensures rows[j].username != username || rows[j].ticker != ticker || rows[j].createdAt != createdAt ==>
      ExecutedWhere(rows, username, ticker, createdAt)[j] == rows[j]
  {
  }

  /** What the pass has written so far: the in-memory orders frame and the
      portfolio files on disk, by username (a missing key is a missing
      file). */
  datatype Disk = Disk(orders: seq<OrderRecord>, portfolios: map<string, seq<PositionRow>>)

  /** The effect of one pending row `o` of the snapshot, with `quote` the
      market price read for a ticker (none when reading it fails),
      `session` the logged-in user and `today` the purchase date of a buy.
      A firing order is marked executed first; then the owner's portfolio
      is read (a missing file of another user raises, and the order stays
      executed with no record), a buy appends a lot at the market price, a
      sell sells from the first lot of the ticker, and the order is
      recorded. */
  function CheckStep(d: Disk, o: OrderRecord, quote: string -> Option<real>, session: string, today: Timestamp): (Disk, seq<Execution>)
  {
    match quote(o.ticker)
    case None => (d, [])
    case Some(price) =>
      if !Triggered(o.side, price, o.price) then (d, [])
      else
        var marked := ExecutedWhere(d.orders, o.username, o.ticker, o.createdAt);
        if o.username != session && o.username !in d.portfolios then (Disk(marked, d.portfolios), [])
        else
          var rows := FileRows(d.portfolios, o.username);
          var files := match o.side
            case Buy => d.portfolios[o.username := rows + [PositionRow(o.ticker, o.quantity, price, today)]]
            case Sell => (match FirstLotSold(rows, o.ticker, o.quantity)
              case None => d.portfolios
              case Some(r) => d.portfolios[o.username := r]);
          (Disk(marked, files), [Execution(o.username, o.ticker, o.side, price, o.quantity)])
  }

  /** The pass over the snapshot rows `pending`, in order. */
  function CheckPrefix(d: Disk, pending: seq<OrderRecord>, quote: string -> Option<real>, session: string, today: Timestamp): (Disk, seq<Execution>)
    decreases |pending|
  {
    if pending == [] then (d, [])
    else
      var before := CheckPrefix(d, pending[..|pending| - 1], quote, session, today);
      var after := CheckStep(before.0, pending[|pending| - 1], quote, session, today);
      (after.0, before.1 + after.1)
  }

  /** `check_orders` returns False when the frame holds no pending row, and
      the list of records otherwise. */
  datatype CheckResult = NoPending | Checked(executed: seq<Execution>)

  function CheckOrdersSpec(d: Disk, quote: string -> Option<real>, session: string, today: Timestamp): (Disk, CheckResult)
  {
    if d.orders == [] || PendingRows(d.orders) == [] then (d, NoPending)
    else
      var r := CheckPrefix(d, PendingRows(d.orders), quote, session, today);
      (r.0, Checked(r.1))
  }

  /** The pass returns False exactly when no row is pending, and then
      changes nothing. */
  lemma NoPendingExactly(d: Disk, quote: string -> Option<real>, session: string, today: Timestamp)
    ensures CheckOrdersSpec(d, quote, session, today).1 == NoPending <==> forall i :: 0 <= i < |d.orders| ==> d.orders[i].status != Pending
    ensures CheckOrdersSpec(d, quote, session, today).1 == NoPending ==> CheckOrdersSpec(d, quote, session, today).0 == d
  {
    FilteredEffect(d.orders, None, Some(Pending));
    if PendingRows(d.orders) != [] {
      assert PendingRows(d.orders)[0] in PendingRows(d.orders);
    }
    forall i | 0 <= i < |d.orders| && d.orders[i].status == Pending
      ensures PendingRows(d.orders) != []
    {
      assert d.orders[i] in PendingRows(d.orders);
    }
  }

  /** One step changes order rows only to executed and keeps the file's
      length; each record it makes is the fired order at the price read. */
  lemma CheckStepEffect(d: Disk, o: OrderRecord, quote: string -> Option<real>, session: string, today: Timestamp)
    ensures var (r, e) := CheckStep(d, o, quote, session, today);
      && |r.orders| == |d.orders|
      && (forall j :: 0 <= j < |d.orders| ==> r.orders[j] == d.orders[j] || r.orders[j] == d.orders[j].(status := Executed))
      && (e != [] ==>
            (quote(o.ticker).Some? && Triggered(o.side, quote(o.ticker).value, o.price)
             && e == [Execution(o.username, o.ticker, o.side, quote(o.ticker).value, o.quantity)]))
      && |e| <= 1
  {
  }

  /** Over the whole pass, order rows only become executed, and there is
      at most one record per snapshot row, each for a snapshot row whose
      price met its rule, at that price. */
  lemma {:induction false} CheckPrefixEffect(d: Disk, pending: seq<OrderRecord>, quote: string -> Option<real>, session: string, today: Timestamp)
    decreases |pending|
    ensures var (r, e) := CheckPrefix(d, pending, quote, session, today);
      && |r.orders| == |d.orders|
      && (forall j :: 0 <= j < |d.orders| ==> r.orders[j] == d.orders[j] || r.orders[j] == d.orders[j].(status := Executed))
      && |e| <= |pending|
      && (forall k :: 0 <= k < |e| ==>
            exists i :: (0 <= i < |pending| && quote(pending[i].ticker) == Some(e[k].price)
              && Triggered(pending[i].side, e[k].price, pending[i].price) && e[k].username == pending[i].username && e[k].ticker == pending[i].ticker))
  {
    if pending != [] {
      var front, o := pending[..|pending| - 1], pending[|pending| - 1];
      CheckPrefixEffect(d, front, quote, session, today);
      var before := CheckPrefix(d, front, quote, session, today);
      CheckStepEffect(before.0, o, quote, session, today);
      var after := CheckStep(before.0, o, quote, session, today);
      var e := before.1 + after.1;
      forall k | 0 <= k < |e|
        ensures exists i :: (0 <= i < |pending| && quote(pending[i].ticker) == Some(e[k].price)
          && Triggered(pending[i].side, e[k].price, pending[i].price) && e[k].username == pending[i].username && e[k].ticker == pending[i].ticker)
      {
        if k < |before.1| {
          var i :| 0 <= i < |front| && quote(front[i].ticker) == Some(before.1[k].price)
            && Triggered(front[i].side, before.1[k].price, front[i].price) && before.1[k].username == front[i].username && before.1[k].ticker == front[i].ticker;
          assert pending[i] == front[i];
        } else {
          assert e[k] == after.1[k - |before.1|];
          assert pending[|pending| - 1] == o;
        }
      }
    }
  }

  /** A firing order of another user whose portfolio file is missing is
      left executed, with nothing recorded or written to a portfolio. */
  lemma MissingFileLeavesExecuted(d: Disk, o: OrderRecord, quote: string -> Option<real>, session: string, today: Timestamp)
    requires quote(o.ticker).Some? && Triggered(o.side, quote(o.ticker).value, o.price)
    requires o.username != session && o.username !in d.portfolios
    ensures CheckStep(d, o, quote, session, today) == (Disk(ExecutedWhere(d.orders, o.username, o.ticker, o.createdAt), d.portfolios), [])
  {
  }

  /** A firing buy adds its quantity to the owner's holding of the ticker,
      in a new lot at the market price. */
  lemma BuyStepAddsLot(d: Disk, o: OrderRecord, quote: string -> Option<real>, session: string, today: Timestamp)
    requires quote(o.ticker).Some? && Triggered(o.side, quote(o.ticker).value, o.price) && o.side == Buy
    requires o.username == session || o.username in d.portfolios
    ensures var r := FileRows(CheckStep(d, o, quote, session, today).0.portfolios, o.username);
      && r == FileRows(d.portfolios, o.username) + [PositionRow(o.ticker, o.quantity, quote(o.ticker).value, today)]
      && TickerShares(r, o.ticker) == TickerShares(FileRows(d.portfolios, o.username), o.ticker) + o.quantity
  {
    var rows := FileRows(d.portfolios, o.username);
    var lot := PositionRow(o.ticker, o.quantity, quote(o.ticker).value, today);
    TickerSharesAppend(rows, [lot], o.ticker);
    assert [lot][1..] == [];
  }

  // ---------------------------------------------------------------------
  // Cancelling

  /** `cancel_order(username, index)`: the `index`-th order of the user, of
      any status, picks the creation time whose rows are cancelled. */
  function CancelAnyStatus(rows: seq<OrderRecord>, username: string, index: nat): Option<seq<OrderRecord>>
  {
    var userOrders := WithKey(rows, OrderUser, username);
    if index < |userOrders| then Some(SetStatusWhere(rows, username, userOrders[index].createdAt, Cancelled)) else None
  }

  /** The list the Buy Bot page numbers for its Cancel buttons: the user's
      pending orders. */
  function DisplayedPending(rows: seq<OrderRecord>, username: string): seq<OrderRecord>
  {
    PendingRows(WithKey(rows, OrderUser, username))
  }

  /** Cancelling the `index`-th order of the page's list. */
  function CancelDisplayed(rows: seq<OrderRecord>, username: string, index: nat): Option<seq<OrderRecord>>
  {
    var shown := DisplayedPending(rows, username);
    if index < |shown| then Some(SetStatusWhere(rows, username, shown[index].createdAt, Cancelled)) else None
  }

  /** The page numbers pending orders, but `cancel_order` counts all of
      the user's orders: with an executed order before a pending one, the
      Cancel button of the pending order (number 0) cancels the executed
      order and leaves the pending one pending. */
  lemma CancelHitsWrongOrder()
    ensures var rows := [OrderRecord("u", "AAA", Buy, 1.0, 1.0, 1, Executed), OrderRecord("u", "BBB", Buy, 1.0, 1.0, 2, Pending)];
      && DisplayedPending(rows, "u") == [rows[1]]
      && CancelAnyStatus(rows, "u", 0) == Some([rows[0].(status := Cancelled), rows[1]])
      && CancelDisplayed(rows, "u", 0) == Some([rows[0], rows[1].(status := Cancelled)])
  {
    var rows := [OrderRecord("u", "AAA", Buy, 1.0, 1.0, 1, Executed), OrderRecord("u", "BBB", Buy, 1.0, 1.0, 2, Pending)];
    assert rows[1..][1..] == [];
    assert WithKey(rows, OrderUser, "u") == rows;
    assert Filtered(rows[1..], None, Some(Pending)) == [rows[1]];
    assert PendingRows(rows) == [rows[1]];
    var asWritten := SetStatusWhere(rows, "u", 1, Cancelled);
    assert asWritten[0] == rows[0].(status := Cancelled) && asWritten[1] == rows[1];
    assert asWritten == [rows[0].(status := Cancelled), rows[1]];
    var corrected := SetStatusWhere(rows, "u", 2, Cancelled);
    assert corrected[0] == rows[0] && corrected[1] == rows[1].(status := Cancelled);
    assert corrected == [rows[0], rows[1].(status := Cancelled)];
  }

  /** Cancelling from the page's list cancels a pending order of the user:
      every row of the listed order becomes cancelled, and only rows of the
      user with its creation time change. */
  lemma CancelDisplayedEffect(rows: seq<OrderRecord>, username: string, index: nat)
    ensures CancelDisplayed(rows, username, index).None? <==> index >= |DisplayedPending(rows, username)|
    ensures CancelDisplayed(rows, username, index).Some? ==>
      var shown := DisplayedPending(rows, username)[index];
      var r := CancelDisplayed(rows, username, index).value;
      && shown in rows && shown.status == Pending && shown.username == username
      && |r| == |rows|
      && (forall j :: 0 <= j < |rows| && rows[j] == shown ==> r[j] == shown.(status := Cancelled))
      && (forall j :: 0 <= j < |rows| && (rows[j].username != username || rows[j].createdAt != shown.createdAt) ==> r[j] == rows[j])
  {
    var user := WithKey(rows, OrderUser, username);
    WithKeyMembers(rows, OrderUser, username);
    FilteredEffect(user, None, Some(Pending));
    if index < |DisplayedPending(rows, username)| {
      var shown := DisplayedPending(rows, username)[index];
      assert shown in DisplayedPending(rows, username);
      assert shown in user;
    }
  }

  // ---------------------------------------------------------------------
  // The form's holdings: summed per ticker

  /** `df.groupby("Ticker")["Anteile"].sum()` as a map. */
  function GroupedHoldings(rows: seq<PositionRow>): map<string, real>
  {
    if rows == [] then map[]
    else
      var m := GroupedHoldings(rows[..|rows| - 1]);
      var x := rows[|rows| - 1];
      m[x.ticker := (if x.ticker in m then m[x.ticker] else 0.0) + x.shares]
  }

  /** The grouped holdings have exactly the tickers of the lots, each with
      its total shares. */
  lemma {:induction false} GroupedIsTotal(rows: seq<PositionRow>)
    ensures forall t :: t in GroupedHoldings(rows) <==> HasKey(rows, RowTicker, t)
    ensures forall t :: t in GroupedHoldings(rows) ==> GroupedHoldings(rows)[t] == TickerShares(rows, t)
  {
    if rows != [] {
      var front, x := rows[..|rows| - 1], rows[|rows| - 1];
      GroupedIsTotal(front);
      assert rows == front + [x];
      forall t ensures TickerShares(rows, t) == TickerShares(front, t) + (if x.ticker == t then x.shares else 0.0) {
        TickerSharesAppend(front, [x], t);
        assert [x][1..] == [];
      }
      forall t ensures !HasKey(front, RowTicker, t) ==> TickerShares(front, t) == 0.0 {
        NoLotNoShares(front, t);
      }
      forall t ensures HasKey(rows, RowTicker, t) <==> HasKey(front, RowTicker, t) || t == x.ticker {
        if HasKey(rows, RowTicker, t) && t != x.ticker {
          var j :| 0 <= j < |rows| && RowTicker(rows[j]) == t;
          assert j < |front| && RowTicker(front[j]) == t;
        }
        if HasKey(front, RowTicker, t) {
          var j :| 0 <= j < |front| && RowTicker(front[j]) == t;
          assert RowTicker(rows[j]) == t;
        }
        if t == x.ticker {
          assert RowTicker(rows[|rows| - 1]) == t;
        }
      }
    }
  }

  lemma {:induction false} NoLotNoShares(rows: seq<PositionRow>, t: string)
    ensures !HasKey(rows, RowTicker, t) ==> TickerShares(rows, t) == 0.0
  {
    if rows != [] && !HasKey(rows, RowTicker, t) {
      assert RowTicker(rows[0]) != t;
      forall j | 0 <= j < |rows[1..]|
        ensures RowTicker(rows[1..][j]) != t
      {
        assert rows[1..][j] == rows[j + 1];
      }
      NoLotNoShares(rows[1..], t);
    }
  }

  /** In this app a sell is accepted exactly when the form is valid and
      the user's lots of the ticker total at least the quantity. */
  lemma SellAcceptedByTotal(rows: seq<PositionRow>, ticker: string, price: real, quantity: real)
    ensures TradingBotView.Accepted(ticker, Sell, price, quantity, GroupedHoldings(rows)) <==>
      ticker != "" && price > 0.0 && quantity > 0.0 && HasKey(rows, RowTicker, ticker) && TickerShares(rows, ticker) >= quantity
  {
    GroupedIsTotal(rows);
  }

  // ---------------------------------------------------------------------
  // The files

  class LegacyFiles {
    var orders: seq<OrderRecord>
    var portfolios: map<string, seq<PositionRow>>

    constructor ()
      ensures orders == [] && portfolios == map[]
    {
      orders := [];
      portfolios := map[];
    }

    /** `load_orders`: the user's rows when a username is given, all rows
        otherwise. */
    function LoadOrders(username: Option<string>): seq<OrderRecord>
      reads this
    {
      Filtered(orders, username, None)
    }

    /** Appends a pending order created at the clock reading `now`. */
    method AddOrder(username: string, ticker: string, side: Side, price: real, quantity: real, now: Timestamp) returns (ok: bool)
      modifies this
      ensures ok && portfolios == old(portfolios)
      ensures orders == old(orders) + [OrderRecord(username, ticker, side, price, quantity, now, Pending)]
    {
      orders := orders + [OrderRecord(username, ticker, side, price, quantity, now, Pending)];
      return true;
    }

    /** One snapshot row of the pass: the frame `df` is updated in memory,
        a portfolio file on disk. */
    method CheckRow(df: seq<OrderRecord>, o: OrderRecord, quote: string -> Option<real>, session: string, today: Timestamp)
      returns (df': seq<OrderRecord>, record: seq<Execution>)
      modifies this
      ensures (Disk(df', portfolios), record) == CheckStep(Disk(df, old(portfolios)), o, quote, session, today)
      ensures orders == old(orders)
    {
      df', record := df, [];
      var current := quote(o.ticker);
      if current.None? {
        return;
      }
      var price := current.value;
      if !Triggered(o.side, price, o.price) {
        return;
      }
      df' := ExecutedWhere(df, o.username, o.ticker, o.createdAt);
      if o.username != session && o.username !in portfolios {
        return;
      }
      var lots := FileRows(portfolios, o.username);
      if o.side == Buy {
        portfolios := portfolios[o.username := lots + [PositionRow(o.ticker, o.quantity, price, today)]];
      } else {
        var sold := FirstLotSold(lots, o.ticker, o.quantity);
        if sold.Some? {
          portfolios := portfolios[o.username := sold.value];
        }
      }
      record := [Execution(o.username, o.ticker, o.side, price, o.quantity)];
    }

    /** `check_orders`: the pass over the pending rows of the frame, after
        which the frame is saved. */
    method CheckOrders(quote: string -> Option<real>, session: string, today: Timestamp) returns (result: CheckResult)
      modifies this
      ensures (Disk(orders, portfolios), result) == CheckOrdersSpec(Disk(old(orders), old(portfolios)), quote, session, today)
    {
      var df := orders;
      var pending := PendingRows(df);
      if df == [] || pending == [] {
        return NoPending;
      }
      ghost var d0 := Disk(df, portfolios);
      var executed := [];
      var k := 0;
      while k < |pending|
        invariant 0 <= k <= |pending|
        invariant orders == old(orders)
        invariant (Disk(df, portfolios), executed) == CheckPrefix(d0, pending[..k], quote, session, today)
      {
        assert pending[..k + 1][..k] == pending[..k] && pending[..k + 1][k] == pending[k];
        var record;
        df, record := CheckRow(df, pending[k], quote, session, today);
        executed := executed + record;
        k := k + 1;
      }
      assert pending[..k] == pending;
      orders := df;
      return Checked(executed);
    }

    /** `cancel_order` as written: the index counts all of the user's
        orders; false, with nothing written, when it is out of range. */
    method CancelOrder(username: string, index: nat) returns (ok: bool)
      modifies this
      ensures ok <==> CancelAnyStatus(old(orders), username, index).Some?
      ensures orders == if ok then CancelAnyStatus(old(orders), username, index).value else old(orders)
      ensures portfolios == old(portfolios)
    {
      var userOrders := WithKey(orders, OrderUser, username);
      if index < |userOrders| {
        orders := SetStatusWhere(orders, username, userOrders[index].createdAt, Cancelled);
        return true;
      }
      return false;
    }

    /** Cancelling the `index`-th order of the page's pending list. */
    method CancelPendingOrder(username: string, index: nat) returns (ok: bool)
      modifies this
      ensures ok <==> index < |DisplayedPending(old(orders), username)|
      ensures orders == if ok then CancelDisplayed(old(orders), username, index).value else old(orders)
      ensures portfolios == old(portfolios)
    {
      var shown := DisplayedPending(orders, username);
      if index < |shown| {
        orders := SetStatusWhere(orders, username, shown[index].createdAt, Cancelled);
        return true;
      }
      return false;
    }

    /** The Buy Bot form: an accepted order, judged against the session
        user's summed holdings, is added pending at `now`. */
    method SubmitOrder(session: string, ticker: string, side: Side, price: real, quantity: real, now: Timestamp) returns (created: bool)
      modifies this
      ensures created <==> TradingBotView.Accepted(ticker, side, price, quantity, GroupedHoldings(FileRows(old(portfolios), session)))
      ensures orders == if created then old(orders) + [OrderRecord(session, ticker, side, price, quantity, now, Pending)] else old(orders)
      ensures portfolios == old(portfolios)
    {
      var holdings := GroupedHoldings(FileRows(portfolios, session));
      created := false;
      if ticker != "" && price > 0.0 && quantity > 0.0 {
        if side == Sell {
          if ticker in holdings && holdings[ticker] >= quantity {
            created := AddOrder(session, ticker, side, price, quantity, now);
          }
        } else {
          created := AddOrder(session, ticker, side, price, quantity, now);
        }
      }
    }
  }
}
