/** The background trading bot of the layered app
    (src/services/trading_bot_service.py): its running flag, the buffer of
    executions it reports once, the time of its last check, and the
    evaluation pass that executes the pending orders of every user through
    the order service. */
module TradingBot {
  import opened Common
  import opened CsvStorage
  import opened OrderModel

  /** The two stores an evaluation pass writes: the rows of the orders file
      and the portfolio files by username. */
  datatype Stores = Stores(orders: seq<OrderRecord>, files: map<string, seq<PositionRow>>)

  /** The stores after `OrderService.execute_order(order, price)` whose own
      price re-fetch gave `recheck`: unchanged unless the order goes ahead;
      then its pending rows are executed and the owner's file takes the
      fill. */
  function AfterExecute(s: Stores, order: Order, price: real, recheck: Option<real>, now: Timestamp): (r: Stores)
    ensures !Executes(s.orders, order, recheck) ==> r == s
    ensures Executes(s.orders, order, recheck) ==>
      r.orders == MarkMatching(s.orders, order.username, order.ticker, order.createdAt, Executed)
  {
    if Executes(s.orders, order, recheck) then
      var f := Filled(FileRows(s.files, order.username), order, price, now);
      Stores(MarkMatching(s.orders, order.username, order.ticker, order.createdAt, Executed),
             if f.Some? then s.files[order.username := f.value] else s.files)
    else s
  }

  /** Whether the pass calls `execute_order` for `order`: its ticker has a
      price and the price meets the order's rule. */
  predicate Fires(order: Order, quote: string -> Option<real>)
  {
    quote(order.ticker).Some? && Triggered(order.side, quote(order.ticker).value, order.price)
  }

  /** The record the pass reports for a fired order. */
  function Report(order: Order, quote: string -> Option<real>): Execution
    requires quote(order.ticker).Some?
  {
    Execution(order.username, order.ticker, order.side, quote(order.ticker).value, order.quantity)
  }

  /** The stores after the pass has looked at `o`. */
  function Step(s: Stores, o: Order, quote: string -> Option<real>, recheck: string -> Option<real>, now: Timestamp): Stores
  {
    if Fires(o, quote) then AfterExecute(s, o, quote(o.ticker).value, recheck(o.ticker), now) else s
  }

  /** The stores after the pass over `pending`, in list order, with `quote`
      the price the bot reads and `recheck` the one `execute_order` reads. */
  function Pass(s: Stores, pending: seq<Order>, quote: string -> Option<real>, recheck: string -> Option<real>, now: Timestamp): Stores
    decreases |pending|
  {
    if pending == [] then s
    else
      Pass(Step(s, pending[0], quote, recheck, now), pending[1..], quote, recheck, now)
  }

  /** The records the pass reports for `pending`: one per fired order,
      whether or not `execute_order` went ahead. */
  function Records(pending: seq<Order>, quote: string -> Option<real>): seq<Execution>
    decreases |pending|
  {
    if pending == [] then []
    else (if Fires(pending[0], quote) then [Report(pending[0], quote)] else []) + Records(pending[1..], quote)
  }

  /** The pass over one more order is one more step. */
  lemma {:induction false} PassSnoc(s: Stores, pending: seq<Order>, o: Order, quote: string -> Option<real>, recheck: string -> Option<real>, now: Timestamp)
    decreases |pending|
    ensures Pass(s, pending + [o], quote, recheck, now) == Step(Pass(s, pending, quote, recheck, now), o, quote, recheck, now)
  {
    if pending == [] {
      assert [o][1..] == [];
    } else {
      assert (pending + [o])[1..] == pending[1..] + [o];
      PassSnoc(Step(s, pending[0], quote, recheck, now), pending[1..], o, quote, recheck, now);
    }
  }

  /** The records of one more order are those of the others followed by
      the new order's record, if it fires. */
  lemma {:induction false} RecordsSnoc(pending: seq<Order>, o: Order, quote: string -> Option<real>)
    decreases |pending|
    ensures Records(pending + [o], quote) == Records(pending, quote) + if Fires(o, quote) then [Report(o, quote)] else []
  {
    var tail := if Fires(o, quote) then [Report(o, quote)] else [];
    if pending == [] {
      assert [o][1..] == [];
      assert Records([o], quote) == tail + [];
    } else {
      var head := if Fires(pending[0], quote) then [Report(pending[0], quote)] else [];
      assert (pending + [o])[0] == pending[0] && (pending + [o])[1..] == pending[1..] + [o];
      assert Records(pending + [o], quote) == head + Records(pending[1..] + [o], quote);
      RecordsSnoc(pending[1..], o, quote);
      assert head + (Records(pending[1..], quote) + tail) == (head + Records(pending[1..], quote)) + tail;
    }
  }

  /** One more order of the loop: the stores and records after its step are
      those of the pass over one more order. */
  lemma PassAdvance(s0: Stores, e0: seq<Execution>, st: Stores, ex: seq<Execution>, pending: seq<Order>, k: nat,
                    quote: string -> Option<real>, recheck: string -> Option<real>, now: Timestamp)
    requires k < |pending|
    requires ex == e0 + Records(pending[..k], quote) && st == Pass(s0, pending[..k], quote, recheck, now)
    ensures ex + (if Fires(pending[k], quote) then [Report(pending[k], quote)] else []) == e0 + Records(pending[..k + 1], quote)
    ensures Step(st, pending[k], quote, recheck, now) == Pass(s0, pending[..k + 1], quote, recheck, now)
  {
    assert pending[..k + 1] == pending[..k] + [pending[k]];
    PassSnoc(s0, pending[..k], pending[k], quote, recheck, now);
    RecordsSnoc(pending[..k], pending[k], quote);
    var tail := if Fires(pending[k], quote) then [Report(pending[k], quote)] else [];
    assert (e0 + Records(pending[..k], quote)) + tail == e0 + (Records(pending[..k], quote) + tail);
  }

  /** Every record belongs to a fired pending order, carrying the price the
      bot read, and every fired order has its record, in list order. */
  lemma {:induction false} RecordsEffect(pending: seq<Order>, quote: string -> Option<real>)
    ensures var r := Records(pending, quote);
      && |r| <= |pending|
      && (forall k :: 0 <= k < |r| ==> exists i :: 0 <= i < |pending| && Fires(pending[i], quote) && r[k] == Report(pending[i], quote))
      && (forall i :: 0 <= i < |pending| && Fires(pending[i], quote) ==> Report(pending[i], quote) in r)
      && ((forall i :: 0 <= i < |pending| ==> !Fires(pending[i], quote)) ==> r == [])
  {
    RecordsFromFired(pending, quote);
    RecordsComplete(pending, quote);
    var r := Records(pending, quote);
    assert |r| <= |pending|;
    assert forall k :: 0 <= k < |r| ==> exists i :: 0 <= i < |pending| && Fires(pending[i], quote) && r[k] == Report(pending[i], quote);
    if r != [] {
      assert exists i :: 0 <= i < |pending| && Fires(pending[i], quote) && r[0] == Report(pending[i], quote);
    }
  }

  /** Every record of `r` is the report of a fired order of `pending`. */
  ghost predicate FromFired(r: seq<Execution>, pending: seq<Order>, quote: string -> Option<real>)
  {
    forall k :: 0 <= k < |r| ==> exists i :: 0 <= i < |pending| && Fires(pending[i], quote) && r[k] == Report(pending[i], quote)
  }

  lemma {:induction false} RecordsFromFired(pending: seq<Order>, quote: string -> Option<real>)
    decreases |pending|
    ensures |Records(pending, quote)| <= |pending|
    ensures FromFired(Records(pending, quote), pending, quote)
  {
    if pending != [] {
      var rest := Records(pending[1..], quote);
      RecordsFromFired(pending[1..], quote);
      var r := Records(pending, quote);
      var head := if Fires(pending[0], quote) then [Report(pending[0], quote)] else [];
      assert r == head + rest;
      forall k | 0 <= k < |r|
        ensures exists i :: 0 <= i < |pending| && Fires(pending[i], quote) && r[k] == Report(pending[i], quote)
      {
        if k < |head| {
          assert Fires(pending[0], quote) && r[k] == Report(pending[0], quote);
        } else {
          assert r[k] == rest[k - |head|];
          var i :| 0 <= i < |pending[1..]| && Fires(pending[1..][i], quote) && rest[k - |head|] == Report(pending[1..][i], quote);
          assert pending[1..][i] == pending[i + 1];
        }
      }
      assert FromFired(r, pending, quote);
    }
  }

  lemma {:induction false} RecordsComplete(pending: seq<Order>, quote: string -> Option<real>)
    decreases |pending|
    ensures forall i :: 0 <= i < |pending| && Fires(pending[i], quote) ==> Report(pending[i], quote) in Records(pending, quote)
  {
    if pending != [] {
      var rest := Records(pending[1..], quote);
      RecordsComplete(pending[1..], quote);
      var r := Records(pending, quote);
      var head := if Fires(pending[0], quote) then [Report(pending[0], quote)] else [];
      assert r == head + rest;
      forall i | 0 <= i < |pending| && Fires(pending[i], quote) ensures Report(pending[i], quote) in r {
        if i > 0 {
          assert pending[1..][i - 1] == pending[i];
        }
      }
    }
  }

  /** A pass changes order rows only from pending to executed: a row that
      was not pending is untouched, every row keeps its fields except the
      status, and the file keeps its length. */
  lemma {:induction false} PassStatuses(s: Stores, pending: seq<Order>, quote: string -> Option<real>, recheck: string -> Option<real>, now: Timestamp)
    decreases |pending|
    ensures var r := Pass(s, pending, quote, recheck, now).orders;
      && |r| == |s.orders|
      && (forall j :: 0 <= j < |r| && s.orders[j].status != Pending ==> r[j] == s.orders[j])
      && (forall j :: 0 <= j < |r| ==> r[j] == s.orders[j] || r[j] == s.orders[j].(status := Executed))
  {
    if pending != [] {
      var o := pending[0];
      var next := Step(s, o, quote, recheck, now);
      MarkMatchingEffect(s.orders, o.username, o.ticker, o.createdAt, Executed);
      assert |next.orders| == |s.orders|;
      assert forall j :: 0 <= j < |s.orders| && s.orders[j].status != Pending ==> next.orders[j] == s.orders[j];
      assert forall j :: 0 <= j < |s.orders| ==> next.orders[j] == s.orders[j] || next.orders[j] == s.orders[j].(status := Executed);
      PassStatuses(next, pending[1..], quote, recheck, now);
    }
  }

  /** The bot reports an order it fired even when `execute_order` declines
      it: with the re-fetched price missing, the one-order pass writes
      nothing and still returns the record. */
  lemma RecordedWhenDeclined(s: Stores, order: Order, quote: string -> Option<real>, recheck: string -> Option<real>, now: Timestamp)
    requires Fires(order, quote) && recheck(order.ticker).None?
    ensures Pass(s, [order], quote, recheck, now) == s
    ensures Records([order], quote) == [Report(order, quote)]
  {
    assert [order][1..] == [];
  }

  /** The body of an evaluation pass for one order: skipped when its
      ticker has no price, handed to `execute_order` and reported when the
      price meets its rule. */
  method TryOrder(service: OrderService, order: Order, quote: string -> Option<real>, recheck: string -> Option<real>, now: Timestamp)
    returns (record: Option<Execution>)
    modifies service.orderManager, service.portfolios
    ensures record == if Fires(order, quote) then Some(Report(order, quote)) else None
    ensures Stores(service.orderManager.rows, service.portfolios.files) ==
      Step(Stores(old(service.orderManager.rows), old(service.portfolios.files)), order, quote, recheck, now)
  {
    var current := quote(order.ticker);
    if current.None? {
      return None;
    }
    if Triggered(order.side, current.value, order.price) {
      service.ExecuteOrder(order, current.value, recheck(order.ticker), now);
      return Some(Execution(order.username, order.ticker, order.side, current.value, order.quantity));
    }
    return None;
  }

  class TradingBotService {
    /** Seconds between two passes of the bot's thread. */
    const checkInterval: int
    const orderService: OrderService
    var running: bool
    /** Whether a thread was ever started (`self.thread` is set). */
    var hasThread: bool
    var lastCheckTime: Option<Timestamp>
    var executedOrders: seq<Execution>

    /** A new bot is stopped, has no thread, no last check and no records. */
    constructor (checkInterval: int, orderService: OrderService)
      ensures this.checkInterval == checkInterval && this.orderService == orderService
      ensures !running && !hasThread && lastCheckTime == None && executedOrders == []
    {
      this.checkInterval := checkInterval;
      this.orderService := orderService;
      running := false;
      hasThread := false;
      lastCheckTime := None;
      executedOrders := [];
    }

    /** Starting a running bot does nothing; otherwise the bot runs and has
        a thread. */
    method Start()
      modifies this
      ensures running && (old(running) ==> hasThread == old(hasThread)) && (!old(running) ==> hasThread)
      ensures lastCheckTime == old(lastCheckTime) && executedOrders == old(executedOrders)
    {
      if !running {
        running := true;
        hasThread := true;
      }
    }

    /** Stopping clears the flag; the thread reference stays. */
    method Stop()
      modifies this
      ensures !running && hasThread == old(hasThread)
      ensures lastCheckTime == old(lastCheckTime) && executedOrders == old(executedOrders)
    {
      running := false;
    }

    /** The time of the last pass, or the clock reading `now` before the
        first one. */
    function GetLastCheckTime(now: Timestamp): (t: Timestamp)
      reads this
      ensures lastCheckTime == None ==> t == now
      ensures lastCheckTime != None ==> t == lastCheckTime.value
    {
      if lastCheckTime.Some? then lastCheckTime.value else now
    }

    /** Hands over the records gathered so far, in the order they were
        added, and empties the buffer, so a second call right after returns
        none. */
    method GetExecutedOrders() returns (executed: seq<Execution>)
      modifies this
      ensures executed == old(executedOrders) && executedOrders == []
      ensures running == old(running) && hasThread == old(hasThread) && lastCheckTime == old(lastCheckTime)
    {
      executed := executedOrders;
      executedOrders := [];
    }

    /** One pass over the pending orders of all users, listed once at the
        start: an order whose ticker has no price is skipped; an order
        whose price meets its rule is handed to `execute_order` and
        recorded at the price read. */
    method CheckPendingOrders(quote: string -> Option<real>, recheck: string -> Option<real>, now: Timestamp)
      modifies this, orderService.orderManager, orderService.portfolios
      ensures var pending := PendingOnly(OrderList(old(orderService.orderManager.rows), None));
        executedOrders == old(executedOrders) + Records(pending, quote)
      ensures var pending := PendingOnly(OrderList(old(orderService.orderManager.rows), None));
        Stores(orderService.orderManager.rows, orderService.portfolios.files) ==
          Pass(Stores(old(orderService.orderManager.rows), old(orderService.portfolios.files)), pending, quote, recheck, now)
      ensures running == old(running) && hasThread == old(hasThread) && lastCheckTime == old(lastCheckTime)
    {
      var pending := orderService.GetPendingOrders(None);
      ghost var s0 := Stores(orderService.orderManager.rows, orderService.portfolios.files);
      ghost var e0 := executedOrders;
      var k := 0;
      assert e0 + Records(pending[..0], quote) == e0;
      while k < |pending|
        invariant 0 <= k <= |pending|
        invariant executedOrders == e0 + Records(pending[..k], quote)
        invariant Stores(orderService.orderManager.rows, orderService.portfolios.files) == Pass(s0, pending[..k], quote, recheck, now)
        invariant running == old(running) && hasThread == old(hasThread) && lastCheckTime == old(lastCheckTime)
      {
        ghost var st, ex := Stores(orderService.orderManager.rows, orderService.portfolios.files), executedOrders;
        ProcessOrder(pending[k], quote, recheck, now);
        PassAdvance(s0, e0, st, ex, pending, k, quote, recheck, now);
        k := k + 1;
      }
      assert pending[..k] == pending;
    }

    /** The body of the pass for one order. */
    method ProcessOrder(order: Order, quote: string -> Option<real>, recheck: string -> Option<real>, now: Timestamp)
      modifies this, orderService.orderManager, orderService.portfolios
      ensures executedOrders == old(executedOrders) + if Fires(order, quote) then [Report(order, quote)] else []
      ensures Stores(orderService.orderManager.rows, orderService.portfolios.files) ==
        Step(Stores(old(orderService.orderManager.rows), old(orderService.portfolios.files)), order, quote, recheck, now)
      ensures running == old(running) && hasThread == old(hasThread) && lastCheckTime == old(lastCheckTime)
    {
      var record := TryOrder(orderService, order, quote, recheck, now);
      if record.Some? {
        executedOrders := executedOrders + [record.value];
      }
    }

    /** One round of the bot's thread: a pass, after which the round's
        clock reading becomes the last check time. */
    method RunRound(quote: string -> Option<real>, recheck: string -> Option<real>, now: Timestamp)
      modifies this, orderService.orderManager, orderService.portfolios
      ensures var pending := PendingOnly(OrderList(old(orderService.orderManager.rows), None));
        executedOrders == old(executedOrders) + Records(pending, quote)
      ensures var pending := PendingOnly(OrderList(old(orderService.orderManager.rows), None));
        Stores(orderService.orderManager.rows, orderService.portfolios.files) ==
          Pass(Stores(old(orderService.orderManager.rows), old(orderService.portfolios.files)), pending, quote, recheck, now)
      ensures lastCheckTime == Some(now) && running == old(running) && hasThread == old(hasThread)
    {
      CheckPendingOrders(quote, recheck, now);
      lastCheckTime := Some(now);
    }
  }
}
