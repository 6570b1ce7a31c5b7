/** The portfolio model of src/models/portfolio.py: a `Position` object
    whose metrics are filled in from a current price, a `Portfolio` holding
    a list of positions (at most one per ticker when it is built by
    `add_position`) with its totals, and the `PortfolioService` that loads
    a portfolio from a user's portfolio file and writes it back. */
module PortfolioModel {
  import opened Common
  import opened CsvStorage

  /** `(gain / base) * 100 if base else 0`. */
  function Percent(gain: real, base: real): real
  {
    if base != 0.0 then gain / base * 100.0 else 0.0
  }

  class Position {
    const ticker: string
    var shares: real
    const entryPrice: real
    const purchaseDate: Timestamp
    var currentPrice: Option<real>
    var currentValue: Option<real>
    var profitLoss: Option<real>
    var profitLossPercent: Option<real>

    /** A position without metrics; `purchaseDate` is the given date, or
        the clock reading when the caller has none. */
    constructor (ticker: string, shares: real, entryPrice: real, purchaseDate: Timestamp)
      ensures this.ticker == ticker && this.shares == shares && this.entryPrice == entryPrice && this.purchaseDate == purchaseDate
      ensures currentPrice == None && currentValue == None && profitLoss == None && profitLossPercent == None
    {
      this.ticker := ticker;
      this.shares := shares;
      this.entryPrice := entryPrice;
      this.purchaseDate := purchaseDate;
      currentPrice := None;
      currentValue := None;
      profitLoss := None;
      profitLossPercent := None;
    }

    /** The four stored columns of the position. */
    function Row(): PositionRow
      reads this
    {
      PositionRow(ticker, shares, entryPrice, purchaseDate)
    }

    /** Value, profit and percentage at `price`; the percentage is 0 when
        the purchase value is 0. */
    method CalculateMetrics(price: real)
      modifies this
      ensures shares == old(shares)
      ensures currentPrice == Some(price)
      ensures currentValue == Some(shares * price)
      ensures profitLoss == Some(shares * price - shares * entryPrice)
      ensures profitLossPercent == Some(Percent(shares * price - shares * entryPrice, shares * entryPrice))
    {
      var value, purchaseValue := shares * price, shares * entryPrice;
      currentPrice := Some(price);
      currentValue := Some(value);
      profitLoss := Some(value - purchaseValue);
      profitLossPercent := Some(Percent(value - purchaseValue, purchaseValue));
      assert currentValue.value == shares * price && profitLoss.value == shares * price - shares * entryPrice;
    }
  }

  /** The percentage a position reports is the price's return over the
      entry price, whatever the number of shares; a position of no shares
      or with a zero entry price reports 0. */
  lemma PositionReturn(shares: real, entryPrice: real, price: real)
    ensures shares != 0.0 && entryPrice != 0.0 ==>
      Percent(shares * price - shares * entryPrice, shares * entryPrice) == (price - entryPrice) / entryPrice * 100.0
    ensures shares == 0.0 || entryPrice == 0.0 ==> Percent(shares * price - shares * entryPrice, shares * entryPrice) == 0.0
  {
    if shares != 0.0 && entryPrice != 0.0 {
      assert shares * price - shares * entryPrice == shares * (price - entryPrice);
      assert shares * entryPrice != 0.0;
      var g := price - entryPrice;
      assert (shares * g) / (shares * entryPrice) == g / entryPrice;
    }
  }

  function PositionTicker(p: Position): string
  {
    p.ticker
  }

  /** The stored columns of a list of positions. */
  function RowsOf(ps: seq<Position>): (r: seq<PositionRow>)
    reads ps
    ensures |r| == |ps|
  {
    seq(|ps|, i requires 0 <= i < |ps| reads ps => ps[i].Row())
  }

  /** Total current value of the positions that have one. */
  function TotalValue(ps: seq<Position>): real
    reads ps
  {
    if ps == [] then 0.0
    else (if ps[0].currentValue.Some? then ps[0].currentValue.value else 0.0) + TotalValue(ps[1..])
  }

  /** Total purchase value: shares times entry price, summed. */
  function TotalCost(ps: seq<Position>): real
    reads ps
  {
    if ps == [] then 0.0 else ps[0].shares * ps[0].entryPrice + TotalCost(ps[1..])
  }

  /** The profits the positions themselves report. */
  function TotalReported(ps: seq<Position>): real
    reads ps
  {
    if ps == [] then 0.0
    else (if ps[0].profitLoss.Some? then ps[0].profitLoss.value else 0.0) + TotalReported(ps[1..])
  }

  /** A position whose metrics were computed at its current share count. */
  ghost predicate Priced(p: Position)
    reads p
  {
    p.currentValue.Some? && p.profitLoss == Some(p.currentValue.value - p.shares * p.entryPrice)
  }

  /** Once every position is priced, the portfolio's profit (total value
      minus total cost) is the sum of the positions' own profits. */
  lemma {:induction false} PortfolioProfitIsSum(ps: seq<Position>)
    requires forall i :: 0 <= i < |ps| ==> Priced(ps[i])
    ensures TotalValue(ps) - TotalCost(ps) == TotalReported(ps)
  {
    if ps != [] {
      assert forall i :: 0 <= i < |ps[1..]| ==> ps[1..][i] == ps[i + 1];
      PortfolioProfitIsSum(ps[1..]);
    }
  }

  class Portfolio {
    const username: string
    var positions: seq<Position>
    var totalValue: real
    var totalCost: real
    var totalProfitLoss: real
    var totalProfitLossPercent: real

    constructor (username: string)
      ensures this.username == username && positions == []
      ensures totalValue == 0.0 && totalCost == 0.0 && totalProfitLoss == 0.0 && totalProfitLossPercent == 0.0
    {
      this.username := username;
      positions := [];
      totalValue := 0.0;
      totalCost := 0.0;
      totalProfitLoss := 0.0;
      totalProfitLossPercent := 0.0;
    }

    function Rows(): seq<PositionRow>
      reads this, positions
    {
      RowsOf(positions)
    }

    /** Replaces the first position of the same ticker, at its index, or
        appends the position. */
    method AddPosition(position: Position)
      modifies this
      ensures positions == Upsert(old(positions), position, PositionTicker)
      ensures (totalValue, totalCost, totalProfitLoss, totalProfitLossPercent) == old((totalValue, totalCost, totalProfitLoss, totalProfitLossPercent))
    {
      var i := 0;
      while i < |positions|
        invariant 0 <= i <= |positions|
        invariant positions == old(positions)
        invariant forall j :: 0 <= j < i ==> positions[j].ticker != position.ticker
        invariant (totalValue, totalCost, totalProfitLoss, totalProfitLossPercent) == old((totalValue, totalCost, totalProfitLoss, totalProfitLossPercent))
      {
        if positions[i].ticker == position.ticker {
          assert KeyIndex(positions, PositionTicker, position.ticker) == Some(i);
          positions := positions[i := position];
          return;
        }
        i := i + 1;
      }
      assert KeyIndex(positions, PositionTicker, position.ticker) == None;
      positions := positions + [position];
    }

    /** Keeps the positions of other tickers, in order; true when one was
        removed. */
    method RemovePosition(ticker: string) returns (removed: bool)
      modifies this
      ensures positions == Without(old(positions), PositionTicker, ticker)
      ensures removed <==> HasKey(old(positions), PositionTicker, ticker)
      ensures (totalValue, totalCost, totalProfitLoss, totalProfitLossPercent) == old((totalValue, totalCost, totalProfitLoss, totalProfitLossPercent))
    {
      var originalLength := |positions|;
      WithoutEffect(positions, PositionTicker, ticker);
      positions := Without(positions, PositionTicker, ticker);
      removed := |positions| < originalLength;
    }

    /** The totals over the positions; the percentage is 0 when the total
        cost is 0. */
    method CalculateMetrics()
      modifies this
      ensures positions == old(positions)
      ensures totalValue == TotalValue(positions) && totalCost == TotalCost(positions)
      ensures totalProfitLoss == totalValue - totalCost
      ensures totalProfitLossPercent == Percent(totalProfitLoss, totalCost)
    {
      totalValue := TotalValue(positions);
      totalCost := TotalCost(positions);
      totalProfitLoss := totalValue - totalCost;
      totalProfitLossPercent := Percent(totalProfitLoss, totalCost);
    }
  }

  /** Upserting a position upserts its row. */
  lemma RowsOfUpsert(ps: seq<Position>, x: Position)
    ensures RowsOf(Upsert(ps, x, PositionTicker)) == Upsert(RowsOf(ps), x.Row(), RowTicker)
  {
    KeyIndexOfSameKeys(ps, PositionTicker, RowsOf(ps), RowTicker, x.ticker);
  }

  // ---------------------------------------------------------------------
  // Loading a portfolio file

  /** The positions `load_portfolio` builds from the rows of a file: each
      row in turn is upserted by ticker. */
  function Dedup(rows: seq<PositionRow>): seq<PositionRow>
  {
    if rows == [] then [] else Upsert(Dedup(rows[..|rows| - 1]), rows[|rows| - 1], RowTicker)
  }

  /** The index of the last row of the ticker, if any. */
  function LastIndex(rows: seq<PositionRow>, ticker: string): (r: Option<nat>)
    ensures r.Some? ==> r.value < |rows| && rows[r.value].ticker == ticker && forall k :: r.value < k < |rows| ==> rows[k].ticker != ticker
    ensures r.None? <==> !HasKey(rows, RowTicker, ticker)
  {
    if rows == [] then None
    else if rows[|rows| - 1].ticker == ticker then Some(|rows| - 1)
    else
      var r := LastIndex(rows[..|rows| - 1], ticker);
      assert forall k :: 0 <= k < |rows| - 1 ==> rows[..|rows| - 1][k] == rows[k];
      assert RowTicker(rows[|rows| - 1]) != ticker;
      r
  }

  lemma {:induction false} DedupUnique(rows: seq<PositionRow>)
    ensures UniqueKeys(Dedup(rows), RowTicker)
  {
    if rows != [] {
      DedupUnique(rows[..|rows| - 1]);
      UpsertEffect(Dedup(rows[..|rows| - 1]), rows[|rows| - 1], RowTicker);
    }
  }

  lemma HasKeySnoc(front: seq<PositionRow>, x: PositionRow, t: string)
    ensures HasKey(front + [x], RowTicker, t) <==> HasKey(front, RowTicker, t) || t == x.ticker
  {
    var rows := front + [x];
    if HasKey(rows, RowTicker, t) && t != x.ticker {
      var i :| 0 <= i < |rows| && RowTicker(rows[i]) == t;
      assert front[i] == rows[i];
    }
    if HasKey(front, RowTicker, t) {
      var i :| 0 <= i < |front| && RowTicker(front[i]) == t;
      assert rows[i] == front[i];
    }
    assert RowTicker(rows[|front|]) == x.ticker;
  }

  lemma {:induction false} DedupKeys(rows: seq<PositionRow>)
    ensures forall t :: HasKey(Dedup(rows), RowTicker, t) <==> HasKey(rows, RowTicker, t)
    ensures |Dedup(rows)| <= |rows|
  {
    if rows != [] {
      var front, x := rows[..|rows| - 1], rows[|rows| - 1];
      assert rows == front + [x];
      assert Dedup(rows) == Upsert(Dedup(front), x, RowTicker);
      DedupKeys(front);
      UpsertEffect(Dedup(front), x, RowTicker);
      forall t ensures HasKey(rows, RowTicker, t) <==> HasKey(front, RowTicker, t) || t == x.ticker {
        HasKeySnoc(front, x, t);
      }
    }
  }

  /** The last row of a ticker in one more row. */
  lemma LastIndexSnoc(front: seq<PositionRow>, x: PositionRow, t: string)
    ensures LastIndex(front + [x], t) == if t == x.ticker then Some(|front|) else LastIndex(front, t)
  {
    assert (front + [x])[..|front|] == front;
  }

  lemma {:induction false} LastRowWinsAt(rows: seq<PositionRow>, j: nat)
    requires j < |Dedup(rows)|
    ensures var t := Dedup(rows)[j].ticker;
      LastIndex(rows, t).Some? && Dedup(rows)[j] == rows[LastIndex(rows, t).value]
  {
    var front, x := rows[..|rows| - 1], rows[|rows| - 1];
    assert rows == front + [x];
    var e, d := Dedup(front), Dedup(rows);
    assert d == Upsert(e, x, RowTicker);
    UpsertEffect(e, x, RowTicker);
    var t := d[j].ticker;
    LastIndexSnoc(front, x, t);
    if t == x.ticker {
      DedupUnique(rows);
      var m := KeyIndex(d, RowTicker, x.ticker).value;
      assert RowTicker(d[j]) == RowTicker(d[m]);
      assert j == m;
    } else {
      assert j < |e| && d[j] == e[j];
      LastRowWinsAt(front, j);
      assert rows[LastIndex(front, t).value] == front[LastIndex(front, t).value];
    }
  }

  /** In a loaded portfolio each position holds the values of the last
      row of its ticker: later rows overwrite earlier ones. */
  lemma DedupLastRowWins(rows: seq<PositionRow>)
    ensures var d := Dedup(rows);
      forall j :: 0 <= j < |d| ==> LastIndex(rows, d[j].ticker).Some? && d[j] == rows[LastIndex(rows, d[j].ticker).value]
  {
    forall j | 0 <= j < |Dedup(rows)| ensures LastIndex(rows, Dedup(rows)[j].ticker).Some? && Dedup(rows)[j] == rows[LastIndex(rows, Dedup(rows)[j].ticker).value] {
      LastRowWinsAt(rows, j);
    }
  }

  /** A file with one row per ticker loads as exactly its rows. */
  lemma {:induction false} DedupOfUnique(rows: seq<PositionRow>)
    requires UniqueKeys(rows, RowTicker)
    ensures Dedup(rows) == rows
  {
    if rows != [] {
      var front, x := rows[..|rows| - 1], rows[|rows| - 1];
      assert UniqueKeys(front, RowTicker);
      DedupOfUnique(front);
      assert !HasKey(front, RowTicker, x.ticker) by {
        forall i | 0 <= i < |front| ensures RowTicker(front[i]) != x.ticker {
          assert RowTicker(rows[i]) != RowTicker(rows[|rows| - 1]);
        }
      }
      assert front + [x] == rows;
    }
  }

  /** The tickers of the rows of a file, in order. */
  function Tickers(rows: seq<PositionRow>): seq<string>
  {
    seq(|rows|, i requires 0 <= i < |rows| => rows[i].ticker)
  }

  /** `get_tickers` lists a ticker once per row, so it names exactly the
      tickers of the loaded portfolio, and is longer than that portfolio
      whenever the file repeats a ticker. */
  lemma TickersOfLoaded(rows: seq<PositionRow>)
    ensures forall t :: t in Tickers(rows) <==> HasKey(Dedup(rows), RowTicker, t)
    ensures |Dedup(rows)| <= |Tickers(rows)|
  {
    DedupKeys(rows);
    forall t ensures t in Tickers(rows) <==> HasKey(rows, RowTicker, t) {
      if t in Tickers(rows) {
        var i :| 0 <= i < |rows| && Tickers(rows)[i] == t;
        assert RowTicker(rows[i]) == t;
      }
      if HasKey(rows, RowTicker, t) {
        var i :| 0 <= i < |rows| && RowTicker(rows[i]) == t;
        assert Tickers(rows)[i] == t;
      }
    }
  }

  /** No position object occurs twice. */
  ghost predicate DistinctObjects(ps: seq<Position>)
  {
    forall i, j :: 0 <= i < j < |ps| ==> ps[i] != ps[j]
  }

  /** The portfolio operations of one user over the portfolio files. */
  class PortfolioService {
    const username: string
    const manager: PortfolioManager

    constructor (username: string, manager: PortfolioManager)
      ensures this.username == username && this.manager == manager
    {
      this.username := username;
      this.manager := manager;
    }

    /** A new portfolio object whose positions are new objects, one per
        ticker of the file, built by upserting the rows in file order. */
    method LoadPortfolio() returns (p: Portfolio)
      ensures fresh(p) && p.username == username
      ensures p.Rows() == Dedup(manager.Read(username))
      ensures forall i :: 0 <= i < |p.positions| ==> fresh(p.positions[i])
      ensures DistinctObjects(p.positions)
    {
      var rows := manager.Read(username);
      p := new Portfolio(username);
      if rows == [] {
        return;
      }
      var k := 0;
      while k < |rows|
        invariant 0 <= k <= |rows|
        invariant fresh(p) && p.username == username
        invariant p.Rows() == Dedup(rows[..k])
        invariant forall i :: 0 <= i < |p.positions| ==> fresh(p.positions[i])
        invariant DistinctObjects(p.positions)
      {
        assert rows[..k + 1][..k] == rows[..k];
        assert Dedup(rows[..k + 1]) == Upsert(Dedup(rows[..k]), rows[k], RowTicker);
        AddLoadedRow(p, rows[k]);
        k := k + 1;
      }
      assert rows[..k] == rows;
    }

    /** One step of `load_portfolio`: a new position for the row, upserted. */
    static method AddLoadedRow(p: Portfolio, row: PositionRow)
      modifies p
      requires DistinctObjects(p.positions)
      ensures p.Rows() == Upsert(old(p.Rows()), row, RowTicker)
      ensures DistinctObjects(p.positions)
      ensures forall i :: 0 <= i < |p.positions| ==> p.positions[i] in old(p.positions) || fresh(p.positions[i])
    {
      var position := new Position(row.ticker, row.shares, row.entryPrice, row.purchaseDate);
      ghost var before := p.positions;
      p.AddPosition(position);
      RowsOfUpsert(before, position);
      UpsertDistinct(before, position, PositionTicker);
    }

    /** Writes the portfolio's rows as the user's file. */
    method SavePortfolio(p: Portfolio)
      modifies manager
      ensures manager.files == old(manager.files)[username := p.Rows()]
    {
      manager.Write(username, p.Rows());
    }

    method AddPosition(ticker: string, shares: real, entryPrice: real, purchaseDate: Timestamp)
      modifies manager
      ensures manager.files == old(manager.files)[username := PositionAdded(old(manager.Read(username)), ticker, shares, entryPrice, purchaseDate)]
    {
      manager.AddPosition(username, ticker, shares, entryPrice, purchaseDate);
    }

    method RemovePosition(ticker: string) returns (ok: bool)
      modifies manager
      ensures ok <==> HasKey(old(manager.Read(username)), RowTicker, ticker)
      ensures manager.files == if ok then old(manager.files)[username := Without(old(manager.Read(username)), RowTicker, ticker)] else old(manager.files)
    {
      ok := manager.RemovePosition(username, ticker);
    }

    function GetTickers(): seq<string>
      reads manager
    {
      Tickers(manager.Read(username))
    }
  }
}
