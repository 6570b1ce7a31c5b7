/** The older CSV managers of database/csv_manager.py: a users file with no
    uniqueness check, an orders file whose statuses are updated by
    (username, created_at), and a per-user portfolio file of lots that only
    ever grows by appending and shrinks by selling from the first lot of a
    ticker. */
module LegacyCsv {
  import opened Common
  import opened CsvStorage

  // ---------------------------------------------------------------------
  // Users

  /** The first row of the user, as `get_user` returns it. */
  function FirstUser(rows: seq<UserRow>, username: string): (r: Option<UserRow>)
    ensures r.None? <==> !HasUser(rows, username)
    ensures r.Some? ==> exists i :: FirstRowOf(rows, username, i) && rows[i] == r.value
  {
    match FirstHash(rows, username)
    case None => None
    case Some(h) => Some(UserRow(username, h))
  }

  /** Adding a user whose name is taken changes no lookup: `get_user`
      still returns the first row of every name. */
  lemma {:induction false} DuplicateUserShadowed(rows: seq<UserRow>, username: string, passwordHash: string, other: string)
    requires HasUser(rows, username)
    ensures FirstUser(rows + [UserRow(username, passwordHash)], other) == FirstUser(rows, other)
  {
    FirstHashAppend(rows, UserRow(username, passwordHash), other);
  }

  /** A row appended after the first row of a user does not change its
      first hash; for a new user it becomes the first. */
  lemma {:induction false} FirstHashAppend(rows: seq<UserRow>, row: UserRow, other: string)
    ensures FirstHash(rows + [row], other) == if HasUser(rows, other) then FirstHash(rows, other) else if row.username == other then Some(row.passwordHash) else None
  {
    if rows == [] {
      assert [row][1..] == [];
    } else {
      assert (rows + [row])[1..] == rows[1..] + [row];
      FirstHashAppend(rows[1..], row, other);
      assert HasUser(rows, other) <==> rows[0].username == other || HasUser(rows[1..], other) by {
        if HasUser(rows, other) && rows[0].username != other {
          var i :| 0 <= i < |rows| && rows[i].username == other;
          assert rows[1..][i - 1] == rows[i];
        }
        if HasUser(rows[1..], other) {
          var i :| 0 <= i < |rows[1..]| && rows[1..][i].username == other;
          assert rows[i + 1] == rows[1..][i];
        }
      }
    }
  }

  class UserManager {
    var rows: seq<UserRow>

    constructor ()
      ensures rows == []
    {
      rows := [];
    }

    /** Appends the row whether or not the name is taken. */
    method AddUser(username: string, passwordHash: string)
      modifies this
      ensures rows == old(rows) + [UserRow(username, passwordHash)]
    {
      rows := rows + [UserRow(username, passwordHash)];
    }

    function GetUser(username: string): Option<UserRow>
      reads this
    {
      FirstUser(rows, username)
    }

    /** Sets the hash of every row of the user; false when there is none. */
    method UpdatePassword(username: string, passwordHash: string) returns (ok: bool)
      modifies this
      ensures ok <==> HasUser(old(rows), username)
      ensures rows == if ok then WithPassword(old(rows), username, passwordHash) else old(rows)
    {
      if HasUser(rows, username) {
        rows := WithPassword(rows, username, passwordHash);
        return true;
      }
      return false;
    }
  }

  // ---------------------------------------------------------------------
  // Orders

  /** The rows that pass every given filter: the username when it is
      truthy, the status when it is given. */
  function Filtered(rows: seq<OrderRecord>, username: Option<string>, status: Option<Status>): seq<OrderRecord>
  {
    if rows == [] then []
    else
      var keep := (!Given(username) || rows[0].username == username.value) && (status.None? || rows[0].status == status.value);
      (if keep then [rows[0]] else []) + Filtered(rows[1..], username, status)
  }

  /** The filters select exactly the rows meeting each of them, and they
      apply independently: filtering by both is filtering by one and then
      by the other. */
  lemma {:induction false} FilteredEffect(rows: seq<OrderRecord>, username: Option<string>, status: Option<Status>)
    ensures forall r :: r in Filtered(rows, username, status) <==>
      r in rows && (!Given(username) || r.username == username.value) && (status.None? || r.status == status.value)
    ensures Filtered(rows, username, status) == Filtered(Filtered(rows, username, None), None, status)
    ensures !Given(username) && status.None? ==> Filtered(rows, username, status) == rows
  {
    if rows != [] {
      FilteredEffect(rows[1..], username, status);
      assert rows == [rows[0]] + rows[1..];
      assert forall r :: r in rows <==> r == rows[0] || r in rows[1..];
      var byUser := Filtered(rows, username, None);
      var userRest := Filtered(rows[1..], username, None);
      if !Given(username) || rows[0].username == username.value {
        assert byUser == [rows[0]] + userRest;
        assert byUser[1..] == userRest;
      } else {
        assert byUser == userRest;
      }
      FilteredEffect(rows[1..], username, None);
    }
  }

  /** The file after every row of the user with that creation time gets
      the new status, whatever its old one. */
  function SetStatusWhere(rows: seq<OrderRecord>, username: string, createdAt: Timestamp, status: Status): (r: seq<OrderRecord>)
    ensures |r| == |rows|
  {
    seq(|rows|, i requires 0 <= i < |rows| => if rows[i].username == username && rows[i].createdAt == createdAt then rows[i].(status := status) else rows[i])
  }

  /** The status update touches exactly the rows of the user and time and
      changes only their status: every other row is unchanged. */
  lemma SetStatusWhereEffect(rows: seq<OrderRecord>, username: string, createdAt: Timestamp, status: Status)
    ensures var r := SetStatusWhere(rows, username, createdAt, status);
      && (forall i :: 0 <= i < |rows| && rows[i].username == username && rows[i].createdAt == createdAt ==> r[i].status == status && r[i] == rows[i].(status := status))
      && (forall i :: 0 <= i < |rows| && (rows[i].username != username || rows[i].createdAt != createdAt) ==> r[i] == rows[i])
      && (forall i :: (0 <= i < |rows| && rows[i].username == username && rows[i].createdAt == createdAt) ==> (r[i] == rows[i] <==> rows[i].status == status))
  {
  }

  class OrderManager {
    var rows: seq<OrderRecord>

    constructor ()
      ensures rows == []
    {
      rows := [];
    }

    /** Appends a pending order created at the clock reading `now`. */
    method AddOrder(username: string, ticker: string, side: Side, price: real, quantity: real, now: Timestamp) returns (ok: bool)
      modifies this
      ensures ok
      ensures rows == old(rows) + [OrderRecord(username, ticker, side, price, quantity, now, Pending)]
    {
      rows := rows + [OrderRecord(username, ticker, side, price, quantity, now, Pending)];
      return true;
    }

    function GetOrders(username: Option<string>, status: Option<Status>): seq<OrderRecord>
      reads this
    {
      Filtered(rows, username, status)
    }

    /** Sets the status of every row of the user with that creation time;
        always true. */
    method UpdateOrderStatus(username: string, createdAt: Timestamp, status: Status) returns (ok: bool)
      modifies this
      ensures ok
      ensures rows == SetStatusWhere(old(rows), username, createdAt, status)
    {
      rows := SetStatusWhere(rows, username, createdAt, status);
      return true;
    }
  }

  // ---------------------------------------------------------------------
  // Portfolio lots (columns Ticker, Anteile, Einstiegspreis, Kaufdatum)

  /** The total shares of the ticker over all its lots. */
  function TickerShares(rows: seq<PositionRow>, ticker: string): real
  {
    if rows == [] then 0.0 else (if rows[0].ticker == ticker then rows[0].shares else 0.0) + TickerShares(rows[1..], ticker)
  }

  lemma {:induction false} TickerSharesAppend(a: seq<PositionRow>, b: seq<PositionRow>, ticker: string)
    ensures TickerShares(a + b, ticker) == TickerShares(a, ticker) + TickerShares(b, ticker)
  {
    if a == [] {
      assert a + b == b;
    } else {
      assert (a + b)[1..] == a[1..] + b;
      TickerSharesAppend(a[1..], b, ticker);
    }
  }

  /** Selling `quantity` from the first lot of the ticker: the lot is
      reduced when it holds more, and dropped otherwise; none when the
      ticker has no lot. */
  function FirstLotSold(rows: seq<PositionRow>, ticker: string, quantity: real): (r: Option<seq<PositionRow>>)
    ensures r.None? <==> !HasKey(rows, RowTicker, ticker)
    ensures r.Some? ==> |r.value| <= |rows|
  {
    match KeyIndex(rows, RowTicker, ticker)
    case None => None
    case Some(i) =>
      if rows[i].shares > quantity then Some(rows[i := rows[i].(shares := rows[i].shares - quantity)])
      else Some(rows[..i] + rows[i + 1..])
  }

  /** A sale from the first lot fails exactly when the ticker has no lot.
      Otherwise the ticker's holding drops by the quantity, or by the whole
      first lot when that is not larger; other tickers' lots stay as they
      were, in order. */
  lemma FirstLotSoldEffect(rows: seq<PositionRow>, ticker: string, quantity: real, other: string)
    ensures FirstLotSold(rows, ticker, quantity).None? <==> !HasKey(rows, RowTicker, ticker)
    ensures FirstLotSold(rows, ticker, quantity).Some? ==>
      var i := KeyIndex(rows, RowTicker, ticker).value;
      var r := FirstLotSold(rows, ticker, quantity).value;
      && TickerShares(r, ticker) == TickerShares(rows, ticker) - (if rows[i].shares > quantity then quantity else rows[i].shares)
      && (other != ticker ==> TickerShares(r, other) == TickerShares(rows, other))
      && Without(r, RowTicker, ticker) == Without(rows, RowTicker, ticker)
  {
    if HasKey(rows, RowTicker, ticker) {
      var i := KeyIndex(rows, RowTicker, ticker).value;
      var r := FirstLotSold(rows, ticker, quantity).value;
      var front, lot, back := rows[..i], rows[i], rows[i + 1..];
      assert rows == front + [lot] + back;
      var newLot := if lot.shares > quantity then [lot.(shares := lot.shares - quantity)] else [];
      assert r == front + newLot + back;
      forall t ensures TickerShares(rows, t) == TickerShares(front, t) + TickerShares([lot], t) + TickerShares(back, t)
        && TickerShares(r, t) == TickerShares(front, t) + TickerShares(newLot, t) + TickerShares(back, t)
      {
        TickerSharesAppend(front + [lot], back, t);
        TickerSharesAppend(front, [lot], t);
        TickerSharesAppend(front + newLot, back, t);
        TickerSharesAppend(front, newLot, t);
      }
      assert TickerShares([lot], ticker) == lot.shares by {
        assert [lot][1..] == [];
      }
      if lot.shares > quantity {
        assert newLot[1..] == [];
      }
      WithoutAppend(front + [lot], back, RowTicker, ticker);
      WithoutAppend(front, [lot], RowTicker, ticker);
      WithoutAppend(front + newLot, back, RowTicker, ticker);
      WithoutAppend(front, newLot, RowTicker, ticker);
      assert Without([lot], RowTicker, ticker) == [] by {
        assert [lot][1..] == [];
      }
      if lot.shares > quantity {
        assert Without(newLot, RowTicker, ticker) == [] by {
          assert newLot[1..] == [];
        }
      }
    }
  }

  /** The portfolio file of one user. */
  class PortfolioManager {
    const username: string
    var rows: seq<PositionRow>

    constructor (username: string)
      ensures this.username == username && rows == []
    {
      this.username := username;
      rows := [];
    }

    /** Appends a new lot, even for a ticker already held; always true. */
    method AddPosition(ticker: string, shares: real, price: real, purchaseDate: Timestamp) returns (ok: bool)
      modifies this
      ensures ok
      ensures rows == old(rows) + [PositionRow(ticker, shares, price, purchaseDate)]
    {
      rows := rows + [PositionRow(ticker, shares, price, purchaseDate)];
      return true;
    }

    /** Sells from the first lot of the ticker; false, with nothing
        written, when the ticker has no lot. */
    method RemoveShares(ticker: string, shares: real) returns (ok: bool)
      modifies this
      ensures ok <==> HasKey(old(rows), RowTicker, ticker)
      ensures rows == if ok then FirstLotSold(old(rows), ticker, shares).value else old(rows)
    {
      match KeyIndex(rows, RowTicker, ticker)
      case None =>
        return false;
      case Some(idx) =>
        if rows[idx].shares > shares {
          rows := rows[idx := rows[idx].(shares := rows[idx].shares - shares)];
        } else {
          rows := rows[..idx] + rows[idx + 1..];
        }
        return true;
    }
  }
}
