/** The SQL storage backend of src/database/db_manager.py: a `users` table
    with unique usernames, a `portfolios` table with one row per
    (username, ticker), and an `orders` table whose ids are handed out by
    AUTOINCREMENT. Rows are listed in insertion order. */
module DbStorage {
  import opened Common
  import opened CsvStorage
  import opened PortfolioModel

  // ---------------------------------------------------------------------
  // users (username UNIQUE)

  function UserKey(r: UserRow): string
  {
    r.username
  }

  /** With unique usernames, a user validates exactly with the hash of its
      one row, and an unknown user never validates. */
  lemma ValidatesUnique(rows: seq<UserRow>, i: nat, attempt: string, other: string)
    requires UniqueKeys(rows, UserKey) && i < |rows|
    ensures Validates(rows, rows[i].username, attempt) <==> rows[i].passwordHash == attempt
    ensures !HasUser(rows, other) ==> !Validates(rows, other, attempt)
  {
    var u := rows[i].username;
    assert HasUser(rows, u);
    var h := FirstHash(rows, u);
    var j :| FirstRowOf(rows, u, j) && rows[j].passwordHash == h.value;
    assert j == i by {
      assert UserKey(rows[i]) == UserKey(rows[j]);
    }
  }

  class UserDatabaseManager {
    var rows: seq<UserRow>

    /** The UNIQUE constraint on `username`. */
    ghost predicate Valid()
      reads this
    {
      UniqueKeys(rows, UserKey)
    }

    constructor ()
      ensures rows == [] && Valid()
    {
      rows := [];
    }

    predicate UserExists(username: string)
      reads this
    {
      HasUser(rows, username)
    }

    /** Inserts one row unless the username is taken. */
    method AddUser(username: string, passwordHash: string) returns (ok: bool)
      requires Valid()
      modifies this
      ensures Valid()
      ensures ok <==> !old(UserExists(username))
      ensures rows == if ok then old(rows) + [UserRow(username, passwordHash)] else old(rows)
    {
      if UserExists(username) {
        return false;
      }
      assert forall i :: 0 <= i < |rows| ==> UserKey(rows[i]) != username;
      rows := rows + [UserRow(username, passwordHash)];
      return true;
    }

    /** The stored hash of the user's row is the given one. */
    predicate ValidateUser(username: string, passwordHash: string)
      reads this
      ensures ValidateUser(username, passwordHash) <==> exists i :: FirstRowOf(rows, username, i) && rows[i].passwordHash == passwordHash
    {
      FirstRowUnique(rows, username);
      Validates(rows, username, passwordHash)
    }

    /** Sets the user's hash; false when the user is absent. */
    method UpdatePassword(username: string, newPasswordHash: string) returns (ok: bool)
      requires Valid()
      modifies this
      ensures Valid()
      ensures ok <==> old(UserExists(username))
      ensures rows == if ok then WithPassword(old(rows), username, newPasswordHash) else old(rows)
    {
      if !UserExists(username) {
        return false;
      }
      var updated := WithPassword(rows, username, newPasswordHash);
      assert forall i :: 0 <= i < |rows| ==> UserKey(updated[i]) == UserKey(rows[i]);
      rows := updated;
      return true;
    }
  }

  // ---------------------------------------------------------------------
  // portfolios (UNIQUE (username, ticker))

  /** On rows with one row per ticker, overwriting the ticker's rows or
      appending is the upsert of the new row. */
  lemma PositionAddedIsUpsert(rows: seq<PositionRow>, ticker: string, shares: real, entryPrice: real, purchaseDate: Timestamp)
    requires UniqueKeys(rows, RowTicker)
    ensures PositionAdded(rows, ticker, shares, entryPrice, purchaseDate) == Upsert(rows, PositionRow(ticker, shares, entryPrice, purchaseDate), RowTicker)
  {
    var x := PositionRow(ticker, shares, entryPrice, purchaseDate);
    if HasKey(rows, RowTicker, ticker) {
      var i := KeyIndex(rows, RowTicker, ticker).value;
      var o := Overwritten(rows, ticker, shares, entryPrice, purchaseDate);
      forall j | 0 <= j < |rows| ensures o[j] == rows[i := x][j] {
        if j != i {
          assert RowTicker(rows[j]) != RowTicker(rows[i]);
        }
      }
    }
  }

  /** The positions of every user, by username, each user's in insertion
      order (other users' rows never interleave in a user's result). */
  class PortfolioTable {
    var positions: map<string, seq<PositionRow>>

    /** The UNIQUE (username, ticker) constraint. */
    ghost predicate Valid()
      reads this
    {
      forall u :: u in positions ==> UniqueKeys(positions[u], RowTicker)
    }

    constructor ()
      ensures positions == map[] && Valid()
    {
      positions := map[];
    }
  }

  class PortfolioDatabaseManager {
    const username: string
    const table: PortfolioTable

    constructor (username: string, table: PortfolioTable)
      ensures this.username == username && this.table == table
    {
      this.username := username;
      this.table := table;
    }

    /** The user's positions. */
    function Read(): seq<PositionRow>
      reads table
    {
      FileRows(table.positions, username)
    }

    /** Updates the user's row of the ticker or inserts one: the upsert of
        the new row keyed by ticker. */
    method AddPosition(ticker: string, shares: real, entryPrice: real, purchaseDate: Timestamp)
      requires table.Valid()
      modifies table
      ensures table.Valid()
      ensures table.positions == old(table.positions)[username := Upsert(old(Read()), PositionRow(ticker, shares, entryPrice, purchaseDate), RowTicker)]
    {
      var rows := Read();
      assert UniqueKeys(rows, RowTicker);
      PositionAddedIsUpsert(rows, ticker, shares, entryPrice, purchaseDate);
      UpsertEffect(rows, PositionRow(ticker, shares, entryPrice, purchaseDate), RowTicker);
      if HasKey(rows, RowTicker, ticker) {
        table.positions := table.positions[username := Overwritten(rows, ticker, shares, entryPrice, purchaseDate)];
      } else {
        table.positions := table.positions[username := rows + [PositionRow(ticker, shares, entryPrice, purchaseDate)]];
      }
    }

    /** Deletes the user's rows of the ticker; true when one was deleted. */
    method RemovePosition(ticker: string) returns (removed: bool)
      requires table.Valid()
      modifies table
      ensures table.Valid()
      ensures removed <==> HasKey(old(Read()), RowTicker, ticker)
      ensures table.positions == if removed then old(table.positions)[username := Without(old(Read()), RowTicker, ticker)] else old(table.positions)
    {
      var rows := Read();
      var kept := Without(rows, RowTicker, ticker);
      WithoutEffect(rows, RowTicker, ticker);
      removed := |kept| < |rows|;
      if removed {
        assert UniqueKeys(kept, RowTicker) by {
          WithoutUnique(rows, ticker);
        }
        table.positions := table.positions[username := kept];
      }
    }

    /** Writing a non-empty frame deletes the user's rows and adds each
        frame row in turn, so the user ends with the frame's tickers once
        each, in first-seen order, with each ticker's last row; an empty
        frame writes nothing. */
    method Write(frame: seq<PositionRow>)
      requires table.Valid()
      modifies table
      ensures table.Valid()
      ensures table.positions == if frame == [] then old(table.positions) else old(table.positions)[username := Dedup(frame)]
    {
      if frame == [] {
        return;
      }
      table.positions := table.positions[username := []];
      var k := 0;
      while k < |frame|
        invariant 0 <= k <= |frame|
        invariant table.Valid()
        invariant table.positions == old(table.positions)[username := Dedup(frame[..k])]
      {
        assert frame[..k + 1][..k] == frame[..k] && frame[..k + 1][k] == frame[k];
        AddPosition(frame[k].ticker, frame[k].shares, frame[k].entryPrice, frame[k].purchaseDate);
        k := k + 1;
      }
      assert frame[..k] == frame;
    }
  }

  lemma UniqueTail(rows: seq<PositionRow>)
    requires rows != [] && UniqueKeys(rows, RowTicker)
    ensures UniqueKeys(rows[1..], RowTicker)
  {
    forall i, j | 0 <= i < j < |rows[1..]| ensures RowTicker(rows[1..][i]) != RowTicker(rows[1..][j]) {
      assert rows[1..][i] == rows[i + 1] && rows[1..][j] == rows[j + 1];
    }
  }

  lemma UniqueCons(x: PositionRow, t: seq<PositionRow>)
    requires UniqueKeys(t, RowTicker)
    requires forall y :: y in t ==> RowTicker(y) != RowTicker(x)
    ensures UniqueKeys([x] + t, RowTicker)
  {
    var r := [x] + t;
    forall i, j | 0 <= i < j < |r| ensures RowTicker(r[i]) != RowTicker(r[j]) {
      assert r[j] == t[j - 1];
      if i > 0 {
        assert r[i] == t[i - 1];
      }
    }
  }

  /** Removal keeps the keys unique. */
  lemma {:induction false} WithoutUnique(rows: seq<PositionRow>, ticker: string)
    requires UniqueKeys(rows, RowTicker)
    ensures UniqueKeys(Without(rows, RowTicker, ticker), RowTicker)
  {
    if rows != [] {
      var t := Without(rows[1..], RowTicker, ticker);
      UniqueTail(rows);
      WithoutUnique(rows[1..], ticker);
      WithoutEffect(rows[1..], RowTicker, ticker);
      if RowTicker(rows[0]) != ticker {
        assert Without(rows, RowTicker, ticker) == [rows[0]] + t;
        forall y | y in t ensures RowTicker(y) != RowTicker(rows[0]) {
          var m :| 0 <= m < |rows[1..]| && rows[1..][m] == y;
          assert rows[m + 1] == y;
        }
        UniqueCons(rows[0], t);
      }
    }
  }

  // ---------------------------------------------------------------------
  // orders (id INTEGER PRIMARY KEY AUTOINCREMENT)

  /** A row of the orders table: its id and its columns. */
  datatype OrderEntry = OrderEntry(id: nat, record: OrderRecord)

  function EntryUser(e: OrderEntry): string
  {
    e.record.username
  }

  /** The columns `read` returns, without the ids. */
  function RecordsOf(rows: seq<OrderEntry>): (r: seq<OrderRecord>)
    ensures |r| == |rows| && forall i :: 0 <= i < |rows| ==> r[i] == rows[i].record
  {
    seq(|rows|, i requires 0 <= i < |rows| => rows[i].record)
  }

  /** `get_orders`: the rows of the user when a username is given, all
      rows otherwise. */
  function Query(rows: seq<OrderEntry>, username: Option<string>): seq<OrderEntry>
  {
    if Given(username) then WithKey(rows, EntryUser, username.value) else rows
  }

  lemma QueryEffect(rows: seq<OrderEntry>, username: Option<string>)
    ensures forall e :: e in Query(rows, username) <==> e in rows && (Given(username) ==> e.record.username == username.value)
    ensures |Query(rows, username)| <= |rows|
    ensures !Given(username) ==> Query(rows, username) == rows
  {
    if Given(username) {
      WithKeyMembers(rows, EntryUser, username.value);
    }
  }

  /** `UPDATE orders SET status = ? WHERE id = ?`. */
  function SetStatus(rows: seq<OrderEntry>, id: int, status: Status): (r: seq<OrderEntry>)
    ensures |r| == |rows|
  {
    seq(|rows|, i requires 0 <= i < |rows| => if rows[i].id == id then rows[i].(record := rows[i].record.(status := status)) else rows[i])
  }

  ghost predicate HasId(rows: seq<OrderEntry>, id: int)
  {
    exists i :: 0 <= i < |rows| && rows[i].id == id
  }

  /** Ids strictly increase along the table, so each id picks one row. */
  ghost predicate IncreasingIds(rows: seq<OrderEntry>)
  {
    forall i, j :: 0 <= i < j < |rows| ==> rows[i].id < rows[j].id
  }

  /** The update by id changes the status of the one row with that id,
      whatever its old status, and nothing else; an unknown id changes
      nothing. */
  lemma SetStatusEffect(rows: seq<OrderEntry>, i: nat, status: Status, other: int)
    requires IncreasingIds(rows) && i < |rows|
    ensures SetStatus(rows, rows[i].id, status) == rows[i := rows[i].(record := rows[i].record.(status := status))]
    ensures !HasId(rows, other) ==> SetStatus(rows, other, status) == rows
  {
    var r := SetStatus(rows, rows[i].id, status);
    forall j | 0 <= j < |rows| ensures r[j] == rows[i := rows[i].(record := rows[i].record.(status := status))][j] {
      if j < i {
        assert rows[j].id < rows[i].id;
      } else if j > i {
        assert rows[i].id < rows[j].id;
      }
    }
  }

  /** The rows `write` inserts for a frame: every frame row again, under
      fresh ids from `firstId`, created at the clock reading `now` and
      pending, whatever it was. */
  function Reinserted(frame: seq<OrderRecord>, firstId: nat, now: Timestamp): (r: seq<OrderEntry>)
    ensures |r| == |frame|
  {
    seq(|frame|, i requires 0 <= i < |frame| => OrderEntry(firstId + i, frame[i].(createdAt := now, status := Pending)))
  }

  /** The rows a status-keeping write would insert: every frame row as it
      is, under fresh ids from `firstId`. */
  function Restored(frame: seq<OrderRecord>, firstId: nat): (r: seq<OrderEntry>)
    ensures |r| == |frame|
  {
    seq(|frame|, i requires 0 <= i < |frame| => OrderEntry(firstId + i, frame[i]))
  }

  /** Writing a frame back loses its statuses and creation times: a frame
      holding an executed or cancelled order does not read back as
      written, and every row reads back pending. */
  lemma WriteLosesStatuses(frame: seq<OrderRecord>, firstId: nat, now: Timestamp, i: nat)
    requires i < |frame| && frame[i].status != Pending
    ensures RecordsOf(Reinserted(frame, firstId, now)) != frame
    ensures forall j :: 0 <= j < |frame| ==> RecordsOf(Reinserted(frame, firstId, now))[j].status == Pending
  {
    assert RecordsOf(Reinserted(frame, firstId, now))[i].status == Pending;
  }

  /** The status-keeping write reads back exactly the frame written, with
      increasing ids. */
  lemma RestoredRoundTrip(frame: seq<OrderRecord>, firstId: nat)
    ensures RecordsOf(Restored(frame, firstId)) == frame
    ensures IncreasingIds(Restored(frame, firstId))
  {
  }

  class OrderDatabaseManager {
    var rows: seq<OrderEntry>
    /** The next id AUTOINCREMENT hands out; ids are never reused. */
    var nextId: nat

    ghost predicate Valid()
      reads this
    {
      IncreasingIds(rows) && forall i :: 0 <= i < |rows| ==> rows[i].id < nextId
    }

    constructor ()
      ensures rows == [] && nextId == 1 && Valid()
    {
      rows := [];
      nextId := 1;
    }

    /** `read`: the columns of every row. */
    function Read(): seq<OrderRecord>
      reads this
    {
      RecordsOf(rows)
    }

    /** Inserts one pending order created at the clock reading `now`. */
    method AddOrder(username: string, ticker: string, side: Side, price: real, quantity: real, now: Timestamp)
      requires Valid()
      modifies this
      ensures Valid()
      ensures rows == old(rows) + [OrderEntry(old(nextId), OrderRecord(username, ticker, side, price, quantity, now, Pending))]
      ensures nextId == old(nextId) + 1
    {
      rows := rows + [OrderEntry(nextId, OrderRecord(username, ticker, side, price, quantity, now, Pending))];
      nextId := nextId + 1;
    }

    function GetOrders(username: Option<string>): seq<OrderEntry>
      reads this
    {
      Query(rows, username)
    }

    /** Sets the status of the row with that id, with no check of its old
        status; true when the row exists. */
    method UpdateOrderStatus(id: int, status: Status) returns (ok: bool)
      requires Valid()
      modifies this
      ensures Valid() && nextId == old(nextId)
      ensures ok <==> HasId(old(rows), id)
      ensures rows == SetStatus(old(rows), id, status)
    {
      ok := exists i :: 0 <= i < |rows| && rows[i].id == id;
      var updated := SetStatus(rows, id, status);
      assert forall i :: 0 <= i < |rows| ==> updated[i].id == rows[i].id;
      rows := updated;
    }

    /** Writing a non-empty frame deletes every row and adds each frame row
        again through `add_order`; an empty frame writes nothing. */
    method Write(frame: seq<OrderRecord>, now: Timestamp)
      requires Valid()
      modifies this
      ensures Valid()
      ensures frame == [] ==> rows == old(rows) && nextId == old(nextId)
      ensures frame != [] ==> rows == Reinserted(frame, old(nextId), now) && nextId == old(nextId) + |frame|
    {
      if frame == [] {
        return;
      }
      rows := [];
      var k := 0;
      while k < |frame|
        invariant 0 <= k <= |frame|
        invariant Valid()
        invariant nextId == old(nextId) + k
        invariant rows == Reinserted(frame[..k], old(nextId), now)
      {
        var r := frame[k];
        AddOrder(r.username, r.ticker, r.side, r.price, r.quantity, now);
        k := k + 1;
      }
      assert frame[..k] == frame;
    }

    /** Inserts one row with its own creation time and status. */
    method InsertRow(record: OrderRecord)
      requires Valid()
      modifies this
      ensures Valid()
      ensures rows == old(rows) + [OrderEntry(old(nextId), record)] && nextId == old(nextId) + 1
    {
      rows := rows + [OrderEntry(nextId, record)];
      nextId := nextId + 1;
    }

    /** The status-keeping write: a non-empty frame replaces the rows and
        reads back exactly as written; an empty frame writes nothing. */
    method WriteRows(frame: seq<OrderRecord>)
      requires Valid()
      modifies this
      ensures Valid()
      ensures frame == [] ==> rows == old(rows) && nextId == old(nextId)
      ensures frame != [] ==> rows == Restored(frame, old(nextId)) && Read() == frame && nextId == old(nextId) + |frame|
    {
      if frame == [] {
        return;
      }
      rows := [];
      var k := 0;
      while k < |frame|
        invariant 0 <= k <= |frame|
        invariant Valid()
        invariant nextId == old(nextId) + k
        invariant rows == Restored(frame[..k], old(nextId))
      {
        InsertRow(frame[k]);
        k := k + 1;
      }
      assert frame[..k] == frame;
      RestoredRoundTrip(frame, old(nextId));
    }
  }
}
