/** The CSV storage backend of src/database/csv_manager.py: a users file,
    one portfolio file per user and one orders file. Every method reads the
    file into a frame, changes the frame and writes it back; a file's
    contents are modelled as a sequence of rows, and a frame read from a
    file is labelled 0, 1, 2, ... in file order. */
module CsvStorage {
  import opened Common

  // ---------------------------------------------------------------------
  // Users file (columns username, password_hash)

  datatype UserRow = UserRow(username: string, passwordHash: string)

  predicate HasUser(rows: seq<UserRow>, username: string)
  {
    exists i :: 0 <= i < |rows| && rows[i].username == username
  }

  /** Row `i` is the first row of `username`. */
  ghost predicate FirstRowOf(rows: seq<UserRow>, username: string, i: int)
  {
    0 <= i < |rows| && rows[i].username == username && forall k :: 0 <= k < i ==> rows[k].username != username
  }

  /** The password hash of the first row of `username`. */
  function FirstHash(rows: seq<UserRow>, username: string): (r: Option<string>)
    ensures r.None? <==> !HasUser(rows, username)
    ensures r.Some? ==> exists i :: FirstRowOf(rows, username, i) && rows[i].passwordHash == r.value
  {
    if rows == [] then None
    else if rows[0].username == username then
      assert FirstRowOf(rows, username, 0);
      Some(rows[0].passwordHash)
    else
      var r := FirstHash(rows[1..], username);
      assert HasUser(rows, username) ==> HasUser(rows[1..], username) by {
        if HasUser(rows, username) {
          var i :| 0 <= i < |rows| && rows[i].username == username;
          assert rows[1..][i - 1] == rows[i];
        }
      }
      assert r.Some? ==> exists i :: FirstRowOf(rows, username, i) && rows[i].passwordHash == r.value by {
        if r.Some? {
          var i :| FirstRowOf(rows[1..], username, i) && rows[1..][i].passwordHash == r.value;
          assert rows[i + 1] == rows[1..][i];
          forall k | 0 <= k < i + 1 ensures rows[k].username != username {
            if k > 0 {
              assert rows[k] == rows[1..][k - 1];
            }
          }
          assert FirstRowOf(rows, username, i + 1);
        }
      }
      r
  }

  /** A user has at most one first row. */
  lemma FirstRowUnique(rows: seq<UserRow>, username: string)
    ensures forall i, j :: FirstRowOf(rows, username, i) && FirstRowOf(rows, username, j) ==> i == j
  {
  }

  /** `validate_user`: the user exists and the first row's hash is the
      given one. */
  predicate Validates(rows: seq<UserRow>, username: string, passwordHash: string)
  {
    FirstHash(rows, username) == Some(passwordHash)
  }

  /** The users file after every row of `username` gets the new hash. */
  function WithPassword(rows: seq<UserRow>, username: string, passwordHash: string): seq<UserRow>
  {
    seq(|rows|, i requires 0 <= i < |rows| => if rows[i].username == username then rows[i].(passwordHash := passwordHash) else rows[i])
  }

  /** A user just added validates with exactly the hash it was added with. */
  lemma AddedUserValidates(rows: seq<UserRow>, username: string, passwordHash: string, attempt: string)
    requires !HasUser(rows, username)
    ensures Validates(rows + [UserRow(username, passwordHash)], username, attempt) <==> attempt == passwordHash
  {
    var r := rows + [UserRow(username, passwordHash)];
    assert r[|rows|].username == username;
    assert forall k :: 0 <= k < |rows| ==> r[k].username != username;
  }

  lemma {:induction false} FirstHashAfterChange(rows: seq<UserRow>, username: string, passwordHash: string, other: string)
    ensures FirstHash(WithPassword(rows, username, passwordHash), other) ==
      if other == username && HasUser(rows, username) then Some(passwordHash) else FirstHash(rows, other)
  {
    if rows != [] {
      var r := WithPassword(rows, username, passwordHash);
      assert r[1..] == WithPassword(rows[1..], username, passwordHash);
      FirstHashAfterChange(rows[1..], username, passwordHash, other);
      assert HasUser(rows, username) <==> rows[0].username == username || HasUser(rows[1..], username) by {
        if HasUser(rows, username) && rows[0].username != username {
          var i :| 0 <= i < |rows| && rows[i].username == username;
          assert rows[1..][i - 1] == rows[i];
        }
        if HasUser(rows[1..], username) {
          var i :| 0 <= i < |rows[1..]| && rows[1..][i].username == username;
          assert rows[i + 1] == rows[1..][i];
        }
      }
    }
  }

  /** After a password change the user validates with exactly the new
      hash, and every other user validates as before. */
  lemma PasswordChangeValidates(rows: seq<UserRow>, username: string, passwordHash: string, other: string, attempt: string)
    ensures Validates(WithPassword(rows, username, passwordHash), username, attempt) <==> HasUser(rows, username) && attempt == passwordHash
    ensures other != username ==> (Validates(WithPassword(rows, username, passwordHash), other, attempt) <==> Validates(rows, other, attempt))
  {
    FirstHashAfterChange(rows, username, passwordHash, username);
    FirstHashAfterChange(rows, username, passwordHash, other);
  }

  class UserManager {
    var rows: seq<UserRow>

    /** A new, empty users file. */
    constructor ()
      ensures rows == []
    {
      rows := [];
    }

    predicate UserExists(username: string)
      reads this
    {
      HasUser(rows, username)
    }

    /** Appends one row unless the username is taken. */
    method AddUser(username: string, passwordHash: string) returns (ok: bool)
      modifies this
      ensures ok <==> !old(UserExists(username))
      ensures rows == if ok then old(rows) + [UserRow(username, passwordHash)] else old(rows)
    {
      if UserExists(username) {
        return false;
      }
      rows := rows + [UserRow(username, passwordHash)];
      return true;
    }

    predicate ValidateUser(username: string, passwordHash: string)
      reads this
      ensures ValidateUser(username, passwordHash) <==> exists i :: FirstRowOf(rows, username, i) && rows[i].passwordHash == passwordHash
    {
      FirstRowUnique(rows, username);
      UserExists(username) && Validates(rows, username, passwordHash)
    }

    /** Sets the hash of every row of the user; false when there is none. */
    method UpdatePassword(username: string, newPasswordHash: string) returns (ok: bool)
      modifies this
      ensures ok <==> old(UserExists(username))
      ensures rows == if ok then WithPassword(old(rows), username, newPasswordHash) else old(rows)
    {
      if UserExists(username) {
        rows := WithPassword(rows, username, newPasswordHash);
        return true;
      }
      return false;
    }
  }

  // ---------------------------------------------------------------------
  // Portfolio files (columns Ticker, Anteile, Einstiegspreis, Kaufdatum)

  function RowTicker(r: PositionRow): string
  {
    r.ticker
  }

  /** Every row of the ticker gets the given shares, entry price and date. */
  function Overwritten(rows: seq<PositionRow>, ticker: string, shares: real, entryPrice: real, purchaseDate: Timestamp): seq<PositionRow>
  {
    seq(|rows|, i requires 0 <= i < |rows| => if rows[i].ticker == ticker then PositionRow(ticker, shares, entryPrice, purchaseDate) else rows[i])
  }

  /** `PortfolioManager.add_position`: overwrite the ticker's rows, or
      append one row for a new ticker. */
  function PositionAdded(rows: seq<PositionRow>, ticker: string, shares: real, entryPrice: real, purchaseDate: Timestamp): seq<PositionRow>
  {
    if HasKey(rows, RowTicker, ticker) then Overwritten(rows, ticker, shares, entryPrice, purchaseDate)
    else rows + [PositionRow(ticker, shares, entryPrice, purchaseDate)]
  }

  lemma {:induction false} WithoutOverwritten(rows: seq<PositionRow>, ticker: string, shares: real, entryPrice: real, purchaseDate: Timestamp)
    ensures Without(Overwritten(rows, ticker, shares, entryPrice, purchaseDate), RowTicker, ticker) == Without(rows, RowTicker, ticker)
  {
    if rows != [] {
      var r := Overwritten(rows, ticker, shares, entryPrice, purchaseDate);
      assert r[1..] == Overwritten(rows[1..], ticker, shares, entryPrice, purchaseDate);
      WithoutOverwritten(rows[1..], ticker, shares, entryPrice, purchaseDate);
    }
  }

  /** Adding a position stores the given values, not a sum: afterwards
      every row of the ticker holds exactly the new shares, entry price and
      date; the ticker has one row when it was new; and the rows of the
      other tickers are the same rows in the same order. */
  lemma PositionAddedEffect(rows: seq<PositionRow>, ticker: string, shares: real, entryPrice: real, purchaseDate: Timestamp)
    ensures var r := PositionAdded(rows, ticker, shares, entryPrice, purchaseDate);
      && HasKey(r, RowTicker, ticker)
      && (forall i :: 0 <= i < |r| && r[i].ticker == ticker ==> r[i] == PositionRow(ticker, shares, entryPrice, purchaseDate))
      && Without(r, RowTicker, ticker) == Without(rows, RowTicker, ticker)
      && |r| == if HasKey(rows, RowTicker, ticker) then |rows| else |rows| + 1
  {
    var r := PositionAdded(rows, ticker, shares, entryPrice, purchaseDate);
    if HasKey(rows, RowTicker, ticker) {
      var j :| 0 <= j < |rows| && RowTicker(rows[j]) == ticker;
      assert RowTicker(r[j]) == ticker;
      WithoutOverwritten(rows, ticker, shares, entryPrice, purchaseDate);
    } else {
      assert RowTicker(r[|rows|]) == ticker;
      forall i | 0 <= i < |rows| ensures rows[i].ticker != ticker {
        assert RowTicker(rows[i]) != ticker;
      }
      WithoutAppend(rows, [PositionRow(ticker, shares, entryPrice, purchaseDate)], RowTicker, ticker);
      WithoutEffect(rows, RowTicker, ticker);
    }
  }

  /** The rows of a user's portfolio file. A manager creates its user's
      file empty when it is missing, so a missing file reads as an empty
      portfolio. */
  function FileRows(files: map<string, seq<PositionRow>>, username: string): seq<PositionRow>
  {
    if username in files then files[username] else []
  }

  /** The portfolio files of all users, by username. */
  class PortfolioManager {
    var files: map<string, seq<PositionRow>>

    constructor ()
      ensures files == map[]
    {
      files := map[];
    }

    function Read(username: string): seq<PositionRow>
      reads this
    {
      FileRows(files, username)
    }

    method Write(username: string, rows: seq<PositionRow>)
      modifies this
      ensures files == old(files)[username := rows]
    {
      files := files[username := rows];
    }

    method AddPosition(username: string, ticker: string, shares: real, entryPrice: real, purchaseDate: Timestamp)
      modifies this
      ensures files == old(files)[username := PositionAdded(old(Read(username)), ticker, shares, entryPrice, purchaseDate)]
    {
      var rows := Read(username);
      if HasKey(rows, RowTicker, ticker) {
        rows := Overwritten(rows, ticker, shares, entryPrice, purchaseDate);
      } else {
        rows := rows + [PositionRow(ticker, shares, entryPrice, purchaseDate)];
      }
      Write(username, rows);
    }

    /** Deletes every row of the ticker; false, with nothing written, when
        there is none. */
    method RemovePosition(username: string, ticker: string) returns (ok: bool)
      modifies this
      ensures ok <==> HasKey(old(Read(username)), RowTicker, ticker)
      ensures files == if ok then old(files)[username := Without(old(Read(username)), RowTicker, ticker)] else old(files)
    {
      var rows := Read(username);
      if HasKey(rows, RowTicker, ticker) {
        Write(username, Without(rows, RowTicker, ticker));
        return true;
      }
      return false;
    }
  }

  // ---------------------------------------------------------------------
  // Orders file (columns username, ticker, order_type, price, quantity,
  // created_at, status)

  /** A row of a frame together with its label. */
  datatype Labelled = Labelled(index: nat, row: OrderRecord)

  predicate OwnedBy(r: OrderRecord, username: Option<string>)
  {
    !Given(username) || r.username == username.value
  }

  /** The labelled rows from label `from` on that belong to `username`
      (all of them when no username is given). */
  function LabelledFrom(rows: seq<OrderRecord>, from: nat, username: Option<string>): seq<Labelled>
    decreases |rows| - from
  {
    if from >= |rows| then []
    else (if OwnedBy(rows[from], username) then [Labelled(from, rows[from])] else []) + LabelledFrom(rows, from + 1, username)
  }

  lemma {:induction false} LabelledFromEffect(rows: seq<OrderRecord>, from: nat, username: Option<string>)
    decreases |rows| - from
    ensures var r := LabelledFrom(rows, from, username);
      && (forall l :: l in r <==> from <= l.index < |rows| && l.row == rows[l.index] && OwnedBy(l.row, username))
      && (forall a, b :: 0 <= a < b < |r| ==> r[a].index < r[b].index)
      && (forall a :: 0 <= a < |r| ==> from <= r[a].index)
  {
    if from < |rows| {
      LabelledFromEffect(rows, from + 1, username);
      var r, t := LabelledFrom(rows, from, username), LabelledFrom(rows, from + 1, username);
      if OwnedBy(rows[from], username) {
        assert r == [Labelled(from, rows[from])] + t;
        assert forall l :: l in r <==> l == Labelled(from, rows[from]) || l in t;
        forall a, b | 0 <= a < b < |r| ensures r[a].index < r[b].index {
          assert r[b] == t[b - 1];
          if a > 0 {
            assert r[a] == t[a - 1];
          }
        }
      } else {
        assert r == t;
      }
    }
  }

  /** `OrderManager.get_orders`: the labelled rows of the user, or of
      everyone when no username (or the empty one) is given. */
  function OrdersOf(rows: seq<OrderRecord>, username: Option<string>): seq<Labelled>
  {
    LabelledFrom(rows, 0, username)
  }

  /** `get_orders` yields each row of the requested owner exactly once,
      labelled with its position in the file, in file order. */
  lemma OrdersOfEffect(rows: seq<OrderRecord>, username: Option<string>)
    ensures var r := OrdersOf(rows, username);
      && (forall l :: l in r <==> l.index < |rows| && l.row == rows[l.index] && OwnedBy(l.row, username))
      && (forall a, b :: 0 <= a < b < |r| ==> r[a].index < r[b].index)
      && (!Given(username) ==> |r| == |rows|)
  {
    LabelledFromEffect(rows, 0, username);
    if !Given(username) {
      AllLabelled(rows, 0, username);
    }
  }

  lemma {:induction false} AllLabelled(rows: seq<OrderRecord>, from: nat, username: Option<string>)
    requires !Given(username)
    decreases |rows| - from
    ensures |LabelledFrom(rows, from, username)| == if from >= |rows| then 0 else |rows| - from
  {
    if from < |rows| {
      AllLabelled(rows, from + 1, username);
    }
  }

  class OrderManager {
    var rows: seq<OrderRecord>

    /** A new, empty orders file. */
    constructor ()
      ensures rows == []
    {
      rows := [];
    }

    /** Appends one pending row created at `now`. */
    method AddOrder(username: string, ticker: string, side: Side, price: real, quantity: real, now: Timestamp)
      modifies this
      ensures rows == old(rows) + [OrderRecord(username, ticker, side, price, quantity, now, Pending)]
    {
      rows := rows + [OrderRecord(username, ticker, side, price, quantity, now, Pending)];
    }

    function GetOrders(username: Option<string>): seq<Labelled>
      reads this
    {
      OrdersOf(rows, username)
    }

    /** Sets the status of the row at `index`; false, with nothing written,
        when the index is out of range. */
    method UpdateOrderStatus(index: int, status: Status) returns (ok: bool)
      modifies this
      ensures ok <==> 0 <= index < |old(rows)|
      ensures rows == if ok then old(rows)[index := old(rows)[index].(status := status)] else old(rows)
    {
      if 0 <= index < |rows| {
        rows := rows[index := rows[index].(status := status)];
        return true;
      }
      return false;
    }

    method Write(newRows: seq<OrderRecord>)
      modifies this
      ensures rows == newRows
    {
      rows := newRows;
    }
  }
}
