/** The SQLite store of the Streamlit app (app/database.py): tables
    `users`, `portfolios` (one row per purchase lot) and `orders`, each a
    sequence of rows with an AUTOINCREMENT id. The pure functions below
    give the meaning of each SQL statement on a table; the `Database`
    class holds the tables and its methods are the module's functions. */
module AppDatabase {
  import opened Common

  datatype User = User(id: nat, username: string, passwordHash: string)

  /** A purchase lot of the `portfolios` table. */
  datatype Lot = Lot(id: nat, userId: nat, ticker: string, shares: real, entryPrice: real, purchaseDate: Timestamp)

  /** A row of the `orders` table. */
  datatype OrderRow = OrderRow(
    id: nat, userId: nat, ticker: string, side: Side,
    price: real, quantity: real, createdAt: Timestamp, status: Status)

  /** A row of the orders-users join that `get_orders` returns. */
  datatype OrderView = OrderView(
    id: nat, username: string, ticker: string, side: Side,
    price: real, quantity: real, createdAt: Timestamp, status: Status)

  // =====================================================================
  // users

  /** The first user row that satisfies `p`. */
  function FirstUser(users: seq<User>, p: User -> bool): (r: Option<User>)
    ensures r.Some? <==> exists u :: u in users && p(u)
    ensures r.Some? ==> r.value in users && p(r.value)
    ensures r.Some? ==> exists i :: 0 <= i < |users| && users[i] == r.value && forall k :: 0 <= k < i ==> !p(users[k])
  {
    if users == [] then None
    else if p(users[0]) then Some(users[0])
    else
      var t := FirstUser(users[1..], p);
      assert t.Some? ==> exists i :: 1 <= i < |users| && users[i] == t.value && forall k :: 0 <= k < i ==> !p(users[k]) by {
        if t.Some? {
          var j :| 0 <= j < |users[1..]| && users[1..][j] == t.value && forall k :: 0 <= k < j ==> !p(users[1..][k]);
          assert forall k :: 0 <= k < j + 1 ==> !p(users[k]) by {
            forall k | 0 <= k < j + 1 ensures !p(users[k]) {
              if k > 0 { assert users[k] == users[1..][k - 1]; }
            }
          }
        }
      }
      t
  }

  /** `SELECT * FROM users WHERE username = ?`, first row. */
  function FindUser(users: seq<User>, username: string): (r: Option<User>)
    ensures r.Some? <==> exists u :: u in users && u.username == username
    ensures r.Some? ==> r.value in users && r.value.username == username
    ensures r.Some? ==> exists i :: 0 <= i < |users| && users[i] == r.value && forall k :: 0 <= k < i ==> users[k].username != username
  {
    FirstUser(users, (u: User) => u.username == username)
  }

  /** The join partner of an order: the user row with that id. */
  function UserById(users: seq<User>, id: nat): (r: Option<User>)
    ensures r.Some? <==> exists u :: u in users && u.id == id
    ensures r.Some? ==> r.value in users && r.value.id == id
    ensures r.Some? ==> exists i :: 0 <= i < |users| && users[i] == r.value && forall k :: 0 <= k < i ==> users[k].id != id
  {
    FirstUser(users, (u: User) => u.id == id)
  }

  ghost predicate UniqueUsers(users: seq<User>)
  {
    && (forall i, j :: 0 <= i < j < |users| ==> users[i].id != users[j].id)
    && (forall i, j :: 0 <= i < j < |users| ==> users[i].username != users[j].username)
  }

  lemma {:induction false} UserByIdOfMember(users: seq<User>, u: User)
    requires UniqueUsers(users) && u in users
    ensures UserById(users, u.id) == Some(u)
  {
    if users[0] != u {
      assert u in users[1..];
      UserByIdOfMember(users[1..], u);
    }
  }

  /** The password check of `validate_user_login`: the user's id when the
      stored hash equals the hash of the given password, otherwise none. */
  function ValidateUserLogin(users: seq<User>, username: string, password: string, hash: string -> string): (r: Option<nat>)
    ensures r.Some? <==> exists u :: u in users && u.username == username && u == FindUser(users, username).value && u.passwordHash == hash(password)
    ensures r.Some? ==> r == Some(FindUser(users, username).value.id)
  {
    match FindUser(users, username)
    case Some(u) => if u.passwordHash == hash(password) then Some(u.id) else None
    case None => None
  }

  // =====================================================================
  // portfolio lots

  predicate Owns(l: Lot, userId: nat, ticker: string)
  {
    l.userId == userId && l.ticker == ticker
  }

  ghost predicate UniqueIds(lots: seq<Lot>)
  {
    forall i, j :: 0 <= i < j < |lots| ==> lots[i].id != lots[j].id
  }

  ghost predicate NonnegShares(lots: seq<Lot>)
  {
    forall i :: 0 <= i < |lots| ==> lots[i].shares >= 0.0
  }

  /** Total shares of a sequence of lots. */
  function SharesOf(s: seq<Lot>): real
  {
    if s == [] then 0.0 else s[0].shares + SharesOf(s[1..])
  }

  /** The user's total shares of a ticker across all of their lots. */
  function Holding(lots: seq<Lot>, userId: nat, ticker: string): real
  {
    if lots == [] then 0.0
    else (if Owns(lots[0], userId, ticker) then lots[0].shares else 0.0) + Holding(lots[1..], userId, ticker)
  }

  /** The lots of the user and ticker, in table order (`WHERE user_id = ? AND ticker = ?`). */
  function Matching(lots: seq<Lot>, userId: nat, ticker: string): seq<Lot>
  {
    if lots == [] then []
    else (if Owns(lots[0], userId, ticker) then [lots[0]] else []) + Matching(lots[1..], userId, ticker)
  }

  /** Every lot that is not the user's lot of the ticker, in table order. */
  function Others(lots: seq<Lot>, userId: nat, ticker: string): seq<Lot>
  {
    if lots == [] then []
    else (if Owns(lots[0], userId, ticker) then [] else [lots[0]]) + Others(lots[1..], userId, ticker)
  }

  /** The row with that id, if any. */
  function Lookup(lots: seq<Lot>, id: nat): Option<Lot>
  {
    if lots == [] then None
    else if lots[0].id == id then Some(lots[0])
    else Lookup(lots[1..], id)
  }

  /** `DELETE FROM portfolios WHERE id = ?`. */
  function DeleteId(lots: seq<Lot>, id: nat): seq<Lot>
  {
    if lots == [] then []
    else (if lots[0].id == id then [] else [lots[0]]) + DeleteId(lots[1..], id)
  }

  /** `UPDATE portfolios SET shares = ? WHERE id = ?`. */
  function SetShares(lots: seq<Lot>, id: nat, shares: real): (r: seq<Lot>)
    ensures |r| == |lots|
    ensures forall i :: 0 <= i < |r| ==> r[i].id == lots[i].id && r[i].userId == lots[i].userId && r[i].ticker == lots[i].ticker
  {
    if lots == [] then []
    else [if lots[0].id == id then lots[0].(shares := shares) else lots[0]] + SetShares(lots[1..], id, shares)
  }

  // ---------------------------------------------------------------------
  // helper facts about the table operations

  lemma {:induction false} UniqueTail(lots: seq<Lot>)
    requires lots != [] && UniqueIds(lots)
    ensures UniqueIds(lots[1..]) && forall l :: l in lots[1..] ==> l.id != lots[0].id
  {
    forall l | l in lots[1..] ensures l.id != lots[0].id {
      var k :| 0 <= k < |lots[1..]| && lots[1..][k] == l;
      assert lots[k + 1] == l;
    }
  }

  lemma {:induction false} UniqueCons(l: Lot, s: seq<Lot>)
    requires UniqueIds(s) && forall m :: m in s ==> m.id != l.id
    ensures UniqueIds([l] + s)
  {
    var t := [l] + s;
    forall i, j | 0 <= i < j < |t| ensures t[i].id != t[j].id {
      if i == 0 {
        assert t[j] == s[j - 1];
        assert t[j] in s;
      } else {
        assert t[i] == s[i - 1] && t[j] == s[j - 1];
      }
    }
  }

  lemma {:induction false} UniqueLookup(lots: seq<Lot>, l: Lot)
    requires UniqueIds(lots) && l in lots
    ensures Lookup(lots, l.id) == Some(l)
    ensures forall m :: m in lots && m.id == l.id ==> m == l
  {
    UniqueTail(lots);
    if lots[0] != l {
      assert l in lots[1..];
      UniqueLookup(lots[1..], l);
    }
  }

  lemma {:induction false} DeleteAbsent(lots: seq<Lot>, id: nat)
    requires forall l :: l in lots ==> l.id != id
    ensures DeleteId(lots, id) == lots
    ensures SetShares(lots, id, 0.0) == lots
  {
    if lots != [] {
      assert lots[0] in lots;
      assert forall l :: l in lots[1..] ==> l in lots;
      DeleteAbsent(lots[1..], id);
      assert lots == [lots[0]] + lots[1..];
    }
  }

  lemma {:induction false} SetSharesAbsent(lots: seq<Lot>, id: nat, v: real)
    requires forall l :: l in lots ==> l.id != id
    ensures SetShares(lots, id, v) == lots
  {
    if lots != [] {
      assert lots[0] in lots;
      assert forall l :: l in lots[1..] ==> l in lots;
      SetSharesAbsent(lots[1..], id, v);
      assert lots == [lots[0]] + lots[1..];
    }
  }

  lemma {:induction false} DeleteMembers(lots: seq<Lot>, id: nat)
    ensures forall l :: l in DeleteId(lots, id) ==> l in lots
  {
    if lots != [] {
      DeleteMembers(lots[1..], id);
    }
  }

  lemma {:induction false} MatchingMembers(lots: seq<Lot>, userId: nat, ticker: string)
    ensures forall l :: l in Matching(lots, userId, ticker) ==> l in lots && Owns(l, userId, ticker)
  {
    if lots != [] {
      MatchingMembers(lots[1..], userId, ticker);
    }
  }

  lemma {:induction false} DeleteKeepsUnique(lots: seq<Lot>, id: nat)
    requires UniqueIds(lots)
    ensures UniqueIds(DeleteId(lots, id))
  {
    if lots != [] {
      UniqueTail(lots);
      DeleteKeepsUnique(lots[1..], id);
      if lots[0].id != id {
        DeleteMembers(lots[1..], id);
        UniqueCons(lots[0], DeleteId(lots[1..], id));
      }
    }
  }

  ghost predicate IdsBelow(lots: seq<Lot>, n: nat)
  {
    forall l :: l in lots ==> l.id < n
  }

  lemma {:induction false} DeleteIdsBelow(lots: seq<Lot>, id: nat, n: nat)
    requires IdsBelow(lots, n)
    ensures IdsBelow(DeleteId(lots, id), n)
  {
    DeleteMembers(lots, id);
  }

  lemma {:induction false} SetSharesIdsBelow(lots: seq<Lot>, id: nat, v: real, n: nat)
    requires IdsBelow(lots, n)
    ensures IdsBelow(SetShares(lots, id, v), n)
  {
    var r := SetShares(lots, id, v);
    forall l | l in r ensures l.id < n {
      var k :| 0 <= k < |r| && r[k] == l;
      assert lots[k] in lots;
    }
  }

  lemma {:induction false} SetSharesKeepsUnique(lots: seq<Lot>, id: nat, v: real)
    requires UniqueIds(lots)
    ensures UniqueIds(SetShares(lots, id, v))
  {
    var r := SetShares(lots, id, v);
    forall i, j | 0 <= i < j < |r| ensures r[i].id != r[j].id {
      assert r[i].id == lots[i].id && r[j].id == lots[j].id;
    }
  }

  lemma {:induction false} LookupMember(lots: seq<Lot>, id: nat)
    ensures Lookup(lots, id).Some? ==> Lookup(lots, id).value in lots && Lookup(lots, id).value.id == id
  {
    if lots != [] && lots[0].id != id {
      LookupMember(lots[1..], id);
    }
  }

  lemma {:induction false} LookupAfterDelete(lots: seq<Lot>, id: nat, other: nat)
    ensures Lookup(DeleteId(lots, id), other) == if other == id then None else Lookup(lots, other)
  {
    if lots != [] {
      LookupAfterDelete(lots[1..], id, other);
      var d := DeleteId(lots, id);
      if lots[0].id == id {
        assert d == DeleteId(lots[1..], id);
      } else {
        assert d == [lots[0]] + DeleteId(lots[1..], id);
        assert d[0] == lots[0] && d[1..] == DeleteId(lots[1..], id);
      }
    }
  }

  lemma {:induction false} LookupAfterSet(lots: seq<Lot>, id: nat, v: real, other: nat)
    ensures Lookup(SetShares(lots, id, v), other) ==
      if other == id && Lookup(lots, id).Some? then Some(Lookup(lots, id).value.(shares := v)) else Lookup(lots, other)
  {
    if lots != [] {
      LookupAfterSet(lots[1..], id, v, other);
    }
  }

  lemma {:induction false} HoldingAfterDelete(lots: seq<Lot>, l: Lot, userId: nat, ticker: string)
    requires UniqueIds(lots) && l in lots && Owns(l, userId, ticker)
    ensures Holding(DeleteId(lots, l.id), userId, ticker) == Holding(lots, userId, ticker) - l.shares
    ensures Others(DeleteId(lots, l.id), userId, ticker) == Others(lots, userId, ticker)
  {
    UniqueTail(lots);
    var d := DeleteId(lots, l.id);
    if lots[0] == l {
      DeleteAbsent(lots[1..], l.id);
      assert d == lots[1..];
    } else {
      assert lots[0].id != l.id by { UniqueLookup(lots, l); }
      assert l in lots[1..];
      HoldingAfterDelete(lots[1..], l, userId, ticker);
      assert d == [lots[0]] + DeleteId(lots[1..], l.id);
      assert d[1..] == DeleteId(lots[1..], l.id);
    }
  }

  lemma {:induction false} HoldingAfterSet(lots: seq<Lot>, l: Lot, v: real, userId: nat, ticker: string)
    requires UniqueIds(lots) && l in lots && Owns(l, userId, ticker)
    ensures Holding(SetShares(lots, l.id, v), userId, ticker) == Holding(lots, userId, ticker) - l.shares + v
    ensures Others(SetShares(lots, l.id, v), userId, ticker) == Others(lots, userId, ticker)
  {
    UniqueTail(lots);
    var r := SetShares(lots, l.id, v);
    if lots[0] == l {
      SetSharesAbsent(lots[1..], l.id, v);
      assert r == [l.(shares := v)] + lots[1..];
      assert r[1..] == lots[1..];
    } else {
      assert lots[0].id != l.id by { UniqueLookup(lots, l); }
      assert l in lots[1..];
      HoldingAfterSet(lots[1..], l, v, userId, ticker);
      assert r == [lots[0]] + SetShares(lots[1..], l.id, v);
      assert r[1..] == SetShares(lots[1..], l.id, v);
    }
  }

  lemma {:induction false} SharesAppend(a: seq<Lot>, b: seq<Lot>)
    ensures SharesOf(a + b) == SharesOf(a) + SharesOf(b)
  {
    if a == [] {
      assert a + b == b;
    } else {
      assert (a + b)[0] == a[0];
      assert (a + b)[1..] == a[1..] + b;
      SharesAppend(a[1..], b);
    }
  }

  lemma {:induction false} SharesRemoveAt(b: seq<Lot>, k: nat)
    requires k < |b|
    ensures SharesOf(b) == b[k].shares + SharesOf(b[..k] + b[k + 1..])
    ensures multiset(b[..k] + b[k + 1..]) == multiset(b) - multiset{b[k]}
  {
    assert b == b[..k] + [b[k]] + b[k + 1..];
    SharesAppend(b[..k] + [b[k]], b[k + 1..]);
    SharesAppend(b[..k], [b[k]]);
    SharesAppend(b[..k], b[k + 1..]);
    assert SharesOf([b[k]]) == b[k].shares;
  }

  lemma MultisetTail<T>(a: seq<T>)
    requires a != []
    ensures a[0] in multiset(a)
    ensures multiset(a[1..]) == multiset(a) - multiset{a[0]}
  {
    assert a == [a[0]] + a[1..];
  }

  lemma {:induction false} SharesPermutation(a: seq<Lot>, b: seq<Lot>)
    requires multiset(a) == multiset(b)
    ensures SharesOf(a) == SharesOf(b)
  {
    if a == [] {
      assert |multiset(b)| == 0;
    } else {
      MultisetTail(a);
      assert a[0] in b;
      var k :| 0 <= k < |b| && b[k] == a[0];
      var rest := b[..k] + b[k + 1..];
      SharesRemoveAt(b, k);
      assert multiset(a[1..]) == multiset(rest);
      SharesPermutation(a[1..], rest);
    }
  }

  lemma {:induction false} SharesNonneg(s: seq<Lot>)
    requires NonnegShares(s)
    ensures SharesOf(s) >= 0.0
  {
    if s != [] {
      assert NonnegShares(s[1..]) by {
        forall i | 0 <= i < |s[1..]| ensures s[1..][i].shares >= 0.0 {
          assert s[1..][i] == s[i + 1];
        }
      }
      SharesNonneg(s[1..]);
    }
  }

  lemma {:induction false} HoldingIsMatching(lots: seq<Lot>, userId: nat, ticker: string)
    ensures Holding(lots, userId, ticker) == SharesOf(Matching(lots, userId, ticker))
  {
    if lots != [] {
      HoldingIsMatching(lots[1..], userId, ticker);
      var head := if Owns(lots[0], userId, ticker) then [lots[0]] else [];
      SharesAppend(head, Matching(lots[1..], userId, ticker));
    }
  }

  lemma {:induction false} MatchingUnique(lots: seq<Lot>, userId: nat, ticker: string)
    requires UniqueIds(lots)
    ensures UniqueIds(Matching(lots, userId, ticker))
  {
    if lots != [] {
      UniqueTail(lots);
      MatchingUnique(lots[1..], userId, ticker);
      if Owns(lots[0], userId, ticker) {
        MatchingMembers(lots[1..], userId, ticker);
        UniqueCons(lots[0], Matching(lots[1..], userId, ticker));
      }
    }
  }

  lemma {:induction false} CountTwo<T>(s: seq<T>, i: nat, j: nat)
    requires i < j < |s| && s[i] == s[j]
    ensures multiset(s)[s[i]] >= 2
  {
    assert s == s[..j] + [s[j]] + s[j + 1..];
    assert s[i] in s[..j];
    assert multiset(s) == multiset(s[..j]) + multiset{s[j]} + multiset(s[j + 1..]);
  }

  lemma {:induction false} UniqueCountOne(s: seq<Lot>, x: Lot)
    requires UniqueIds(s)
    ensures multiset(s)[x] <= 1
  {
    if s != [] {
      UniqueTail(s);
      UniqueCountOne(s[1..], x);
      assert s == [s[0]] + s[1..];
      assert multiset(s) == multiset{s[0]} + multiset(s[1..]);
      if s[0] == x {
        assert x !in s[1..];
      }
    }
  }

  lemma {:induction false} PermutationUnique(a: seq<Lot>, b: seq<Lot>)
    requires multiset(a) == multiset(b) && UniqueIds(a)
    ensures UniqueIds(b)
  {
    forall i, j | 0 <= i < j < |b| ensures b[i].id != b[j].id {
      if b[i].id == b[j].id {
        if b[i] == b[j] {
          CountTwo(b, i, j);
          UniqueCountOne(a, b[i]);
        } else {
          assert b[i] in multiset(a) && b[j] in multiset(a);
          assert b[i] in a && b[j] in a;
          UniqueLookup(a, b[i]);
        }
      }
    }
  }

  // ---------------------------------------------------------------------
  // add_to_portfolio

  /** The first lot with the same user, ticker, entry price and purchase date. */
  function FindLot(lots: seq<Lot>, userId: nat, ticker: string, entryPrice: real, purchaseDate: Timestamp): (r: Option<nat>)
    ensures r.Some? ==> (r.value < |lots| && Owns(lots[r.value], userId, ticker)
      && lots[r.value].entryPrice == entryPrice && lots[r.value].purchaseDate == purchaseDate)
    ensures r.None? ==> forall l :: l in lots ==> !(Owns(l, userId, ticker) && l.entryPrice == entryPrice && l.purchaseDate == purchaseDate)
  {
    if lots == [] then None
    else if Owns(lots[0], userId, ticker) && lots[0].entryPrice == entryPrice && lots[0].purchaseDate == purchaseDate then Some(0)
    else match FindLot(lots[1..], userId, ticker, entryPrice, purchaseDate)
      case Some(k) => Some(k + 1)
      case None => None
  }

  /** The lots table after `add_to_portfolio`, and the next free lot id. */
  function AddLot(lots: seq<Lot>, nextId: nat, userId: nat, ticker: string, shares: real, entryPrice: real, purchaseDate: Timestamp): (r: (seq<Lot>, nat))
    ensures r.1 == nextId <==> FindLot(lots, userId, ticker, entryPrice, purchaseDate).Some?
    ensures r.1 == nextId || r.1 == nextId + 1
    ensures |r.0| == |lots| + (r.1 - nextId)
  {
    match FindLot(lots, userId, ticker, entryPrice, purchaseDate)
    case Some(i) => (SetShares(lots, lots[i].id, lots[i].shares + shares), nextId)
    case None => (lots + [Lot(nextId, userId, ticker, shares, entryPrice, purchaseDate)], nextId + 1)
  }

  /** Adding a position keeps lot ids unique and below the id counter. */
  lemma AddLotKeepsIds(lots: seq<Lot>, nextId: nat, userId: nat, ticker: string, shares: real, entryPrice: real, purchaseDate: Timestamp)
    requires UniqueIds(lots) && IdsBelow(lots, nextId)
    ensures var (r, n) := AddLot(lots, nextId, userId, ticker, shares, entryPrice, purchaseDate);
      UniqueIds(r) && IdsBelow(r, n) && n >= nextId
  {
    match FindLot(lots, userId, ticker, entryPrice, purchaseDate)
    case Some(i) =>
      SetSharesKeepsUnique(lots, lots[i].id, lots[i].shares + shares);
      SetSharesIdsBelow(lots, lots[i].id, lots[i].shares + shares, nextId);
    case None =>
      var l := Lot(nextId, userId, ticker, shares, entryPrice, purchaseDate);
      UniqueSnoc(lots, l);
      assert IdsBelow(lots + [l], nextId + 1) by {
        forall m | m in lots + [l] ensures m.id < nextId + 1 {
          assert m in lots || m == l;
        }
      }
  }

  lemma {:induction false} SetSharesAt(lots: seq<Lot>, i: nat, v: real)
    requires UniqueIds(lots) && i < |lots|
    ensures SetShares(lots, lots[i].id, v) == lots[i := lots[i].(shares := v)]
  {
    UniqueTail(lots);
    if i == 0 {
      SetSharesAbsent(lots[1..], lots[0].id, v);
    } else {
      SetSharesAt(lots[1..], i - 1, v);
      assert lots[1..][i - 1] == lots[i];
    }
  }

  /** `add_to_portfolio` merges into an existing lot with the same user,
      ticker, entry price and purchase date (no lot is added), and otherwise
      inserts exactly one new lot; either way the holding grows by `shares`
      and no other user's or ticker's lot changes. */
  lemma AddLotEffect(lots: seq<Lot>, nextId: nat, userId: nat, ticker: string, shares: real, entryPrice: real, purchaseDate: Timestamp)
    requires UniqueIds(lots)
    ensures var (r, n) := AddLot(lots, nextId, userId, ticker, shares, entryPrice, purchaseDate);
      match FindLot(lots, userId, ticker, entryPrice, purchaseDate)
      case Some(i) => r == lots[i := lots[i].(shares := lots[i].shares + shares)] && n == nextId
      case None => r == lots + [Lot(nextId, userId, ticker, shares, entryPrice, purchaseDate)] && n == nextId + 1
    ensures var r := AddLot(lots, nextId, userId, ticker, shares, entryPrice, purchaseDate).0;
      Holding(r, userId, ticker) == Holding(lots, userId, ticker) + shares
      && Others(r, userId, ticker) == Others(lots, userId, ticker)
  {
    match FindLot(lots, userId, ticker, entryPrice, purchaseDate)
    case Some(i) =>
      var v := lots[i].shares + shares;
      assert AddLot(lots, nextId, userId, ticker, shares, entryPrice, purchaseDate) == (SetShares(lots, lots[i].id, v), nextId);
      SetSharesAt(lots, i, v);
      HoldingAfterSet(lots, lots[i], v, userId, ticker);
    case None =>
      var l := Lot(nextId, userId, ticker, shares, entryPrice, purchaseDate);
      assert AddLot(lots, nextId, userId, ticker, shares, entryPrice, purchaseDate) == (lots + [l], nextId + 1);
      HoldingAppend(lots, l, userId, ticker);
  }

  lemma {:induction false} HoldingAppend(lots: seq<Lot>, l: Lot, userId: nat, ticker: string)
    requires Owns(l, userId, ticker)
    ensures Holding(lots + [l], userId, ticker) == Holding(lots, userId, ticker) + l.shares
    ensures Others(lots + [l], userId, ticker) == Others(lots, userId, ticker)
  {
    if lots == [] {
      assert [l][1..] == [];
    } else {
      assert (lots + [l])[1..] == lots[1..] + [l];
      HoldingAppend(lots[1..], l, userId, ticker);
    }
  }

  // ---------------------------------------------------------------------
  // update_portfolio_after_sell

  /** The selected lots, `ORDER BY purchase_date ASC` (ties in table order). */
  function PositionsToSell(lots: seq<Lot>, userId: nat, ticker: string): (r: seq<Lot>)
    ensures forall i, j :: 0 <= i < j < |r| ==> r[i].purchaseDate <= r[j].purchaseDate
    ensures multiset(r) == multiset(Matching(lots, userId, ticker))
  {
    SortBy(Matching(lots, userId, ticker), (l: Lot) => l.purchaseDate)
  }

  /** The loop of `update_portfolio_after_sell` over the selected lots `ps`
      with `remaining` shares still to sell: the table it leaves and the
      quantity it could not sell. */
  function SellFrom(lots: seq<Lot>, ps: seq<Lot>, remaining: real): (seq<Lot>, real)
    decreases ps
  {
    if ps == [] || remaining <= 0.0 then (lots, remaining)
    else if ps[0].shares > remaining then (SetShares(lots, ps[0].id, ps[0].shares - remaining), 0.0)
    else SellFrom(DeleteId(lots, ps[0].id), ps[1..], remaining - ps[0].shares)
  }

  /** Selling keeps the lot ids unique and below `n`. */
  lemma {:induction false} SellFromKeepsIds(lots: seq<Lot>, ps: seq<Lot>, remaining: real, n: nat)
    requires UniqueIds(lots) && IdsBelow(lots, n)
    decreases ps
    ensures UniqueIds(SellFrom(lots, ps, remaining).0) && IdsBelow(SellFrom(lots, ps, remaining).0, n)
  {
    if ps != [] && remaining > 0.0 {
      if ps[0].shares > remaining {
        SetSharesKeepsUnique(lots, ps[0].id, ps[0].shares - remaining);
        SetSharesIdsBelow(lots, ps[0].id, ps[0].shares - remaining, n);
      } else {
        DeleteKeepsUnique(lots, ps[0].id);
        DeleteIdsBelow(lots, ps[0].id, n);
        SellFromKeepsIds(DeleteId(lots, ps[0].id), ps[1..], remaining - ps[0].shares, n);
      }
    }
  }

  /** The loop of `update_portfolio_after_sell`: each selected lot, oldest
      first, is deleted when the shares still to sell cover it and is
      reduced otherwise, until nothing remains to sell. */
  method SellLots(lots: seq<Lot>, positions: seq<Lot>, quantity: real) returns (table: seq<Lot>, remaining: real)
    ensures (table, remaining) == SellFrom(lots, positions, quantity)
  {
    table, remaining := lots, quantity;
    var i := 0;
    while i < |positions| && remaining > 0.0
      invariant 0 <= i <= |positions|
      invariant SellFrom(lots, positions, quantity) == SellFrom(table, positions[i..], remaining)
    {
      var p := positions[i];
      assert positions[i..][0] == p && positions[i..][1..] == positions[i + 1..];
      if p.shares > remaining {
        table := SetShares(table, p.id, p.shares - remaining);
        remaining := 0.0;
      } else {
        table := DeleteId(table, p.id);
        remaining := remaining - p.shares;
      }
      i := i + 1;
    }
    assert i == |positions| ==> positions[i..] == [];
  }

  /** `update_portfolio_after_sell`: the new lots table and the returned flag. */
  function AfterSell(lots: seq<Lot>, userId: nat, ticker: string, quantity: real): (seq<Lot>, bool)
  {
    var (r, rest) := SellFrom(lots, PositionsToSell(lots, userId, ticker), quantity);
    (r, rest == 0.0)
  }

  /** `update_portfolio_after_sell` on the lots table. */
  method SellPositions(lots: seq<Lot>, userId: nat, ticker: string, quantity: real) returns (table: seq<Lot>, ok: bool)
    ensures (table, ok) == AfterSell(lots, userId, ticker, quantity)
  {
    var positions := PositionsToSell(lots, userId, ticker);
    var remaining;
    table, remaining := SellLots(lots, positions, quantity);
    ok := remaining == 0.0;
  }

  lemma AfterSellKeepsIds(lots: seq<Lot>, userId: nat, ticker: string, quantity: real, n: nat)
    requires UniqueIds(lots) && IdsBelow(lots, n)
    ensures UniqueIds(AfterSell(lots, userId, ticker, quantity).0) && IdsBelow(AfterSell(lots, userId, ticker, quantity).0, n)
  {
    SellFromKeepsIds(lots, PositionsToSell(lots, userId, ticker), quantity, n);
  }

  /** The selected lots are exactly the current rows, with distinct ids. */
  ghost predicate Selected(lots: seq<Lot>, ps: seq<Lot>, userId: nat, ticker: string)
  {
    && UniqueIds(lots)
    && UniqueIds(ps)
    && (forall k :: 0 <= k < |ps| ==> Lookup(lots, ps[k].id) == Some(ps[k]) && Owns(ps[k], userId, ticker))
  }

  lemma {:induction false} SelectedTail(lots: seq<Lot>, ps: seq<Lot>, userId: nat, ticker: string)
    requires ps != [] && Selected(lots, ps, userId, ticker)
    ensures Selected(DeleteId(lots, ps[0].id), ps[1..], userId, ticker)
  {
    DeleteKeepsUnique(lots, ps[0].id);
    forall k | 0 <= k < |ps[1..]|
      ensures Lookup(DeleteId(lots, ps[0].id), ps[1..][k].id) == Some(ps[1..][k])
    {
      assert ps[1..][k] == ps[k + 1];
      LookupAfterDelete(lots, ps[0].id, ps[k + 1].id);
    }
    assert UniqueIds(ps[1..]) by {
      forall i, j | 0 <= i < j < |ps[1..]| ensures ps[1..][i].id != ps[1..][j].id {
        assert ps[1..][i] == ps[i + 1] && ps[1..][j] == ps[j + 1];
      }
    }
  }

  lemma {:induction false} NonnegTail(ps: seq<Lot>)
    requires ps != [] && NonnegShares(ps)
    ensures NonnegShares(ps[1..])
  {
    forall i | 0 <= i < |ps[1..]| ensures ps[1..][i].shares >= 0.0 {
      assert ps[1..][i] == ps[i + 1];
    }
  }

  /** The quantity the loop cannot sell is what exceeds the selected shares. */
  lemma {:induction false} SellFromRemaining(lots: seq<Lot>, ps: seq<Lot>, remaining: real)
    requires remaining >= 0.0 && NonnegShares(ps)
    decreases ps
    ensures SellFrom(lots, ps, remaining).1 == if remaining > SharesOf(ps) then remaining - SharesOf(ps) else 0.0
  {
    SharesNonneg(ps);
    if ps != [] && remaining > 0.0 {
      NonnegTail(ps);
      SharesNonneg(ps[1..]);
      if ps[0].shares <= remaining {
        SellFromRemaining(DeleteId(lots, ps[0].id), ps[1..], remaining - ps[0].shares);
      }
    }
  }

  /** What the loop takes from the holding is exactly what it sold, and it
      touches no lot of another user or ticker. */
  lemma {:induction false} SellFromHolding(lots: seq<Lot>, ps: seq<Lot>, remaining: real, userId: nat, ticker: string)
    requires Selected(lots, ps, userId, ticker)
    decreases ps
    ensures var (r, rest) := SellFrom(lots, ps, remaining);
      && Holding(r, userId, ticker) == Holding(lots, userId, ticker) - (remaining - rest)
      && Others(r, userId, ticker) == Others(lots, userId, ticker)
      && UniqueIds(r)
  {
    if ps != [] && remaining > 0.0 {
      LookupMember(lots, ps[0].id);
      if ps[0].shares > remaining {
        HoldingAfterSet(lots, ps[0], ps[0].shares - remaining, userId, ticker);
        SetSharesKeepsUnique(lots, ps[0].id, ps[0].shares - remaining);
      } else {
        HoldingAfterDelete(lots, ps[0], userId, ticker);
        SelectedTail(lots, ps, userId, ticker);
        SellFromHolding(DeleteId(lots, ps[0].id), ps[1..], remaining - ps[0].shares, userId, ticker);
      }
    }
  }

  /** A row whose id is not among the selected lots is left as it was. */
  lemma {:induction false} SellFromUntouched(lots: seq<Lot>, ps: seq<Lot>, remaining: real, id: nat)
    requires forall k :: 0 <= k < |ps| ==> ps[k].id != id
    decreases ps
    ensures Lookup(SellFrom(lots, ps, remaining).0, id) == Lookup(lots, id)
  {
    if ps != [] && remaining > 0.0 {
      if ps[0].shares > remaining {
        LookupAfterSet(lots, ps[0].id, ps[0].shares - remaining, id);
      } else {
        SellFromUntouched(DeleteId(lots, ps[0].id), ps[1..], remaining - ps[0].shares, id);
        LookupAfterDelete(lots, ps[0].id, id);
      }
    }
  }

  /** The fate of the j-th selected lot, in terms of the shares of the lots
      before it: wholly sold lots are deleted, the first lot larger than
      what is left is reduced by it, and later lots are untouched. */
  lemma {:induction false} SellFromFate(lots: seq<Lot>, ps: seq<Lot>, remaining: real, j: nat, userId: nat, ticker: string)
    requires Selected(lots, ps, userId, ticker) && NonnegShares(ps) && remaining >= 0.0 && j < |ps|
    decreases ps
    ensures var before := SharesOf(ps[..j]);
      var after := SellFrom(lots, ps, remaining).0;
      && (before < remaining && before + ps[j].shares <= remaining ==> Lookup(after, ps[j].id) == None)
      && (before < remaining < before + ps[j].shares ==> Lookup(after, ps[j].id) == Some(ps[j].(shares := before + ps[j].shares - remaining)))
      && (remaining <= before ==> Lookup(after, ps[j].id) == Some(ps[j]))
  {
    var after := SellFrom(lots, ps, remaining).0;
    if j == 0 {
      assert ps[..0] == [];
      if remaining > 0.0 {
        if ps[0].shares > remaining {
          LookupAfterSet(lots, ps[0].id, ps[0].shares - remaining, ps[0].id);
        } else {
          var d := DeleteId(lots, ps[0].id);
          forall k | 0 <= k < |ps[1..]| ensures ps[1..][k].id != ps[0].id {
            assert ps[1..][k] == ps[k + 1];
          }
          SellFromUntouched(d, ps[1..], remaining - ps[0].shares, ps[0].id);
          LookupAfterDelete(lots, ps[0].id, ps[0].id);
        }
      }
    } else {
      assert ps[..j] == [ps[0]] + ps[1..][..j - 1];
      assert SharesOf(ps[..j]) == ps[0].shares + SharesOf(ps[1..][..j - 1]);
      assert ps[1..][j - 1] == ps[j];
      NonnegTail(ps);
      var pre := ps[1..][..j - 1];
      assert NonnegShares(pre) by {
        forall i | 0 <= i < |pre| ensures pre[i].shares >= 0.0 {
          assert pre[i] == ps[i + 1];
        }
      }
      SharesNonneg(pre);
      if remaining > 0.0 {
        if ps[0].shares > remaining {
          LookupAfterSet(lots, ps[0].id, ps[0].shares - remaining, ps[j].id);
        } else {
          SelectedTail(lots, ps, userId, ticker);
          SellFromFate(DeleteId(lots, ps[0].id), ps[1..], remaining - ps[0].shares, j - 1, userId, ticker);
          LookupAfterDelete(lots, ps[0].id, ps[j].id);
        }
      }
    }
  }

  lemma {:induction false} PositionsSelected(lots: seq<Lot>, userId: nat, ticker: string)
    requires UniqueIds(lots)
    ensures Selected(lots, PositionsToSell(lots, userId, ticker), userId, ticker)
    ensures SharesOf(PositionsToSell(lots, userId, ticker)) == Holding(lots, userId, ticker)
    ensures NonnegShares(lots) ==> NonnegShares(PositionsToSell(lots, userId, ticker))
  {
    var m := Matching(lots, userId, ticker);
    var ps := PositionsToSell(lots, userId, ticker);
    MatchingUnique(lots, userId, ticker);
    MatchingMembers(lots, userId, ticker);
    PermutationUnique(m, ps);
    forall k | 0 <= k < |ps| ensures Lookup(lots, ps[k].id) == Some(ps[k]) && Owns(ps[k], userId, ticker) {
      assert ps[k] in multiset(m);
      assert ps[k] in m;
      UniqueLookup(lots, ps[k]);
    }
    SharesPermutation(m, ps);
    HoldingIsMatching(lots, userId, ticker);
    if NonnegShares(lots) {
      forall k | 0 <= k < |ps| ensures ps[k].shares >= 0.0 {
        assert ps[k] in multiset(m);
        assert ps[k] in lots;
      }
    }
  }

  /** `update_portfolio_after_sell` returns True exactly when the user held
      at least `quantity` shares of the ticker; the holding drops by
      min(quantity, holding) — so a short holding is wiped out with no
      rollback — and no lot of another user or ticker changes. */
  lemma AfterSellTotals(lots: seq<Lot>, userId: nat, ticker: string, quantity: real)
    requires UniqueIds(lots) && NonnegShares(lots) && quantity >= 0.0
    ensures var (r, ok) := AfterSell(lots, userId, ticker, quantity);
      var total := Holding(lots, userId, ticker);
      && (ok <==> total >= quantity)
      && Holding(r, userId, ticker) == total - (if quantity < total then quantity else total)
      && (!ok ==> Holding(r, userId, ticker) == 0.0)
      && Others(r, userId, ticker) == Others(lots, userId, ticker)
      && UniqueIds(r)
  {
    var ps := PositionsToSell(lots, userId, ticker);
    PositionsSelected(lots, userId, ticker);
    SellFromRemaining(lots, ps, quantity);
    SellFromHolding(lots, ps, quantity, userId, ticker);
  }

  /** The lots are consumed oldest first: in ascending purchase date, each
      selected lot whose shares fit in what is still to sell is deleted, the
      first larger one is reduced by the rest, the lots after it and every
      row that was not selected are untouched. */
  lemma AfterSellFifo(lots: seq<Lot>, userId: nat, ticker: string, quantity: real, j: nat)
    requires UniqueIds(lots) && NonnegShares(lots) && quantity >= 0.0
    requires j < |PositionsToSell(lots, userId, ticker)|
    ensures var ps := PositionsToSell(lots, userId, ticker);
      var before := SharesOf(ps[..j]);
      var after := AfterSell(lots, userId, ticker, quantity).0;
      && (before < quantity && before + ps[j].shares <= quantity ==> Lookup(after, ps[j].id) == None)
      && (before < quantity < before + ps[j].shares ==> Lookup(after, ps[j].id) == Some(ps[j].(shares := before + ps[j].shares - quantity)))
      && (quantity <= before ==> Lookup(after, ps[j].id) == Some(ps[j]))
  {
    PositionsSelected(lots, userId, ticker);
    SellFromFate(lots, PositionsToSell(lots, userId, ticker), quantity, j, userId, ticker);
  }

  lemma AfterSellUnselectedUntouched(lots: seq<Lot>, userId: nat, ticker: string, quantity: real, l: Lot)
    requires UniqueIds(lots) && l in lots && !Owns(l, userId, ticker)
    ensures Lookup(AfterSell(lots, userId, ticker, quantity).0, l.id) == Some(l)
  {
    var ps := PositionsToSell(lots, userId, ticker);
    PositionsSelected(lots, userId, ticker);
    forall k | 0 <= k < |ps| ensures ps[k].id != l.id {
      if ps[k].id == l.id {
        UniqueLookup(lots, l);
      }
    }
    SellFromUntouched(lots, ps, quantity, l.id);
    UniqueLookup(lots, l);
  }

  // =====================================================================
  // orders

  ghost predicate UniqueOrderIds(orders: seq<OrderRow>)
  {
    forall i, j :: 0 <= i < j < |orders| ==> orders[i].id != orders[j].id
  }

  /** `UPDATE orders SET status = ? WHERE id = ?`: the old status is not looked at. */
  function SetStatus(orders: seq<OrderRow>, id: nat, status: Status): (r: seq<OrderRow>)
  {
    seq(|orders|, i requires 0 <= i < |orders| => if orders[i].id == id then orders[i].(status := status) else orders[i])
  }

  /** The status stored for an order id. */
  function StatusOf(orders: seq<OrderRow>, id: nat): Option<Status>
  {
    if orders == [] then None
    else if orders[0].id == id then Some(orders[0].status)
    else StatusOf(orders[1..], id)
  }

  /** Setting a status by id changes the status of that order, whatever it
      was, and of no other; every other column stays. */
  lemma {:induction false} SetStatusEffect(orders: seq<OrderRow>, id: nat, status: Status, other: nat)
    ensures StatusOf(SetStatus(orders, id, status), other) ==
      if other == id && StatusOf(orders, id).Some? then Some(status) else StatusOf(orders, other)
    ensures |SetStatus(orders, id, status)| == |orders|
    ensures forall i :: 0 <= i < |orders| ==> SetStatus(orders, id, status)[i] == orders[i].(status := SetStatus(orders, id, status)[i].status)
  {
    if orders != [] {
      SetStatusEffect(orders[1..], id, status, other);
      assert SetStatus(orders, id, status)[1..] == SetStatus(orders[1..], id, status);
    }
  }

  predicate Selects(o: OrderRow, userId: Option<nat>, status: Option<Status>)
  {
    (userId.Some? ==> o.userId == userId.value) && (status.Some? ==> o.status == status.value)
  }

  function View(o: OrderRow, username: string): OrderView
  {
    OrderView(o.id, username, o.ticker, o.side, o.price, o.quantity, o.createdAt, o.status)
  }

  /** The filtered inner join of orders with users, in table order: an order
      whose user row is missing is not returned. */
  function Joined(users: seq<User>, orders: seq<OrderRow>, userId: Option<nat>, status: Option<Status>): (r: seq<OrderView>)
    ensures forall v :: v in r <==> exists o :: (o in orders && Selects(o, userId, status)
      && UserById(users, o.userId).Some? && v == View(o, UserById(users, o.userId).value.username))
  {
    if orders == [] then []
    else
      var o := orders[0];
      var rest := Joined(users, orders[1..], userId, status);
      assert forall q :: q in orders <==> q == o || q in orders[1..];
      if Selects(o, userId, status) && UserById(users, o.userId).Some? then
        [View(o, UserById(users, o.userId).value.username)] + rest
      else
        rest
  }

  /** `get_orders`: the orders passing every given filter (an omitted filter
      imposes nothing) whose user exists, newest `created_at` first. */
  function QueryOrders(users: seq<User>, orders: seq<OrderRow>, userId: Option<nat>, status: Option<Status>): (r: seq<OrderView>)
    ensures forall v :: v in r <==> exists o :: (o in orders && Selects(o, userId, status)
      && UserById(users, o.userId).Some? && v == View(o, UserById(users, o.userId).value.username))
    ensures forall i, j :: 0 <= i < j < |r| ==> r[i].createdAt >= r[j].createdAt
    ensures multiset(r) == multiset(Joined(users, orders, userId, status))
  {
    var joined := Joined(users, orders, userId, status);
    var r := SortBy(joined, (v: OrderView) => -v.createdAt);
    assert forall v :: v in r <==> v in joined by {
      forall v ensures v in r <==> v in joined {
        assert v in r <==> v in multiset(r);
        assert v in joined <==> v in multiset(joined);
      }
    }
    r
  }

  // =====================================================================
  // the database object

  class Database {
    var users: seq<User>
    var lots: seq<Lot>
    var orders: seq<OrderRow>
    var nextUserId: nat
    var nextLotId: nat
    var nextOrderId: nat

    /** Primary keys are unique and below the AUTOINCREMENT counters; usernames are UNIQUE. */
    ghost predicate Valid()
      reads this
    {
      && UniqueUsers(users) && (forall u :: u in users ==> u.id < nextUserId)
      && UniqueIds(lots) && IdsBelow(lots, nextLotId)
      && UniqueOrderIds(orders) && (forall o :: o in orders ==> o.id < nextOrderId)
    }

    /** `init_db` on a new database file: three empty tables. */
    constructor ()
      ensures Valid()
      ensures users == [] && lots == [] && orders == []
    {
      users, lots, orders := [], [], [];
      nextUserId, nextLotId, nextOrderId := 0, 0, 0;
    }

    /** `add_user`: the INSERT fails on the UNIQUE username (False, nothing
        stored); otherwise one user row with the hashed password is added. */
    method AddUser(username: string, password: string, hash: string -> string) returns (ok: bool)
      requires Valid()
      modifies this
      ensures Valid()
      ensures ok <==> FindUser(old(users), username).None?
      ensures ok ==> users == old(users) + [User(old(nextUserId), username, hash(password))]
      ensures !ok ==> users == old(users)
      ensures lots == old(lots) && orders == old(orders)
      ensures nextLotId == old(nextLotId) && nextOrderId == old(nextOrderId)
    {
      if FindUser(users, username).Some? {
        return false;
      }
      var u := User(nextUserId, username, hash(password));
      assert forall i :: 0 <= i < |users| ==> users[i].username != username by {
        forall i | 0 <= i < |users| ensures users[i].username != username {
          assert users[i] in users;
        }
      }
      assert forall i :: 0 <= i < |users| ==> users[i].id < nextUserId by {
        forall i | 0 <= i < |users| ensures users[i].id < nextUserId {
          assert users[i] in users;
        }
      }
      users := users + [u];
      nextUserId := nextUserId + 1;
      ok := true;
    }

    /** `update_user_password`: every row with the username gets the new hash;
        the result says whether a row was updated. */
    method UpdateUserPassword(username: string, newPassword: string, hash: string -> string) returns (updated: bool)
      requires Valid()
      modifies this
      ensures Valid()
      ensures updated <==> FindUser(old(users), username).Some?
      ensures |users| == |old(users)|
      ensures forall i :: 0 <= i < |users| ==>
        users[i] == if old(users)[i].username == username then old(users)[i].(passwordHash := hash(newPassword)) else old(users)[i]
      ensures lots == old(lots) && orders == old(orders) && nextUserId == old(nextUserId)
      ensures nextLotId == old(nextLotId) && nextOrderId == old(nextOrderId)
    {
      updated := FindUser(users, username).Some?;
      var h := hash(newPassword);
      var before := users;
      var after := seq(|before|, i requires 0 <= i < |before| => if before[i].username == username then before[i].(passwordHash := h) else before[i]);
      assert forall i :: 0 <= i < |after| ==> after[i].id == before[i].id && after[i].username == before[i].username;
      forall i, j | 0 <= i < j < |after| ensures after[i].id != after[j].id && after[i].username != after[j].username {
        assert after[i].id == before[i].id && after[j].id == before[j].id;
      }
      assert forall u :: u in after ==> u.id < nextUserId by {
        forall u | u in after ensures u.id < nextUserId {
          var i :| 0 <= i < |after| && after[i] == u;
          assert before[i] in before;
        }
      }
      users := after;
    }

    /** `add_to_portfolio`. */
    method AddToPortfolio(userId: nat, ticker: string, shares: real, entryPrice: real, purchaseDate: Timestamp)
      requires Valid()
      modifies this
      ensures Valid()
      ensures (lots, nextLotId) == AddLot(old(lots), old(nextLotId), userId, ticker, shares, entryPrice, purchaseDate)
      ensures users == old(users) && orders == old(orders)
      ensures nextUserId == old(nextUserId) && nextOrderId == old(nextOrderId)
    {
      AddLotKeepsIds(lots, nextLotId, userId, ticker, shares, entryPrice, purchaseDate);
      var r := AddLot(lots, nextLotId, userId, ticker, shares, entryPrice, purchaseDate);
      lots, nextLotId := r.0, r.1;
    }

    /** `update_portfolio_after_sell`: walks the selected lots oldest first,
        deleting or reducing them by id while shares remain to be sold. */
    method UpdatePortfolioAfterSell(userId: nat, ticker: string, quantity: real) returns (ok: bool)
      requires Valid()
      modifies this
      ensures Valid()
      ensures (lots, ok) == AfterSell(old(lots), userId, ticker, quantity)
      ensures users == old(users) && orders == old(orders)
      ensures nextUserId == old(nextUserId) && nextLotId == old(nextLotId) && nextOrderId == old(nextOrderId)
    {
      AfterSellKeepsIds(lots, userId, ticker, quantity, nextLotId);
      var table, sold := SellPositions(lots, userId, ticker, quantity);
      assert UniqueIds(table) && IdsBelow(table, nextLotId);
      lots, ok := table, sold;
    }

    /** `add_order_db`: one new pending order stamped with `now`; always True. */
    method AddOrder(userId: nat, ticker: string, side: Side, price: real, quantity: real, now: Timestamp) returns (ok: bool)
      requires Valid()
      modifies this
      ensures Valid() && ok
      ensures orders == old(orders) + [OrderRow(old(nextOrderId), userId, ticker, side, price, quantity, now, Pending)]
      ensures nextOrderId == old(nextOrderId) + 1
      ensures users == old(users) && lots == old(lots)
      ensures nextUserId == old(nextUserId) && nextLotId == old(nextLotId)
    {
      var o := OrderRow(nextOrderId, userId, ticker, side, price, quantity, now, Pending);
      assert forall i :: 0 <= i < |orders| ==> orders[i].id != o.id by {
        forall i | 0 <= i < |orders| ensures orders[i].id != o.id {
          assert orders[i] in orders;
        }
      }
      orders := orders + [o];
      nextOrderId := nextOrderId + 1;
      ok := true;
    }

    /** `update_order_status`. */
    method UpdateOrderStatus(id: nat, status: Status)
      requires Valid()
      modifies this
      ensures Valid()
      ensures orders == SetStatus(old(orders), id, status)
      ensures users == old(users) && lots == old(lots)
      ensures nextUserId == old(nextUserId) && nextLotId == old(nextLotId) && nextOrderId == old(nextOrderId)
    {
      var updated := SetStatus(orders, id, status);
      assert forall o :: o in updated ==> o.id < nextOrderId by {
        forall o | o in updated ensures o.id < nextOrderId {
          var k :| 0 <= k < |updated| && updated[k] == o;
          assert orders[k] in orders;
        }
      }
      orders := updated;
    }

    /** `get_orders`. */
    function GetOrders(userId: Option<nat>, status: Option<Status>): seq<OrderView>
      reads this
    {
      QueryOrders(users, orders, userId, status)
    }
  }

  lemma {:induction false} UniqueSnoc(lots: seq<Lot>, l: Lot)
    requires UniqueIds(lots) && forall m :: m in lots ==> m.id != l.id
    ensures UniqueIds(lots + [l])
  {
    var t := lots + [l];
    forall i, j | 0 <= i < j < |t| ensures t[i].id != t[j].id {
      if j == |lots| {
        assert t[i] == lots[i] && lots[i] in lots;
      } else {
        assert t[i] == lots[i] && t[j] == lots[j];
      }
    }
  }
}
