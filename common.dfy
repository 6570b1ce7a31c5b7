/** Vocabulary shared by every variant of the conditional-order engine:
    the order sides and statuses stored in the order tables, the matching
    rule, the execution record reported by an evaluation pass, the two
    row shapes of the pandas-based stores, and a stable sort used to model
    SQL ORDER BY clauses. */
module Common {

  datatype Option<T> = None | Some(value: T)

  /** The `order_type` column: "buy" or "sell". */
  datatype Side = Buy | Sell

  /** The `status` column: "pending", "executed" or "cancelled". */
  datatype Status = Pending | Executed | Cancelled

  /** Creation times and purchase dates, as an integer count of seconds or days. */
  type Timestamp = int

  /** The matching rule of every evaluation pass: a buy fills at or below
      its target price, a sell at or above it; equality fills. */
  predicate Triggered(side: Side, current: real, target: real)
  {
    match side
    case Buy => current <= target
    case Sell => current >= target
  }

  /** The record an evaluation pass reports for an order it executed:
      the owner, the ticker, the side, the price seen at execution time
      and the order's quantity. */
  datatype Execution = Execution(username: string, ticker: string, side: Side, price: real, quantity: real)

  /** One row of an orders CSV file or of the frame an order manager reads:
      columns username, ticker, order_type, price, quantity, created_at, status. */
  datatype OrderRecord = OrderRecord(
    username: string,
    ticker: string,
    side: Side,
    price: real,
    quantity: real,
    createdAt: Timestamp,
    status: Status)

  /** One row of a portfolio frame: columns Ticker, Anteile (shares),
      Einstiegspreis (entry price), Kaufdatum (purchase date). */
  datatype PositionRow = PositionRow(ticker: string, shares: real, entryPrice: real, purchaseDate: Timestamp)

  /** A Python filter argument that is "truthy": given and not the empty string. */
  predicate Given(name: Option<string>)
  {
    name.Some? && name.value != ""
  }

  // ---------------------------------------------------------------------
  // Stable sort by an integer key (ties keep their input order)

  ghost predicate SortedBy<T>(s: seq<T>, key: T -> int)
  {
    forall i, j :: 0 <= i < j < |s| ==> key(s[i]) <= key(s[j])
  }

  /** Inserts `x` before the first element whose key is not smaller. */
  function Insert<T>(x: T, s: seq<T>, key: T -> int): (r: seq<T>)
    ensures multiset(r) == multiset(s) + multiset{x}
    ensures |r| == |s| + 1
  {
    if s == [] || key(x) <= key(s[0]) then
      [x] + s
    else
      assert s == [s[0]] + s[1..];
      [s[0]] + Insert(x, s[1..], key)
  }

  lemma {:induction false} InsertSorted<T>(x: T, s: seq<T>, key: T -> int)
    requires SortedBy(s, key)
    ensures SortedBy(Insert(x, s, key), key)
  {
    if s != [] && key(x) > key(s[0]) {
      var rest := Insert(x, s[1..], key);
      InsertSorted(x, s[1..], key);
      assert s == [s[0]] + s[1..];
      forall k | 0 <= k < |rest| ensures key(s[0]) <= key(rest[k]) {
        assert rest[k] in multiset(rest);
        if rest[k] != x {
          assert rest[k] in multiset(s[1..]);
          var j :| 0 <= j < |s[1..]| && s[1..][j] == rest[k];
          assert s[j + 1] == rest[k];
        }
      }
      assert Insert(x, s, key) == [s[0]] + rest;
    }
  }

  /** The elements whose sort key is `k`, in their order. */
  function Tied<T>(s: seq<T>, key: T -> int, k: int): seq<T>
  {
    if s == [] then [] else (if key(s[0]) == k then [s[0]] else []) + Tied(s[1..], key, k)
  }

  lemma TiedCons<T>(x: T, s: seq<T>, key: T -> int, k: int)
    ensures Tied([x] + s, key, k) == (if key(x) == k then [x] else []) + Tied(s, key, k)
  {
    assert ([x] + s)[0] == x && ([x] + s)[1..] == s;
  }

  /** Inserting `x` puts it in front of every element of its own key. */
  lemma {:induction false} InsertTied<T>(x: T, s: seq<T>, key: T -> int, k: int)
    ensures Tied(Insert(x, s, key), key, k) == (if key(x) == k then [x] else []) + Tied(s, key, k)
  {
    if s == [] || key(x) <= key(s[0]) {
      TiedCons(x, s, key, k);
    } else {
      assert s == [s[0]] + s[1..];
      InsertTied(x, s[1..], key, k);
      TiedCons(s[0], Insert(x, s[1..], key), key, k);
      TiedCons(s[0], s[1..], key, k);
    }
  }

  /** Insertion sort: a permutation of `s` in ascending key order, in
      which elements of equal key keep their input order. */
  function SortBy<T>(s: seq<T>, key: T -> int): (r: seq<T>)
    ensures multiset(r) == multiset(s)
    ensures |r| == |s|
    ensures SortedBy(r, key)
    ensures forall k :: Tied(r, key, k) == Tied(s, key, k)
  {
    if s == [] then [] else
      assert s == [s[0]] + s[1..];
      var rest := SortBy(s[1..], key);
      InsertSorted(s[0], rest, key);
      assert forall k :: Tied(Insert(s[0], rest, key), key, k) == Tied(s, key, k) by {
        forall k ensures Tied(Insert(s[0], rest, key), key, k) == Tied(s, key, k) {
          InsertTied(s[0], rest, key, k);
          TiedCons(s[0], s[1..], key, k);
        }
      }
      Insert(s[0], rest, key)
  }

  // ---------------------------------------------------------------------
  // Sequences keyed by a string (a ticker)

  predicate HasKey<T>(s: seq<T>, key: T -> string, k: string)
  {
    exists i :: 0 <= i < |s| && key(s[i]) == k
  }

  ghost predicate UniqueKeys<T>(s: seq<T>, key: T -> string)
  {
    forall i, j :: 0 <= i < j < |s| ==> key(s[i]) != key(s[j])
  }

  /** The index of the first element whose key is `k`, if any. */
  function KeyIndex<T>(s: seq<T>, key: T -> string, k: string): (r: Option<nat>)
    ensures r.Some? ==> r.value < |s| && key(s[r.value]) == k && forall j :: 0 <= j < r.value ==> key(s[j]) != k
    ensures r.None? <==> !HasKey(s, key, k)
  {
    if s == [] then None
    else if key(s[0]) == k then Some(0)
    else match KeyIndex(s[1..], key, k)
      case None =>
        assert forall j :: 1 <= j < |s| ==> s[j] == s[1..][j - 1];
        None
      case Some(i) =>
        assert forall j :: 1 <= j < i + 1 ==> s[j] == s[1..][j - 1];
        Some(i + 1)
  }

  /** Two sequences whose keys agree position by position find a key at
      the same index. */
  lemma KeyIndexOfSameKeys<T, U>(s: seq<T>, key: T -> string, t: seq<U>, key2: U -> string, k: string)
    requires |s| == |t| && forall i :: 0 <= i < |s| ==> key(s[i]) == key2(t[i])
    ensures KeyIndex(s, key, k) == KeyIndex(t, key2, k)
  {
    assert forall j :: 0 <= j < |s| ==> (key(s[j]) == k <==> key2(t[j]) == k);
  }

  /** With unique keys, an element's key is found at its own index. */
  lemma UniqueKeyIndex<T>(s: seq<T>, key: T -> string, i: nat)
    requires UniqueKeys(s, key) && i < |s|
    ensures KeyIndex(s, key, key(s[i])) == Some(i)
  {
  }

  /** Replaces the first element that has `x`'s key by `x`, or appends `x`
      when there is none. */
  function Upsert<T>(s: seq<T>, x: T, key: T -> string): seq<T>
  {
    match KeyIndex(s, key, key(x))
    case Some(i) => s[i := x]
    case None => s + [x]
  }

  /** Upserting keeps the keys unique, adds exactly `x`'s key, and leaves
      every element of another key where it was. */
  lemma UpsertEffect<T>(s: seq<T>, x: T, key: T -> string)
    ensures var r := Upsert(s, x, key);
      && (UniqueKeys(s, key) ==> UniqueKeys(r, key))
      && (forall k :: HasKey(r, key, k) <==> HasKey(s, key, k) || k == key(x))
      && KeyIndex(r, key, key(x)).Some? && r[KeyIndex(r, key, key(x)).value] == x
      && (forall i :: 0 <= i < |s| && key(s[i]) != key(x) ==> r[i] == s[i])
      && |r| == if HasKey(s, key, key(x)) then |s| else |s| + 1
  {
    var r := Upsert(s, x, key);
    match KeyIndex(s, key, key(x))
    case Some(i) =>
      assert forall j :: 0 <= j < |r| ==> key(r[j]) == key(s[j]);
      KeyIndexOfSameKeys(r, key, s, key, key(x));
      forall k ensures HasKey(r, key, k) <==> HasKey(s, key, k) || k == key(x) {
        if HasKey(s, key, k) {
          var j :| 0 <= j < |s| && key(s[j]) == k;
          assert key(r[j]) == k;
        }
        if HasKey(r, key, k) {
          var j :| 0 <= j < |r| && key(r[j]) == k;
          assert key(s[j]) == k;
        }
      }
    case None =>
      assert key(r[|s|]) == key(x);
      forall k ensures HasKey(r, key, k) <==> HasKey(s, key, k) || k == key(x) {
        if HasKey(s, key, k) {
          var j :| 0 <= j < |s| && key(s[j]) == k;
          assert key(r[j]) == k;
        }
        if HasKey(r, key, k) {
          var j :| 0 <= j < |r| && key(r[j]) == k;
          if j < |s| {
            assert key(s[j]) == k;
          }
        }
      }
      var i := KeyIndex(r, key, key(x)).value;
      assert i == |s|;
  }

  /** Upserting a new element into a sequence without repetitions gives a
      sequence without repetitions, of old elements and the new one. */
  lemma UpsertDistinct<T>(s: seq<T>, x: T, key: T -> string)
    requires x !in s && forall i, j :: 0 <= i < j < |s| ==> s[i] != s[j]
    ensures var r := Upsert(s, x, key);
      && (forall i, j :: 0 <= i < j < |r| ==> r[i] != r[j])
      && (forall i :: 0 <= i < |r| ==> r[i] in s || r[i] == x)
  {
    var r := Upsert(s, x, key);
    match KeyIndex(s, key, key(x))
    case Some(m) =>
      forall i, j | 0 <= i < j < |r| ensures r[i] != r[j] {
        if i != m && j != m {
          assert r[i] == s[i] && r[j] == s[j];
        } else if i == m {
          assert r[j] == s[j];
        } else {
          assert r[i] == s[i];
        }
      }
    case None =>
  }

  /** The elements whose key is not `k`, in their order (a list
      comprehension with the condition `key != k`). */
  function Without<T>(s: seq<T>, key: T -> string, k: string): seq<T>
  {
    if s == [] then [] else (if key(s[0]) == k then [] else [s[0]]) + Without(s[1..], key, k)
  }

  /** The elements whose key is `k`, in their order. */
  function WithKey<T>(s: seq<T>, key: T -> string, k: string): seq<T>
  {
    if s == [] then [] else (if key(s[0]) == k then [s[0]] else []) + WithKey(s[1..], key, k)
  }

  lemma {:induction false} WithoutAppend<T>(a: seq<T>, b: seq<T>, key: T -> string, k: string)
    ensures Without(a + b, key, k) == Without(a, key, k) + Without(b, key, k)
  {
    if a == [] {
      assert a + b == b;
    } else {
      assert (a + b)[0] == a[0] && (a + b)[1..] == a[1..] + b;
      WithoutAppend(a[1..], b, key, k);
    }
  }

  /** Removal by key keeps exactly the elements of other keys, in order,
      and shortens the sequence exactly when the key was present. */
  lemma {:induction false} WithoutEffect<T>(s: seq<T>, key: T -> string, k: string)
    ensures var r := Without(s, key, k);
      && (forall x :: x in r <==> x in s && key(x) != k)
      && !HasKey(r, key, k)
      && (|r| < |s| <==> HasKey(s, key, k))
      && (!HasKey(s, key, k) ==> r == s)
  {
    if s != [] {
      WithoutEffect(s[1..], key, k);
      var r, t := Without(s, key, k), Without(s[1..], key, k);
      assert s == [s[0]] + s[1..];
      assert forall x :: x in s <==> x == s[0] || x in s[1..];
      if key(s[0]) == k {
        assert r == t;
        assert HasKey(s, key, k);
      } else {
        assert r == [s[0]] + t;
        forall j | 0 <= j < |r| ensures key(r[j]) != k {
          if j > 0 {
            assert r[j] == t[j - 1];
          }
        }
        assert HasKey(s, key, k) ==> HasKey(s[1..], key, k) by {
          if HasKey(s, key, k) {
            var j :| 0 <= j < |s| && key(s[j]) == k;
            assert s[1..][j - 1] == s[j];
          }
        }
        assert HasKey(s[1..], key, k) ==> HasKey(s, key, k) by {
          if HasKey(s[1..], key, k) {
            var j :| 0 <= j < |s[1..]| && key(s[1..][j]) == k;
            assert s[j + 1] == s[1..][j];
          }
        }
      }
    }
  }

  /** The first element of a given key is the one `KeyIndex` finds, and
      there is one exactly when the key is present. */
  lemma {:induction false} WithKeyFirst<T>(s: seq<T>, key: T -> string, k: string)
    ensures var r := WithKey(s, key, k);
      && (|r| > 0 <==> HasKey(s, key, k))
      && (|r| > 0 ==> r[0] == s[KeyIndex(s, key, k).value])
      && (forall x :: x in r ==> x in s && key(x) == k)
  {
    if s != [] {
      WithKeyFirst(s[1..], key, k);
      var r, t := WithKey(s, key, k), WithKey(s[1..], key, k);
      assert forall x :: x in s[1..] ==> x in s;
      if key(s[0]) != k {
        assert r == t;
        assert HasKey(s, key, k) ==> HasKey(s[1..], key, k) by {
          if HasKey(s, key, k) {
            var j :| 0 <= j < |s| && key(s[j]) == k;
            assert s[1..][j - 1] == s[j];
          }
        }
        assert HasKey(s[1..], key, k) ==> HasKey(s, key, k) by {
          if HasKey(s[1..], key, k) {
            var j :| 0 <= j < |s[1..]| && key(s[1..][j]) == k;
            assert s[j + 1] == s[1..][j];
          }
        }
        if |r| > 0 {
          var i := KeyIndex(s[1..], key, k).value;
          assert KeyIndex(s, key, k) == Some(i + 1);
        }
      } else {
        assert r == [s[0]] + t;
        assert key(s[0]) == k;
      }
    }
  }

  /** Selection by key keeps exactly the elements of that key, and no more
      of them than there are. */
  lemma {:induction false} WithKeyMembers<T>(s: seq<T>, key: T -> string, k: string)
    ensures forall x :: x in WithKey(s, key, k) <==> x in s && key(x) == k
    ensures |WithKey(s, key, k)| <= |s|
  {
    if s != [] {
      WithKeyMembers(s[1..], key, k);
      assert s == [s[0]] + s[1..];
      assert forall x :: x in s <==> x == s[0] || x in s[1..];
    }
  }
}
