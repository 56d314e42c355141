/**
 * The database the repositories share: the barista, coffee and order
 * tables and the order_coffee pair table.
 *
 * Each table is a map from id to row plus the list of its ids in the order
 * a scan returns them. The SQL has no ORDER BY; the model keeps insertion
 * order and claims nothing about it beyond "a page is a slice of a scan".
 * Ids come from a per-table counter: the model relies only on their being
 * fresh and non-negative.
 */
module Store {
  import opened Wrappers
  import opened Values
  import opened Seqs
  import Exceptions

  /** keys lists every id of m exactly once, each below the next id to hand out. */
  ghost predicate Indexed<T>(m: map<int, T>, keys: seq<int>, next: int)
  {
    && 0 <= next
    && (forall i :: 0 <= i < |keys| ==> keys[i] in m && 0 <= keys[i] < next)
    && (forall k :: k in m ==> k in keys)
    && Distinct(keys)
  }

  /** The rows of a table, in scan order. */
  function Rows<T>(m: map<int, T>, keys: seq<int>): (r: seq<T>)
    requires forall i :: 0 <= i < |keys| ==> keys[i] in m
    ensures |r| == |keys|
    ensures forall i :: 0 <= i < |keys| ==> r[i] == m[keys[i]]
  {
    seq(|keys|, i requires 0 <= i < |keys| => m[keys[i]])
  }

  /** A scan returns exactly the rows stored in the table, each under its own id. */
  lemma RowsAreStored<T>(m: map<int, T>, keys: seq<int>, next: int, id: T -> int)
    requires Indexed(m, keys, next)
    requires forall k :: k in m ==> id(m[k]) == k
    ensures forall x :: x in Rows(m, keys) <==> id(x) in m && m[id(x)] == x
  {
    var r := Rows(m, keys);
    forall x | id(x) in m && m[id(x)] == x ensures x in r {
      var i :| 0 <= i < |keys| && keys[i] == id(x);
      assert r[i] == x;
    }
  }

  /** OFFSET page*limit LIMIT limit over a scan. */
  function Page<T>(rows: seq<T>, page: nat, limit: nat): (r: seq<T>)
    requires limit > 0
    ensures |r| == if page * limit >= |rows| then 0
                   else if |rows| - page * limit < limit then |rows| - page * limit
                   else limit
    ensures forall i :: 0 <= i < |r| ==> r[i] == rows[page * limit + i]
  {
    var from := page * limit;
    if from >= |rows| then []
    else if |rows| - from < limit then rows[from..]
    else rows[from..from + limit]
  }

  /** Every row of a scan shows up in exactly one page: page i / limit, at position i % limit. */
  lemma PageHolds<T>(rows: seq<T>, limit: nat, i: nat)
    requires limit > 0 && i < |rows|
    ensures i % limit < |Page(rows, i / limit, limit)|
    ensures Page(rows, i / limit, limit)[i % limit] == rows[i]
  {
    var p := i / limit;
    assert i == p * limit + i % limit;
  }

  /** Pages tile the scan: each page continues where the previous one stopped. */
  lemma {:induction false} PagesTile<T>(rows: seq<T>, limit: nat, n: nat)
    requires limit > 0 && n * limit <= |rows|
    ensures Pages(rows, limit, n) == rows[..n * limit]
  {
    if n > 0 {
      PagesTile(rows, limit, n - 1);
      var p := Page(rows, n - 1, limit);
      assert (n - 1) * limit + limit == n * limit;
      assert p == rows[(n - 1) * limit .. n * limit];
      assert rows[..n * limit] == rows[..(n - 1) * limit] + rows[(n - 1) * limit .. n * limit];
    }
  }

  /** The first n pages, concatenated. */
  function Pages<T>(rows: seq<T>, limit: nat, n: nat): seq<T>
    requires limit > 0
  {
    if n == 0 then [] else Pages(rows, limit, n - 1) + Page(rows, n - 1, limit)
  }

  /** Inserting under the next id keeps a table indexed. */
  lemma IndexedInsert<T>(m: map<int, T>, keys: seq<int>, next: int, x: T)
    requires Indexed(m, keys, next)
    ensures next !in m
    ensures Indexed(m[next := x], keys + [next], next + 1)
  {
    var m', keys' := m[next := x], keys + [next];
    forall i, j | 0 <= i < j < |keys'| ensures keys'[i] != keys'[j] {
      if j == |keys| {
        assert keys'[i] == keys[i] && keys[i] < next;
      }
    }
    forall k | k in m' ensures k in keys' {
      if k == next {
        assert keys'[|keys|] == k;
      } else {
        assert k in keys;
        var i :| 0 <= i < |keys| && keys[i] == k;
        assert keys'[i] == k;
      }
    }
  }

  /** Rewriting a present row keeps a table indexed. */
  lemma IndexedUpdate<T>(m: map<int, T>, keys: seq<int>, next: int, k: int, x: T)
    requires Indexed(m, keys, next) && k in m
    ensures Indexed(m[k := x], keys, next)
  {
  }

  /** Deleting a row and its key keeps a table indexed. */
  lemma IndexedRemove<T>(m: map<int, T>, keys: seq<int>, next: int, k: int)
    requires Indexed(m, keys, next)
    ensures Indexed(m - {k}, Remove(keys, k), next)
  {
    var keys' := Remove(keys, k);
    forall i | 0 <= i < |keys'| ensures keys'[i] in m - {k} && 0 <= keys'[i] < next {
      assert keys'[i] in keys';
    }
  }

  /** The repositories' paging checks: the limit first, then the page. */
  function PageArgsError(page: int, limit: int): (o: Exceptions.Outcome)
    ensures o.Pass? <==> page >= 0 && limit > 0
    ensures limit <= 0 ==> o == Exceptions.Fail(Exceptions.NoValidLimit)
    ensures limit > 0 && page < 0 ==> o == Exceptions.Fail(Exceptions.NoValidPage)
  {
    if limit <= 0 then Exceptions.Fail(Exceptions.NoValidLimit)
    else if page < 0 then Exceptions.Fail(Exceptions.NoValidPage)
    else Exceptions.Pass
  }

  /** The services' paging checks: the page first, then the limit. */
  function PageError(page: int, limit: int): (o: Exceptions.Outcome)
    ensures o.Pass? <==> page >= 0 && limit > 0
    ensures page < 0 ==> o == Exceptions.Fail(Exceptions.NoValidPage)
    ensures page >= 0 && limit <= 0 ==> o == Exceptions.Fail(Exceptions.NoValidLimit)
  {
    if page < 0 then Exceptions.Fail(Exceptions.NoValidPage)
    else if limit <= 0 then Exceptions.Fail(Exceptions.NoValidLimit)
    else Exceptions.Pass
  }

  /** A negative page with a bad limit is reported as a bad page by the services and as a bad limit by the repositories. */
  lemma PagingChecksDisagree()
    ensures PageError(-1, 0) == Exceptions.Fail(Exceptions.NoValidPage)
    ensures PageArgsError(-1, 0) == Exceptions.Fail(Exceptions.NoValidLimit)
  {
  }

  predicate StoredBarista(b: BaristaRow)
  {
    |b.fullName| > 0 && b.tipSize >= 0.0
  }

  predicate StoredCoffee(c: CoffeeRow)
  {
    |c.name| > 0 && c.price >= 0.0
  }

  predicate StoredOrder(o: OrderRow)
  {
    && o.baristaId != UNASSIGNED_ID && o.price >= 0.0
    && (o.completed.Some? ==> o.created <= o.completed.value)
  }

  class Db {
    var baristas: map<int, BaristaRow>
    var baristaKeys: seq<int>
    var nextBaristaId: int
    var coffees: map<int, CoffeeRow>
    var coffeeKeys: seq<int>
    var nextCoffeeId: int
    var orders: map<int, OrderRow>
    var orderKeys: seq<int>
    var nextOrderId: int
    /** order_coffee rows: (order id, coffee id). */
    var pairs: set<(int, int)>

    ghost predicate Valid()
      reads this
    {
      && Indexed(baristas, baristaKeys, nextBaristaId)
      && Indexed(coffees, coffeeKeys, nextCoffeeId)
      && Indexed(orders, orderKeys, nextOrderId)
      && (forall k :: k in baristas ==> baristas[k].id == k && StoredBarista(baristas[k]))
      && (forall k :: k in coffees ==> coffees[k].id == k && StoredCoffee(coffees[k]))
      && (forall k :: k in orders ==> orders[k].id == k && StoredOrder(orders[k]))
    }

    /** Every pair names an existing order and an existing coffee. */
    ghost predicate PairsResolve()
      reads this
    {
      forall p :: p in pairs ==> p.0 in orders && p.1 in coffees
    }

    constructor ()
      ensures Valid() && PairsResolve()
      ensures baristas == map[] && coffees == map[] && orders == map[] && pairs == {}
    {
      baristas, baristaKeys, nextBaristaId := map[], [], 0;
      coffees, coffeeKeys, nextCoffeeId := map[], [], 0;
      orders, orderKeys, nextOrderId := map[], [], 0;
      pairs := {};
    }

    /** SELECT ... FROM barista */
    function BaristaScan(): (r: seq<BaristaRow>)
      reads this
      requires Valid()
      ensures forall b :: b in r <==> b.id in baristas && baristas[b.id] == b
      ensures forall i, j :: 0 <= i < j < |r| ==> r[i].id != r[j].id
      ensures Distinct(r)
    {
      RowsAreStored(baristas, baristaKeys, nextBaristaId, (b: BaristaRow) => b.id);
      DistinctRows(baristas, baristaKeys, nextBaristaId, (b: BaristaRow) => b.id);
      Rows(baristas, baristaKeys)
    }

    /** SELECT ... FROM coffee */
    function CoffeeScan(): (r: seq<CoffeeRow>)
      reads this
      requires Valid()
      ensures forall c :: c in r <==> c.id in coffees && coffees[c.id] == c
      ensures forall i, j :: 0 <= i < j < |r| ==> r[i].id != r[j].id
      ensures Distinct(r)
    {
      RowsAreStored(coffees, coffeeKeys, nextCoffeeId, (c: CoffeeRow) => c.id);
      DistinctRows(coffees, coffeeKeys, nextCoffeeId, (c: CoffeeRow) => c.id);
      Rows(coffees, coffeeKeys)
    }

    /** SELECT ... FROM "order" */
    function OrderScan(): (r: seq<OrderRow>)
      reads this
      requires Valid()
      ensures forall o :: o in r <==> o.id in orders && orders[o.id] == o
      ensures forall i, j :: 0 <= i < j < |r| ==> r[i].id != r[j].id
      ensures Distinct(r)
    {
      RowsAreStored(orders, orderKeys, nextOrderId, (o: OrderRow) => o.id);
      DistinctRows(orders, orderKeys, nextOrderId, (o: OrderRow) => o.id);
      Rows(orders, orderKeys)
    }
  }

  /** Every stored id was handed out by a counter starting at 0. */
  lemma IdsNatural(db: Db)
    requires db.Valid()
    ensures forall k :: k in db.baristas ==> k >= 0
    ensures forall k :: k in db.coffees ==> k >= 0
    ensures forall k :: k in db.orders ==> k >= 0
  {
    forall k | k in db.orders ensures k >= 0 {
      var i :| 0 <= i < |db.orderKeys| && db.orderKeys[i] == k;
    }
    forall k | k in db.coffees ensures k >= 0 {
      var i :| 0 <= i < |db.coffeeKeys| && db.coffeeKeys[i] == k;
    }
    forall k | k in db.baristas ensures k >= 0 {
      var i :| 0 <= i < |db.baristaKeys| && db.baristaKeys[i] == k;
    }
  }

  /** Rows keyed by their own id, listed once per id, are pairwise distinct. */
  lemma DistinctRows<T>(m: map<int, T>, keys: seq<int>, next: int, id: T -> int)
    requires Indexed(m, keys, next)
    requires forall k :: k in m ==> id(m[k]) == k
    ensures forall i, j :: 0 <= i < j < |Rows(m, keys)| ==> id(Rows(m, keys)[i]) != id(Rows(m, keys)[j])
    ensures Distinct(Rows(m, keys))
  {
    var r := Rows(m, keys);
    forall i, j | 0 <= i < j < |r| ensures id(r[i]) != id(r[j]) {
      assert id(r[i]) == keys[i] && id(r[j]) == keys[j];
    }
  }
}
