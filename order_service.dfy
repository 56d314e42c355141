/**
 * service/imp/OrderService.java: pricing, the order-coffee links, the
 * open-order queue and completion, over the shared database.
 */
module OrderService {
  import opened Wrappers
  import opened Exceptions
  import opened Values
  import opened Seqs
  import opened IdLists
  import opened Store
  import opened Dto
  import opened OrderEntity
  import ManyToManyRepository
  import OrderRepository
  import CoffeeRepository
  import BaristaRepository
  import OrderDtoToOrderMapper

  // ---------------------------------------------------------------------
  // Pricing
  // ---------------------------------------------------------------------

  /** The coffees' prices summed, as the stream reduce from 0.0 does. */
  function Total(coffees: seq<CoffeeRow>): (r: real)
    ensures (forall i :: 0 <= i < |coffees| ==> coffees[i].price >= 0.0) ==> r >= 0.0
  {
    if |coffees| == 0 then 0.0
    else
      assert forall i :: 1 <= i < |coffees| ==> coffees[1..][i - 1] == coffees[i];
      coffees[0].price + Total(coffees[1..])
  }

  /** An order of two coffee lists costs what the two cost apart. */
  lemma {:induction false} TotalAppend(a: seq<CoffeeRow>, b: seq<CoffeeRow>)
    ensures Total(a + b) == Total(a) + Total(b)
  {
    if |a| > 0 {
      assert (a + b)[1..] == a[1..] + b;
      TotalAppend(a[1..], b);
    } else {
      assert a + b == b;
    }
  }

  /** The same coffees listed in another order cost the same. */
  lemma {:induction false} TotalPermutation(a: seq<CoffeeRow>, b: seq<CoffeeRow>)
    requires multiset(a) == multiset(b)
    ensures Total(a) == Total(b)
  {
    if |a| > 0 {
      var x := a[0];
      assert x in multiset(b);
      var k :| 0 <= k < |b| && b[k] == x;
      var rest := b[..k] + b[k + 1..];
      assert b == b[..k] + [x] + b[k + 1..];
      assert a == [x] + a[1..];
      assert multiset(b) == multiset(b[..k]) + multiset{x} + multiset(b[k + 1..]);
      assert multiset(rest) == multiset(b[..k]) + multiset(b[k + 1..]);
      assert multiset(a) == multiset{x} + multiset(a[1..]);
      forall y ensures multiset(a[1..])[y] == multiset(rest)[y] {
        assert multiset(a)[y] == multiset{x}[y] + multiset(a[1..])[y];
        assert multiset(b)[y] == multiset(b[..k])[y] + multiset{x}[y] + multiset(b[k + 1..])[y];
        assert multiset(rest)[y] == multiset(b[..k])[y] + multiset(b[k + 1..])[y];
      }
      assert multiset(a[1..]) == multiset(rest);
      TotalPermutation(a[1..], rest);
      TotalAppend(b[..k] + [x], b[k + 1..]);
      TotalAppend(b[..k], [x]);
      TotalAppend(b[..k], b[k + 1..]);
      assert Total([x]) == x.price;
    }
  }

  /** price = (sum of the coffees' prices) * (1 + barista's tip). */
  function OrderPrice(coffees: seq<CoffeeRow>, tipSize: real): (r: real)
    ensures tipSize >= 0.0 && (forall i :: 0 <= i < |coffees| ==> coffees[i].price >= 0.0) ==>
              r >= Total(coffees) >= 0.0
    ensures tipSize == 0.0 ==> r == Total(coffees)
  {
    var sum := Total(coffees);
    assert sum * (1.0 + tipSize) == sum + sum * tipSize;
    sum * (1.0 + tipSize)
  }

  // ---------------------------------------------------------------------
  // The open-order queue
  // ---------------------------------------------------------------------

  predicate SortedByCreated(s: seq<OrderRow>)
  {
    forall i, j :: 0 <= i < j < |s| ==> s[i].created <= s[j].created
  }

  /** The orders created at instant t, in their order in s. */
  function Tied(s: seq<OrderRow>, t: Instant): (r: seq<OrderRow>)
    ensures forall o :: o in r ==> o in s && o.created == t
  {
    if |s| == 0 then []
    else if s[0].created == t then [s[0]] + Tied(s[1..], t)
    else Tied(s[1..], t)
  }

  lemma TiedCons(a: OrderRow, u: seq<OrderRow>, t: Instant)
    ensures Tied([a] + u, t) == (if a.created == t then [a] else []) + Tied(u, t)
  {
    assert ([a] + u)[1..] == u;
  }

  /** One step of a stable sort: x goes before the first order not created earlier than it. */
  function InsertByCreated(x: OrderRow, s: seq<OrderRow>): (r: seq<OrderRow>)
    ensures multiset(r) == multiset(s) + multiset{x}
    ensures |r| > 0 && (r[0] == x || (|s| > 0 && r[0] == s[0]))
    ensures forall y :: y in r <==> y == x || y in s
  {
    if |s| == 0 || x.created <= s[0].created then [x] + s
    else
      assert s == [s[0]] + s[1..];
      [s[0]] + InsertByCreated(x, s[1..])
  }

  lemma {:induction false} InsertSorted(x: OrderRow, s: seq<OrderRow>)
    requires SortedByCreated(s)
    ensures SortedByCreated(InsertByCreated(x, s))
  {
    if |s| > 0 && x.created > s[0].created {
      var rest := InsertByCreated(x, s[1..]);
      InsertSorted(x, s[1..]);
      var r := [s[0]] + rest;
      assert r == InsertByCreated(x, s);
      assert forall y :: y in s[1..] ==> s[0].created <= y.created by {
        forall y | y in s[1..] ensures s[0].created <= y.created {
          var k :| 0 <= k < |s[1..]| && s[1..][k] == y;
          assert s[k + 1] == y;
        }
      }
      forall i, j | 0 <= i < j < |r| ensures r[i].created <= r[j].created {
        if i == 0 {
          assert r[j] in rest;
        } else {
          assert r[i] == rest[i - 1] && r[j] == rest[j - 1];
        }
      }
    }
  }

  /** Inserting keeps, for every instant, the orders created then in the order [x] + s lists them. */
  lemma {:induction false} InsertStable(x: OrderRow, s: seq<OrderRow>, t: Instant)
    ensures Tied(InsertByCreated(x, s), t) == Tied([x] + s, t)
  {
    if |s| > 0 && x.created > s[0].created {
      var rest := InsertByCreated(x, s[1..]);
      InsertStable(x, s[1..], t);
      assert s == [s[0]] + s[1..];
      TiedCons(s[0], rest, t);
      TiedCons(x, s[1..], t);
      TiedCons(x, s, t);
      TiedCons(s[0], s[1..], t);
    }
  }

  /** Stream.sorted(comparing(created)): an insertion sort, which is stable. */
  function SortByCreated(s: seq<OrderRow>): (r: seq<OrderRow>)
    ensures SortedByCreated(r)
    ensures multiset(r) == multiset(s)
    ensures forall t :: Tied(r, t) == Tied(s, t)
  {
    if |s| == 0 then []
    else
      var rest := SortByCreated(s[1..]);
      assert s == [s[0]] + s[1..];
      var r := InsertByCreated(s[0], rest);
      InsertSorted(s[0], rest);
      forall t ensures Tied(r, t) == Tied(s, t) {
        InsertStable(s[0], rest, t);
        TiedCons(s[0], rest, t);
        TiedCons(s[0], s[1..], t);
      }
      r
  }

  /**
   * getOrderQueue's rows: exactly the orders without a completion, oldest
   * creation first; orders created at the same instant keep their scan order.
   */
  function Queue(orders: seq<OrderRow>): (r: seq<OrderRow>)
    ensures forall o :: o in r <==> o in orders && o.completed.None?
    ensures SortedByCreated(r)
    ensures forall t :: Tied(r, t) == Tied(Filter(orders, (o: OrderRow) => o.completed.None?), t)
    ensures Distinct(orders) ==> Distinct(r)
  {
    var open := Filter(orders, (o: OrderRow) => o.completed.None?);
    var r := SortByCreated(open);
    assert forall o :: o in r <==> o in open by {
      forall o ensures o in r <==> o in open {
        assert o in r <==> o in multiset(r);
      }
    }
    assert Distinct(orders) ==> Distinct(r) by {
      if Distinct(orders) {
        forall i, j | 0 <= i < j < |r| ensures r[i] != r[j] {
          MultisetDistinct(open, r, i, j);
        }
      }
    }
    r
  }

  /** A permutation of a sequence without repeats has none either. */
  lemma MultisetDistinct(s: seq<OrderRow>, r: seq<OrderRow>, i: int, j: int)
    requires Distinct(s) && multiset(r) == multiset(s) && 0 <= i < j < |r|
    ensures r[i] != r[j]
  {
    if r[i] == r[j] {
      var x := r[i];
      assert multiset(r)[x] >= 2 by {
        assert r == r[..i] + [x] + r[i + 1..j] + [x] + r[j + 1..];
      }
      DistinctOnce(s, x);
      assert false;
    }
  }

  lemma {:induction false} DistinctOnce(s: seq<OrderRow>, x: OrderRow)
    requires Distinct(s)
    ensures multiset(s)[x] <= 1
  {
    if |s| > 0 {
      assert s == [s[0]] + s[1..];
      assert Distinct(s[1..]) by {
        forall i, j | 0 <= i < j < |s[1..]| ensures s[1..][i] != s[1..][j] {
          assert s[1..][i] == s[i + 1] && s[1..][j] == s[j + 1];
        }
      }
      DistinctOnce(s[1..], x);
      if s[0] == x {
        assert x !in s[1..] by {
          forall k | 0 <= k < |s[1..]| ensures s[1..][k] != x {
            assert s[1..][k] == s[k + 1];
          }
        }
      }
    }
  }

  // ---------------------------------------------------------------------
  // Links between an order and its coffees
  // ---------------------------------------------------------------------

  /** An order as the finders return it: its row and the coffees paired with it. */
  datatype OrderDetail = OrderDetail(order: OrderRow, coffees: seq<CoffeeRow>)

  function Ids(coffees: seq<CoffeeRow>): set<int>
  {
    set c | c in coffees :: c.id
  }

  /** The pairs linking order orderId to each of the coffees. */
  function Links(orderId: int, coffees: seq<CoffeeRow>): set<(int, int)>
  {
    set c | c in coffees :: (orderId, c.id)
  }

  /** coffeeRepository.findByOrderId: the coffees paired with the order. */
  function LinkedCoffees(db: Db, orderId: int): (r: seq<CoffeeRow>)
    reads db
    requires db.Valid() && orderId >= 0
    ensures forall c :: c in r <==> c.id in db.coffees && db.coffees[c.id] == c && (orderId, c.id) in db.pairs
    ensures Distinct(r)
  {
    CoffeeRepository.FindByOrderId(db, Some(orderId)).value
  }

  /** addReference(orderId, coffee.getId()) for each coffee in turn. */
  method AddCoffeeLinks(db: Db, orderId: int, coffees: seq<CoffeeRow>)
    requires db.Valid() && orderId in db.orders
    requires forall i :: 0 <= i < |coffees| ==> coffees[i].id in db.coffees
    modifies db`pairs
    ensures db.Valid()
    ensures db.pairs == old(db.pairs) + Links(orderId, coffees)
    ensures old(db.PairsResolve()) ==> db.PairsResolve()
  {
    IdsNatural(db);
    var i := 0;
    while i < |coffees|
      invariant 0 <= i <= |coffees| && db.Valid()
      invariant db.pairs == old(db.pairs) + Links(orderId, coffees[..i])
      invariant old(db.PairsResolve()) ==> db.PairsResolve()
    {
      var added := ManyToManyRepository.AddReference(db, Some(orderId), Some(coffees[i].id));
      assert coffees[..i + 1] == coffees[..i] + [coffees[i]];
      assert Links(orderId, coffees[..i + 1]) == Links(orderId, coffees[..i]) + {(orderId, coffees[i].id)};
      i := i + 1;
    }
    assert coffees[..i] == coffees;
  }

  /** deleteReference(orderId, coffee.getId()) for each coffee in turn. */
  method RemoveCoffeeLinks(db: Db, orderId: int, coffees: seq<CoffeeRow>)
    requires db.Valid() && orderId >= 0
    requires forall i :: 0 <= i < |coffees| ==> coffees[i].id in db.coffees
    modifies db`pairs
    ensures db.Valid()
    ensures db.pairs == old(db.pairs) - Links(orderId, coffees)
    ensures old(db.PairsResolve()) ==> db.PairsResolve()
  {
    IdsNatural(db);
    var i := 0;
    while i < |coffees|
      invariant 0 <= i <= |coffees| && db.Valid()
      invariant db.pairs == old(db.pairs) - Links(orderId, coffees[..i])
      invariant old(db.PairsResolve()) ==> db.PairsResolve()
    {
      var removed := ManyToManyRepository.DeleteReference(db, Some(orderId), Some(coffees[i].id));
      assert coffees[..i + 1] == coffees[..i] + [coffees[i]];
      assert Links(orderId, coffees[..i + 1]) == Links(orderId, coffees[..i]) + {(orderId, coffees[i].id)};
      i := i + 1;
    }
    assert coffees[..i] == coffees;
  }

  /** coffees.removeAll(other): the coffees whose id does not occur in other (Coffee.equals compares ids). */
  function RemoveAll(coffees: seq<CoffeeRow>, other: seq<CoffeeRow>): (r: seq<CoffeeRow>)
    ensures forall c :: c in r <==> c in coffees && c.id !in Ids(other)
  {
    assert KeySet(other, CoffeeId) == Ids(other);
    RemoveAllByKey(coffees, other, CoffeeId)
  }

  /**
   * Detaching the stale links and then attaching every supplied coffee
   * leaves the order paired with exactly the supplied coffees, when every
   * pair of the order named a stored coffee.
   */
  lemma Reconciled(pairs: set<(int, int)>, coffees: map<int, CoffeeRow>, orderId: int,
                   linked: seq<CoffeeRow>, supplied: seq<CoffeeRow>)
    requires forall c :: (orderId, c) in pairs ==> c in coffees
    requires forall k :: k in coffees ==> coffees[k].id == k
    requires forall c :: c in linked <==> c.id in coffees && coffees[c.id] == c && (orderId, c.id) in pairs
    ensures forall c :: (orderId, c) in (pairs - Links(orderId, RemoveAll(linked, supplied))) + Links(orderId, supplied)
                        <==> c in Ids(supplied)
  {
    var after := (pairs - Links(orderId, RemoveAll(linked, supplied))) + Links(orderId, supplied);
    forall c | (orderId, c) in after ensures c in Ids(supplied) {
      if (orderId, c) !in Links(orderId, supplied) {
        var row := coffees[c];
        assert row in linked;
        assert row !in RemoveAll(linked, supplied);
      } else {
        var x :| x in supplied && (orderId, x.id) == (orderId, c);
      }
    }
    forall c | c in Ids(supplied) ensures (orderId, c) in after {
      var x :| x in supplied && x.id == c;
      assert (orderId, x.id) in Links(orderId, supplied);
    }
  }

  // ---------------------------------------------------------------------
  // Use cases
  // ---------------------------------------------------------------------

  /** Rows a mapping resolved are stored rows: assigned ids, valid prices and tip. */
  lemma ResolvedStored(db: Db, barista: BaristaRow, coffees: seq<CoffeeRow>)
    requires db.Valid()
    requires barista.id in db.baristas && db.baristas[barista.id] == barista
    requires forall i :: 0 <= i < |coffees| ==> coffees[i].id in db.coffees && db.coffees[coffees[i].id] == coffees[i]
    ensures barista.id >= 0 && barista.tipSize >= 0.0
    ensures forall i :: 0 <= i < |coffees| ==> coffees[i].price >= 0.0 && coffees[i].id >= 0
    ensures OrderPrice(coffees, barista.tipSize) >= 0.0
  {
    IdsNatural(db);
  }

  /** The rows map(IOrderCreateDTO) and map(IOrderUpdateDTO) resolve are stored rows. */
  lemma ResolvedRowsStored(db: Db, barista: BaristaRow, coffees: seq<CoffeeRow>, baristaId: Option<int>, ids: seq<int>)
    requires db.Valid()
    requires BaristaRepository.FindExisting(db, baristaId) == Success(barista)
    requires forall i :: 0 <= i < |ids| ==> ids[i] in db.coffees
    requires |coffees| == |ids| && forall i :: 0 <= i < |coffees| ==> coffees[i] == db.coffees[ids[i]]
    ensures barista.id in db.baristas && db.baristas[barista.id] == barista
    ensures forall i :: 0 <= i < |coffees| ==> coffees[i].id in db.coffees && db.coffees[coffees[i].id] == coffees[i]
  {
    forall i | 0 <= i < |coffees|
      ensures coffees[i].id in db.coffees && db.coffees[coffees[i].id] == coffees[i]
    {
      assert db.coffees[ids[i]].id == ids[i];
    }
  }

  /**
   * create: the mapped order, priced from its coffees and its barista's tip
   * and stamped with the current instant, is inserted; then one pair per
   * coffee is added under the new id.
   */
  method Create(db: Db, dto: Option<OrderCreateDto>, now: Instant) returns (r: Result<Order>)
    requires db.Valid()
    modifies db`orders, db`orderKeys, db`nextOrderId, db`pairs
    ensures db.Valid()
    ensures old(db.PairsResolve()) ==> db.PairsResolve()
    ensures dto.None? ==> r == Failure(NullParam)
    ensures r.Success? <==> old(OrderDtoToOrderMapper.ResolveCreate(db, dto)).Success?
    ensures r.Failure? ==>
              && r.error == old(OrderDtoToOrderMapper.ResolveCreate(db, dto)).error
              && db.orders == old(db.orders) && db.orderKeys == old(db.orderKeys) && db.pairs == old(db.pairs)
    ensures r.Success? ==>
              var (barista, coffees) := old(OrderDtoToOrderMapper.ResolveCreate(db, dto)).value;
              && fresh(r.value) && r.value.id == old(db.nextOrderId) && r.value.id !in old(db.orders)
              && r.value.barista == barista && r.value.coffeeList == coffees
              && r.value.created == Some(now) && r.value.completed.None?
              && r.value.price == OrderPrice(coffees, barista.tipSize)
              && db.orders == old(db.orders)[r.value.id := OrderRow(r.value.id, barista.id, now, None, r.value.price)]
              && db.pairs == old(db.pairs) + Links(r.value.id, coffees)
  {
    if dto.None? {
      return Failure(NullParam);
    }
    var order :- OrderDtoToOrderMapper.MapCreate(db, dto);
    ResolvedRowsStored(db, order.barista, order.coffeeList, dto.value.baristaId, dto.value.coffeeIdList.value);
    ResolvedStored(db, order.barista, order.coffeeList);
    var price := OrderPrice(order.coffeeList, order.barista.tipSize);
    var priced := order.SetPrice(Some(Finite(price)));
    var stamped := order.SetCreated(Some(now));
    var saved := OrderRepository.Create(db, order);
    var stored := saved.value;
    AddCoffeeLinks(db, stored.id, stored.coffeeList);
    return Success(stored);
  }

  /** What update refuses: the mapping's errors, then the repository's null creation and missing row. */
  function UpdateError(db: Db, dto: Option<OrderUpdateDto>): (o: Outcome)
    reads db
    requires db.Valid()
    ensures o.Pass? <==> OrderDtoToOrderMapper.ResolveUpdate(db, dto).Success?
                         && dto.value.created.Some? && dto.value.id.value in db.orders
    ensures OrderDtoToOrderMapper.ResolveUpdate(db, dto).Failure? ==>
              o == Fail(OrderDtoToOrderMapper.ResolveUpdate(db, dto).error)
    ensures (OrderDtoToOrderMapper.ResolveUpdate(db, dto).Success? && dto.value.created.Some?
             && dto.value.id.value !in db.orders) ==> o == Fail(OrderNotFound([dto.value.id.value]))
  {
    var resolved := OrderDtoToOrderMapper.ResolveUpdate(db, dto);
    if resolved.Failure? then Fail(resolved.error)
    else if dto.value.created.None? then Fail(NullParam)
    else if dto.value.id.value !in db.orders then Fail(OrderNotFound([dto.value.id.value]))
    else Pass
  }

  /**
   * update: the mapped order is repriced and written; the pairs of coffees
   * no longer listed are deleted and every listed coffee is (re)added. The
   * returned order's own list is cut down by removeAll to the coffees that
   * were not linked before.
   */
  method Update(db: Db, dto: Option<OrderUpdateDto>) returns (r: Result<Order>)
    requires db.Valid()
    modifies db`orders, db`pairs
    ensures db.Valid()
    ensures old(db.PairsResolve()) ==> db.PairsResolve()
    ensures dto.None? ==> r == Failure(NullParam)
    ensures r.Success? <==> old(UpdateError(db, dto)).Pass?
    ensures r.Failure? ==> old(UpdateError(db, dto)) == Fail(r.error)
                           && db.orders == old(db.orders) && db.pairs == old(db.pairs)
    ensures r.Success? ==>
              var (barista, coffees) := old(OrderDtoToOrderMapper.ResolveUpdate(db, dto)).value;
              var id := dto.value.id.value;
              && fresh(r.value) && r.value.id == id && r.value.barista == barista
              && r.value.created == dto.value.created && r.value.completed == dto.value.completed
              && r.value.price == OrderPrice(coffees, barista.tipSize)
              && db.orders == old(db.orders)[id := OrderRow(id, barista.id, dto.value.created.value,
                                                             dto.value.completed, r.value.price)]
              && (forall c :: c in r.value.coffeeList <==> c in coffees && (id, c.id) !in old(db.pairs))
              && (forall p: (int, int) :: p.0 != id ==> (p in db.pairs <==> p in old(db.pairs)))
              && (forall c :: c in Ids(coffees) ==> (id, c) in db.pairs)
              && (old(db.PairsResolve()) ==> forall c :: (id, c) in db.pairs <==> c in Ids(coffees))
  {
    if dto.None? {
      return Failure(NullParam);
    }
    var order :- OrderDtoToOrderMapper.MapUpdate(db, dto);
    ResolvedRowsStored(db, order.barista, order.coffeeList, dto.value.baristaId, dto.value.coffeeIdList.value);
    ResolvedStored(db, order.barista, order.coffeeList);
    var price := OrderPrice(order.coffeeList, order.barista.tipSize);
    var priced := order.SetPrice(Some(Finite(price)));
    var saved :- OrderRepository.Update(db, order);
    var unlinked := ReconcileCoffeeLinks(db, saved.id, saved.coffeeList);
    var trimmed := saved.SetCoffeeList(Some(unlinked));
    return Success(saved);
  }

  /**
   * update's link reconciliation: the pairs of linked coffees that are not
   * supplied are deleted, then every supplied coffee is added. Returns the
   * supplied coffees that were not linked before, what removeAll leaves in
   * the entity's own list.
   */
  method ReconcileCoffeeLinks(db: Db, orderId: int, supplied: seq<CoffeeRow>) returns (unlinked: seq<CoffeeRow>)
    requires db.Valid() && orderId in db.orders
    requires forall i :: 0 <= i < |supplied| ==> supplied[i].id in db.coffees && db.coffees[supplied[i].id] == supplied[i]
    modifies db`pairs
    ensures db.Valid()
    ensures old(db.PairsResolve()) ==> db.PairsResolve()
    ensures forall c :: c in unlinked <==> c in supplied && (orderId, c.id) !in old(db.pairs)
    ensures forall p: (int, int) :: p.0 != orderId ==> (p in db.pairs <==> p in old(db.pairs))
    ensures forall c :: c in Ids(supplied) ==> (orderId, c) in db.pairs
    ensures old(db.PairsResolve()) ==> forall c :: (orderId, c) in db.pairs <==> c in Ids(supplied)
  {
    var linked := LinkedCoffees(db, orderId);
    unlinked := RemoveAll(supplied, linked);
    var stale := RemoveAll(linked, supplied);
    ghost var before := db.pairs;
    LinkedIds(db, orderId, linked, supplied);
    if db.PairsResolve() {
      Reconciled(db.pairs, db.coffees, orderId, linked, supplied);
    }
    forall i | 0 <= i < |stale| ensures stale[i].id in db.coffees {
      assert stale[i] in stale;
    }
    RemoveCoffeeLinks(db, orderId, stale);
    AddCoffeeLinks(db, orderId, supplied);
    assert db.pairs == (before - Links(orderId, stale)) + Links(orderId, supplied);
    LinksOfOrder(orderId, stale);
    LinksOfOrder(orderId, supplied);
  }

  /** A supplied coffee is among the linked ones exactly when its pair is stored. */
  lemma LinkedIds(db: Db, orderId: int, linked: seq<CoffeeRow>, supplied: seq<CoffeeRow>)
    requires db.Valid() && orderId >= 0 && linked == LinkedCoffees(db, orderId)
    requires forall i :: 0 <= i < |supplied| ==> supplied[i].id in db.coffees && db.coffees[supplied[i].id] == supplied[i]
    ensures forall c :: c in supplied ==> (c.id in Ids(linked) <==> (orderId, c.id) in db.pairs)
  {
    forall c | c in supplied ensures c.id in Ids(linked) <==> (orderId, c.id) in db.pairs {
      var i :| 0 <= i < |supplied| && supplied[i] == c;
      if (orderId, c.id) in db.pairs {
        assert c in linked;
      }
    }
  }

  /** Every pair in Links(orderId, _) names that order and every listed coffee. */
  lemma LinksOfOrder(orderId: int, coffees: seq<CoffeeRow>)
    ensures forall p :: p in Links(orderId, coffees) ==> p.0 == orderId
    ensures forall c :: c in Ids(coffees) <==> (orderId, c) in Links(orderId, coffees)
  {
    forall c | (orderId, c) in Links(orderId, coffees) ensures c in Ids(coffees) {
      var x :| x in coffees && (orderId, x.id) == (orderId, c);
    }
  }


  /**
   * delete: refused while any coffee is linked to the order; otherwise the
   * row goes (OrderNotFound when there is none) and then its pairs.
   */
  method Delete(db: Db, id: Option<int>) returns (o: Outcome)
    requires db.Valid()
    modifies db`orders, db`orderKeys, db`pairs
    ensures db.Valid()
    ensures old(db.PairsResolve()) ==> db.PairsResolve()
    ensures IdError(id).Fail? ==> o == IdError(id)
    ensures IdError(id).Pass? && |old(LinkedCoffees(db, id.value))| > 0 ==> o == Fail(OrderHasReferences)
    ensures (IdError(id).Pass? && |old(LinkedCoffees(db, id.value))| == 0 && id.value !in old(db.orders))
            ==> o == Fail(OrderNotFound([id.value]))
    ensures o.Pass? <==> IdError(id).Pass? && |old(LinkedCoffees(db, id.value))| == 0 && id.value in old(db.orders)
    ensures o.Fail? ==> db.orders == old(db.orders) && db.orderKeys == old(db.orderKeys) && db.pairs == old(db.pairs)
    ensures o.Pass? ==>
              && db.orders == old(db.orders) - {id.value}
              && db.orderKeys == Remove(old(db.orderKeys), id.value)
              && db.pairs == set p | p in old(db.pairs) && p.0 != id.value
  {
    o := IdError(id);
    if o.Fail? {
      return;
    }
    if |LinkedCoffees(db, id.value)| > 0 {
      return Fail(OrderHasReferences);
    }
    o := OrderRepository.Delete(db, id);
    if o.Fail? {
      return;
    }
    o := OrderRepository.DeletePairsByOrderId(db, id);
  }

  /** Without stored coffees a stored pair makes the order undeletable only through its coffee. */
  lemma LinkedMeansPaired(db: Db, orderId: int)
    requires db.Valid() && db.PairsResolve() && orderId >= 0
    ensures |LinkedCoffees(db, orderId)| == 0 <==> forall c :: (orderId, c) !in db.pairs
  {
    var linked := LinkedCoffees(db, orderId);
    if c :| (orderId, c) in db.pairs {
      assert db.coffees[c].id == c;
      assert db.coffees[c] in linked;
    }
    if |linked| > 0 {
      assert linked[0] in linked;
    }
  }

  /** What completeOrder refuses, in order, before it writes. */
  function CompleteError(db: Db, id: Option<int>, now: Instant): (o: Outcome)
    reads db
    requires db.Valid()
    ensures IdError(id).Fail? ==> o == IdError(id)
    ensures IdError(id).Pass? && id.value !in db.orders ==> o == Fail(OrderNotFound([id.value]))
    ensures (IdError(id).Pass? && id.value in db.orders && db.orders[id.value].completed.Some?
             && BaristaRepository.FindExisting(db, Some(db.orders[id.value].baristaId)).Success?)
            ==> o == Fail(OrderAlreadyCompleted)
    ensures o.Pass? <==> && IdError(id).Pass? && id.value in db.orders
                         && BaristaRepository.FindExisting(db, Some(db.orders[id.value].baristaId)).Success?
                         && db.orders[id.value].completed.None? && now > db.orders[id.value].created
  {
    var check := IdError(id);
    if check.Fail? then check
    else if id.value !in db.orders then Fail(OrderNotFound([id.value]))
    else
      var row := db.orders[id.value];
      var barista := BaristaRepository.FindExisting(db, Some(row.baristaId));
      if barista.Failure? then Fail(barista.error)
      else if row.completed.Some? then Fail(OrderAlreadyCompleted)
      else CompletedError(Some(row.created), Some(now))
  }

  /**
   * completeOrder: the stored order, rebuilt with its barista as findById
   * decodes it, gets completed := now through setCompleted and is written
   * back; the result carries its linked coffees.
   */
  method CompleteOrder(db: Db, id: Option<int>, now: Instant) returns (r: Result<Order>)
    requires db.Valid()
    modifies db`orders
    ensures db.Valid()
    ensures old(db.PairsResolve()) ==> db.PairsResolve()
    ensures r.Success? <==> old(CompleteError(db, id, now)).Pass?
    ensures r.Failure? ==> old(CompleteError(db, id, now)) == Fail(r.error) && db.orders == old(db.orders)
    ensures r.Success? ==>
              && fresh(r.value) && r.value.id == id.value
              && db.orders == old(db.orders)[id.value := old(db.orders)[id.value].(completed := Some(now))]
              && r.value.created.Some? && r.value.Row() == db.orders[id.value]
              && r.value.barista == db.baristas[db.orders[id.value].baristaId]
              && r.value.coffeeList == LinkedCoffees(db, id.value)
  {
    var check := IdError(id);
    if check.Fail? {
      return Failure(check.error);
    }
    var found := OrderRepository.FindById(db, id);
    if found.value.None? {
      return Failure(OrderNotFound([id.value]));
    }
    var row := found.value.value;
    IdsNatural(db);
    var barista :- BaristaRepository.FindExisting(db, Some(row.baristaId));
    var made := Order.New(Some(row.id), Some(barista), Some([]), Some(row.created), row.completed, Some(Finite(row.price)));
    var order := made.value;
    if order.completed.Some? {
      return Failure(OrderAlreadyCompleted);
    }
    var completed := order.SetCompleted(Some(now));
    if completed.Fail? {
      return Failure(completed.error);
    }
    var saved := OrderRepository.Update(db, order);
    var updated := saved.value;
    var listed := updated.SetCoffeeList(Some(LinkedCoffees(db, updated.id)));
    return Success(updated);
  }

  /** findById: the stored order with exactly the coffees paired with it. */
  function FindById(db: Db, id: Option<int>): (r: Result<OrderDetail>)
    reads db
    requires db.Valid()
    ensures IdError(id).Fail? ==> r == Failure(IdError(id).error)
    ensures IdError(id).Pass? && id.value !in db.orders ==> r == Failure(OrderNotFound([id.value]))
    ensures r.Success? <==> IdError(id).Pass? && id.value in db.orders
    ensures r.Success? ==>
              && r.value.order == db.orders[id.value]
              && forall c :: c in r.value.coffees <==> c.id in db.coffees && db.coffees[c.id] == c && (id.value, c.id) in db.pairs
  {
    var found :- OrderRepository.FindById(db, id);
    if found.None? then Failure(OrderNotFound([id.value]))
    else Success(OrderDetail(found.value, LinkedCoffees(db, id.value)))
  }

  /** order.setCoffeeList(coffeeRepository.findByOrderId(order.getId())) for each order in turn. */
  method WithCoffees(db: Db, orders: seq<OrderRow>) returns (r: seq<OrderDetail>)
    requires db.Valid()
    requires forall i :: 0 <= i < |orders| ==> orders[i].id >= 0
    ensures |r| == |orders|
    ensures forall i :: 0 <= i < |orders| ==>
              && r[i].order == orders[i]
              && forall c :: c in r[i].coffees <==>
                               c.id in db.coffees && db.coffees[c.id] == c && (orders[i].id, c.id) in db.pairs
  {
    r := [];
    var i := 0;
    while i < |orders|
      invariant 0 <= i <= |orders| && |r| == i
      invariant forall k :: 0 <= k < i ==> r[k] == OrderDetail(orders[k], LinkedCoffees(db, orders[k].id))
    {
      r := r + [OrderDetail(orders[i], LinkedCoffees(db, orders[i].id))];
      i := i + 1;
    }
  }

  /**
   * getOrderQueue: the orders without a completion, oldest creation first,
   * ties in scan order, each with its linked coffees.
   */
  method GetOrderQueue(db: Db) returns (r: seq<OrderDetail>)
    requires db.Valid()
    ensures |r| == |Queue(OrderRepository.FindAll(db))|
    ensures forall i :: 0 <= i < |r| ==> r[i].order == Queue(OrderRepository.FindAll(db))[i]
    ensures forall i, j :: 0 <= i < j < |r| ==> r[i].order.created <= r[j].order.created
    ensures forall i :: 0 <= i < |r| ==>
              forall c :: c in r[i].coffees <==>
                            c.id in db.coffees && db.coffees[c.id] == c && (r[i].order.id, c.id) in db.pairs
  {
    var queue := Queue(OrderRepository.FindAll(db));
    IdsNatural(db);
    forall i | 0 <= i < |queue| ensures queue[i].id >= 0 {
      assert queue[i] in queue;
    }
    r := WithCoffees(db, queue);
  }

  /** findAll: every stored order, in scan order, with its linked coffees. */
  method FindAll(db: Db) returns (r: seq<OrderDetail>)
    requires db.Valid()
    ensures |r| == |OrderRepository.FindAll(db)|
    ensures forall i :: 0 <= i < |r| ==> r[i].order == OrderRepository.FindAll(db)[i]
    ensures forall i :: 0 <= i < |r| ==>
              forall c :: c in r[i].coffees <==>
                            c.id in db.coffees && db.coffees[c.id] == c && (r[i].order.id, c.id) in db.pairs
  {
    var rows := OrderRepository.FindAll(db);
    IdsNatural(db);
    forall i | 0 <= i < |rows| ensures rows[i].id >= 0 {
      assert rows[i] in rows;
    }
    r := WithCoffees(db, rows);
  }

  /** findAllByPage: a page of the scan, each order with its linked coffees. */
  method FindAllByPage(db: Db, page: int, limit: int) returns (r: Result<seq<OrderDetail>>)
    requires db.Valid()
    ensures PageError(page, limit).Fail? ==> r == Failure(PageError(page, limit).error)
    ensures r.Success? <==> PageError(page, limit).Pass?
    ensures r.Success? ==>
              && |r.value| == |Page(OrderRepository.FindAll(db), page, limit)| <= limit
              && forall i :: 0 <= i < |r.value| ==>
                   && r.value[i].order == Page(OrderRepository.FindAll(db), page, limit)[i]
                   && forall c :: c in r.value[i].coffees <==>
                                    c.id in db.coffees && db.coffees[c.id] == c && (r.value[i].order.id, c.id) in db.pairs
  {
    var check := PageError(page, limit);
    if check.Fail? {
      return Failure(check.error);
    }
    var rows := OrderRepository.FindAllByPage(db, page, limit);
    var slice := rows.value;
    IdsNatural(db);
    forall i | 0 <= i < |slice| ensures slice[i].id >= 0 {
      assert slice[i] in OrderRepository.FindAll(db);
    }
    var detailed := WithCoffees(db, slice);
    return Success(detailed);
  }
}
