/**
 * service/imp/CoffeeService.java: coffees and the orders linked to them
 * through the order_coffee pairs.
 */
module CoffeeService {
  import opened Wrappers
  import opened Exceptions
  import opened Values
  import opened Seqs
  import opened Store
  import opened OrderLists
  import opened Dto
  import opened CoffeeEntity
  import ManyToManyRepository
  import OrderRepository
  import CoffeeRepository
  import CoffeeDtoToCoffeeMapper

  /** A coffee as the finders return it: its row and the orders paired with it. */
  datatype CoffeeDetail = CoffeeDetail(coffee: CoffeeRow, orders: seq<OrderRow>)

  /** The pairs linking each of the orders to coffee coffeeId. */
  function Links(orders: seq<OrderRow>, coffeeId: int): set<(int, int)>
  {
    set o | o in orders :: (o.id, coffeeId)
  }

  /** orderRepository.findByCoffeeId: the orders paired with the coffee. */
  function LinkedOrders(db: Db, coffeeId: int): (r: seq<OrderRow>)
    reads db
    requires db.Valid() && coffeeId >= 0
    ensures forall o :: o in r <==> o.id in db.orders && db.orders[o.id] == o && (o.id, coffeeId) in db.pairs
    ensures Distinct(r)
  {
    OrderRepository.FindByCoffeeId(db, Some(coffeeId)).value
  }

  /** coffeeRepository.addReference(order.getId(), coffee.getId()) for each order in turn. */
  method AddOrderLinks(db: Db, orders: seq<OrderRow>, coffeeId: int)
    requires db.Valid() && coffeeId in db.coffees
    requires forall i :: 0 <= i < |orders| ==> orders[i].id in db.orders
    modifies db`pairs
    ensures db.Valid()
    ensures db.pairs == old(db.pairs) + Links(orders, coffeeId)
    ensures old(db.PairsResolve()) ==> db.PairsResolve()
  {
    IdsNatural(db);
    var i := 0;
    while i < |orders|
      invariant 0 <= i <= |orders| && db.Valid()
      invariant db.pairs == old(db.pairs) + Links(orders[..i], coffeeId)
      invariant old(db.PairsResolve()) ==> db.PairsResolve()
    {
      var added := ManyToManyRepository.AddReference(db, Some(orders[i].id), Some(coffeeId));
      assert orders[..i + 1] == orders[..i] + [orders[i]];
      assert Links(orders[..i + 1], coffeeId) == Links(orders[..i], coffeeId) + {(orders[i].id, coffeeId)};
      i := i + 1;
    }
    assert orders[..i] == orders;
  }

  /** coffeeRepository.deleteReference(order.getId(), coffee.getId()) for each order in turn. */
  method RemoveOrderLinks(db: Db, orders: seq<OrderRow>, coffeeId: int)
    requires db.Valid() && coffeeId >= 0
    requires forall i :: 0 <= i < |orders| ==> orders[i].id in db.orders
    modifies db`pairs
    ensures db.Valid()
    ensures db.pairs == old(db.pairs) - Links(orders, coffeeId)
    ensures old(db.PairsResolve()) ==> db.PairsResolve()
  {
    IdsNatural(db);
    var i := 0;
    while i < |orders|
      invariant 0 <= i <= |orders| && db.Valid()
      invariant db.pairs == old(db.pairs) - Links(orders[..i], coffeeId)
      invariant old(db.PairsResolve()) ==> db.PairsResolve()
    {
      var removed := ManyToManyRepository.DeleteReference(db, Some(orders[i].id), Some(coffeeId));
      assert orders[..i + 1] == orders[..i] + [orders[i]];
      assert Links(orders[..i + 1], coffeeId) == Links(orders[..i], coffeeId) + {(orders[i].id, coffeeId)};
      i := i + 1;
    }
    assert orders[..i] == orders;
  }

  /**
   * Detaching the stale links and then attaching every supplied order
   * leaves the coffee paired with exactly the supplied orders, when every
   * pair of the coffee named a stored order.
   */
  lemma Reconciled(pairs: set<(int, int)>, orders: map<int, OrderRow>, coffeeId: int,
                   linked: seq<OrderRow>, supplied: seq<OrderRow>)
    requires forall o :: (o, coffeeId) in pairs ==> o in orders
    requires forall k :: k in orders ==> orders[k].id == k
    requires forall o :: o in linked <==> o.id in orders && orders[o.id] == o && (o.id, coffeeId) in pairs
    ensures forall o :: (o, coffeeId) in (pairs - Links(RemoveAll(linked, supplied), coffeeId)) + Links(supplied, coffeeId)
                        <==> o in Ids(supplied)
  {
    var after := (pairs - Links(RemoveAll(linked, supplied), coffeeId)) + Links(supplied, coffeeId);
    forall o | (o, coffeeId) in after ensures o in Ids(supplied) {
      if (o, coffeeId) !in Links(supplied, coffeeId) {
        var row := orders[o];
        assert row in linked;
        assert row !in RemoveAll(linked, supplied);
      } else {
        var x :| x in supplied && (x.id, coffeeId) == (o, coffeeId);
      }
    }
    forall o | o in Ids(supplied) ensures (o, coffeeId) in after {
      var x :| x in supplied && x.id == o;
      assert (x.id, coffeeId) in Links(supplied, coffeeId);
    }
  }

  /** A supplied order is among the linked ones exactly when its pair is stored. */
  lemma LinkedIds(db: Db, coffeeId: int, linked: seq<OrderRow>, supplied: seq<OrderRow>)
    requires db.Valid() && coffeeId >= 0 && linked == LinkedOrders(db, coffeeId)
    requires forall i :: 0 <= i < |supplied| ==> supplied[i].id in db.orders && db.orders[supplied[i].id] == supplied[i]
    ensures forall o :: o in supplied ==> (o.id in Ids(linked) <==> (o.id, coffeeId) in db.pairs)
  {
    forall o | o in supplied ensures o.id in Ids(linked) <==> (o.id, coffeeId) in db.pairs {
      var i :| 0 <= i < |supplied| && supplied[i] == o;
      if (o.id, coffeeId) in db.pairs {
        assert o in linked;
      }
    }
  }

  /** Every pair in Links(_, coffeeId) names that coffee and every listed order. */
  lemma LinksOfCoffee(orders: seq<OrderRow>, coffeeId: int)
    ensures forall p :: p in Links(orders, coffeeId) ==> p.1 == coffeeId
    ensures forall o :: o in Ids(orders) <==> (o, coffeeId) in Links(orders, coffeeId)
  {
    forall o | (o, coffeeId) in Links(orders, coffeeId) ensures o in Ids(orders) {
      var x :| x in orders && (x.id, coffeeId) == (o, coffeeId);
    }
  }

  /**
   * update's link reconciliation: the pairs of linked orders that are not
   * supplied are deleted, then every supplied order is added. Returns the
   * supplied orders that were not linked before, what removeAll leaves in
   * the entity's own list.
   */
  method ReconcileOrderLinks(db: Db, supplied: seq<OrderRow>, coffeeId: int) returns (unlinked: seq<OrderRow>)
    requires db.Valid() && coffeeId in db.coffees
    requires forall i :: 0 <= i < |supplied| ==> supplied[i].id in db.orders && db.orders[supplied[i].id] == supplied[i]
    modifies db`pairs
    ensures db.Valid()
    ensures old(db.PairsResolve()) ==> db.PairsResolve()
    ensures forall o :: o in unlinked <==> o in supplied && (o.id, coffeeId) !in old(db.pairs)
    ensures forall p: (int, int) :: p.1 != coffeeId ==> (p in db.pairs <==> p in old(db.pairs))
    ensures forall o :: o in Ids(supplied) ==> (o, coffeeId) in db.pairs
    ensures old(db.PairsResolve()) ==> forall o :: (o, coffeeId) in db.pairs <==> o in Ids(supplied)
  {
    IdsNatural(db);
    var linked := LinkedOrders(db, coffeeId);
    unlinked := RemoveAll(supplied, linked);
    var stale := RemoveAll(linked, supplied);
    ghost var before := db.pairs;
    LinkedIds(db, coffeeId, linked, supplied);
    if db.PairsResolve() {
      Reconciled(db.pairs, db.orders, coffeeId, linked, supplied);
    }
    forall i | 0 <= i < |stale| ensures stale[i].id in db.orders {
      assert stale[i] in stale;
    }
    RemoveOrderLinks(db, stale, coffeeId);
    AddOrderLinks(db, supplied, coffeeId);
    assert db.pairs == (before - Links(stale, coffeeId)) + Links(supplied, coffeeId);
    LinksOfCoffee(stale, coffeeId);
    LinksOfCoffee(supplied, coffeeId);
  }

  /** create: the mapped coffee, with no orders, inserted under a fresh id. */
  method Create(db: Db, dto: Option<CoffeeCreateDto>) returns (r: Result<Coffee>)
    requires db.Valid()
    modifies db`coffees, db`coffeeKeys, db`nextCoffeeId
    ensures db.Valid()
    ensures old(db.PairsResolve()) ==> db.PairsResolve()
    ensures dto.None? ==> r == Failure(NullParam)
    ensures dto.Some? ==> (r.Success? <==> UnsavedError(dto.value.name, dto.value.price, true).Pass?)
    ensures dto.Some? && r.Failure? ==> UnsavedError(dto.value.name, dto.value.price, true) == Fail(r.error)
    ensures r.Failure? ==> db.coffees == old(db.coffees) && db.coffeeKeys == old(db.coffeeKeys)
    ensures r.Success? ==>
              && fresh(r.value) && r.value.id == old(db.nextCoffeeId) && r.value.id !in old(db.coffees)
              && r.value.orderList == []
              && db.coffees == old(db.coffees)[r.value.id := CoffeeRow(r.value.id, dto.value.name.value, dto.value.price.value.v)]
  {
    if dto.None? {
      return Failure(NullParam);
    }
    var coffee :- CoffeeDtoToCoffeeMapper.MapCreate(dto);
    var saved := CoffeeRepository.Create(db, coffee);
    return Success(saved.value);
  }

  /** What update refuses: the mapping's errors, then a coffee row that is not there. */
  function UpdateError(db: Db, dto: Option<CoffeeUpdateDto>): (o: Outcome)
    reads db
    requires db.Valid()
    ensures CoffeeDtoToCoffeeMapper.UpdateError(db, dto).Fail? ==> o == CoffeeDtoToCoffeeMapper.UpdateError(db, dto)
    ensures CoffeeDtoToCoffeeMapper.UpdateError(db, dto).Pass? && dto.value.id.value !in db.coffees ==>
              o == Fail(CoffeeNotFound([dto.value.id.value]))
    ensures o.Pass? <==> CoffeeDtoToCoffeeMapper.UpdateError(db, dto).Pass? && dto.value.id.value in db.coffees
  {
    var mapped := CoffeeDtoToCoffeeMapper.UpdateError(db, dto);
    if mapped.Fail? then mapped
    else if dto.value.id.value !in db.coffees then Fail(CoffeeNotFound([dto.value.id.value]))
    else Pass
  }

  /**
   * update: name and price are written; the pairs of orders no longer
   * listed are deleted and every listed order is (re)added. The returned
   * coffee's own list is cut down by removeAll to the orders that were not
   * linked before.
   */
  method Update(db: Db, dto: Option<CoffeeUpdateDto>) returns (r: Result<Coffee>)
    requires db.Valid()
    modifies db`coffees, db`pairs
    ensures db.Valid()
    ensures old(db.PairsResolve()) ==> db.PairsResolve()
    ensures dto.None? ==> r == Failure(NullParam)
    ensures r.Success? <==> old(UpdateError(db, dto)).Pass?
    ensures r.Failure? ==> old(UpdateError(db, dto)) == Fail(r.error)
                           && db.coffees == old(db.coffees) && db.pairs == old(db.pairs)
    ensures r.Success? ==>
              var id := dto.value.id.value;
              var listed := dto.value.orderIdList.value;
              && fresh(r.value) && r.value.id == id
              && db.coffees == old(db.coffees)[id := CoffeeRow(id, dto.value.name.value, dto.value.price.value.v)]
              && (forall o :: o in r.value.orderList <==>
                                 (&& o.id in listed && o.id in old(db.orders) && old(db.orders[o.id]) == o
                                  && (o.id, id) !in old(db.pairs)))
              && (forall p: (int, int) :: p.1 != id ==> (p in db.pairs <==> p in old(db.pairs)))
              && (forall o :: o in listed ==> (o, id) in db.pairs)
              && (old(db.PairsResolve()) ==> forall o :: (o, id) in db.pairs <==> o in listed)
  {
    if dto.None? {
      return Failure(NullParam);
    }
    var coffee :- CoffeeDtoToCoffeeMapper.MapUpdate(db, dto);
    ghost var listed := dto.value.orderIdList.value;
    ResolvedOrders(db, coffee.orderList, listed);
    var saved :- CoffeeRepository.Update(db, coffee);
    var unlinked := ReconcileOrderLinks(db, saved.orderList, saved.id);
    var trimmed := saved.SetOrderList(Some(unlinked));
    return Success(saved);
  }

  /**
   * delete: refused while any order is linked to the coffee; otherwise the
   * row goes (CoffeeNotFound when there is none) and then its pairs.
   */
  method Delete(db: Db, id: Option<int>) returns (o: Outcome)
    requires db.Valid()
    modifies db`coffees, db`coffeeKeys, db`pairs
    ensures db.Valid()
    ensures IdError(id).Fail? ==> o == IdError(id)
    ensures IdError(id).Pass? && |old(LinkedOrders(db, id.value))| > 0 ==> o == Fail(CoffeeHasReference)
    ensures (IdError(id).Pass? && |old(LinkedOrders(db, id.value))| == 0 && id.value !in old(db.coffees))
            ==> o == Fail(CoffeeNotFound([id.value]))
    ensures o.Pass? <==> IdError(id).Pass? && |old(LinkedOrders(db, id.value))| == 0 && id.value in old(db.coffees)
    ensures o.Fail? ==> db.coffees == old(db.coffees) && db.coffeeKeys == old(db.coffeeKeys) && db.pairs == old(db.pairs)
    ensures o.Pass? ==>
              && db.coffees == old(db.coffees) - {id.value}
              && db.coffeeKeys == Remove(old(db.coffeeKeys), id.value)
              && db.pairs == set p | p in old(db.pairs) && p.1 != id.value
  {
    o := IdError(id);
    if o.Fail? {
      return;
    }
    if |LinkedOrders(db, id.value)| > 0 {
      return Fail(CoffeeHasReference);
    }
    o := CoffeeRepository.Delete(db, id);
    if o.Fail? {
      return;
    }
    o := CoffeeRepository.DeleteReferencesByCoffeeId(db, id);
  }

  /** Once every pair names a stored order, a coffee is deletable exactly when no pair names it. */
  lemma UnreferencedMeansUnpaired(db: Db, coffeeId: int)
    requires db.Valid() && db.PairsResolve() && coffeeId >= 0
    ensures |LinkedOrders(db, coffeeId)| == 0 <==> forall o :: (o, coffeeId) !in db.pairs
  {
    var linked := LinkedOrders(db, coffeeId);
    if o :| (o, coffeeId) in db.pairs {
      assert db.orders[o].id == o;
      assert db.orders[o] in linked;
    }
    if |linked| > 0 {
      assert linked[0] in linked;
    }
  }

  /** findById: the stored coffee with exactly the orders paired with it. */
  function FindById(db: Db, id: Option<int>): (r: Result<CoffeeDetail>)
    reads db
    requires db.Valid()
    ensures IdError(id).Fail? ==> r == Failure(IdError(id).error)
    ensures IdError(id).Pass? && id.value !in db.coffees ==> r == Failure(CoffeeNotFound([id.value]))
    ensures r.Success? <==> IdError(id).Pass? && id.value in db.coffees
    ensures r.Success? ==>
              && r.value.coffee == db.coffees[id.value]
              && forall o :: o in r.value.orders <==> o.id in db.orders && db.orders[o.id] == o && (o.id, id.value) in db.pairs
  {
    var found :- CoffeeRepository.FindById(db, id);
    if found.None? then Failure(CoffeeNotFound([id.value]))
    else Success(CoffeeDetail(found.value, LinkedOrders(db, id.value)))
  }

  /** coffee.setOrderList(orderRepository.findByCoffeeId(coffee.getId())) for each coffee in turn. */
  method WithOrders(db: Db, coffees: seq<CoffeeRow>) returns (r: seq<CoffeeDetail>)
    requires db.Valid()
    requires forall i :: 0 <= i < |coffees| ==> coffees[i].id >= 0
    ensures |r| == |coffees|
    ensures forall i :: 0 <= i < |coffees| ==>
              && r[i].coffee == coffees[i]
              && forall o :: o in r[i].orders <==>
                               o.id in db.orders && db.orders[o.id] == o && (o.id, coffees[i].id) in db.pairs
  {
    r := [];
    var i := 0;
    while i < |coffees|
      invariant 0 <= i <= |coffees| && |r| == i
      invariant forall k :: 0 <= k < i ==> r[k] == CoffeeDetail(coffees[k], LinkedOrders(db, coffees[k].id))
    {
      r := r + [CoffeeDetail(coffees[i], LinkedOrders(db, coffees[i].id))];
      i := i + 1;
    }
  }

  /** findAll: every stored coffee, in scan order, with its linked orders. */
  method FindAll(db: Db) returns (r: seq<CoffeeDetail>)
    requires db.Valid()
    ensures |r| == |CoffeeRepository.FindAll(db)|
    ensures forall i :: 0 <= i < |r| ==> r[i].coffee == CoffeeRepository.FindAll(db)[i]
    ensures forall i :: 0 <= i < |r| ==>
              forall o :: o in r[i].orders <==>
                            o.id in db.orders && db.orders[o.id] == o && (o.id, r[i].coffee.id) in db.pairs
  {
    var rows := CoffeeRepository.FindAll(db);
    IdsNatural(db);
    forall i | 0 <= i < |rows| ensures rows[i].id >= 0 {
      assert rows[i] in rows;
    }
    r := WithOrders(db, rows);
  }

  /** findAllByPage: a page of the scan, each coffee with its linked orders. */
  method FindAllByPage(db: Db, page: int, limit: int) returns (r: Result<seq<CoffeeDetail>>)
    requires db.Valid()
    ensures PageError(page, limit).Fail? ==> r == Failure(PageError(page, limit).error)
    ensures r.Success? <==> PageError(page, limit).Pass?
    ensures r.Success? ==>
              && |r.value| == |Page(CoffeeRepository.FindAll(db), page, limit)| <= limit
              && forall i :: 0 <= i < |r.value| ==>
                   && r.value[i].coffee == Page(CoffeeRepository.FindAll(db), page, limit)[i]
                   && forall o :: o in r.value[i].orders <==>
                                    o.id in db.orders && db.orders[o.id] == o && (o.id, r.value[i].coffee.id) in db.pairs
  {
    var check := PageError(page, limit);
    if check.Fail? {
      return Failure(check.error);
    }
    var rows := CoffeeRepository.FindAllByPage(db, page, limit);
    var slice := rows.value;
    IdsNatural(db);
    forall i | 0 <= i < |slice| ensures slice[i].id >= 0 {
      assert slice[i] in CoffeeRepository.FindAll(db);
    }
    var detailed := WithOrders(db, slice);
    return Success(detailed);
  }
}
