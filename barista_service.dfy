/**
 * service/imp/BaristaService.java: baristas and the orders that point at
 * them through their barista_id column.
 */
module BaristaService {
  import opened Wrappers
  import opened Exceptions
  import opened Values
  import opened Seqs
  import opened Store
  import opened OrderLists
  import opened Dto
  import opened OrderEntity
  import opened BaristaEntity
  import OrderRepository
  import BaristaRepository
  import BaristaDtoToBaristaMapper

  /** A barista as the finders return it: its row and the orders pointing at it. */
  datatype BaristaDetail = BaristaDetail(barista: BaristaRow, orders: seq<OrderRow>)

  /** The order table after every order whose id is in ids is pointed at baristaId. */
  ghost function Reassigned(orders: map<int, OrderRow>, ids: set<int>, baristaId: int): map<int, OrderRow>
  {
    map k | k in orders :: if k in ids then orders[k].(baristaId := baristaId) else orders[k]
  }

  /** Pointing one more order at the barista extends the reassignment by that one row. */
  lemma ReassignedStep(orders: map<int, OrderRow>, ids: set<int>, baristaId: int, k: int)
    requires k in orders
    ensures Reassigned(orders, ids + {k}, baristaId)
            == Reassigned(orders, ids, baristaId)[k := orders[k].(baristaId := baristaId)]
  {
  }

  /** orderRepository.findByBaristaId: the orders pointing at the barista. */
  function OrdersOf(db: Db, baristaId: int): (r: seq<OrderRow>)
    reads db
    requires db.Valid() && baristaId >= 0
    ensures forall o :: o in r <==> o.id in db.orders && db.orders[o.id] == o && o.baristaId == baristaId
    ensures Distinct(r)
  {
    OrderRepository.FindByBaristaId(db, Some(baristaId)).value
  }

  /** orderRepository.setBaristaDefault(order.getId()) for each order in turn. */
  method DetachOrders(db: Db, orders: seq<OrderRow>)
    requires db.Valid()
    requires forall i :: 0 <= i < |orders| ==> orders[i].id >= 0
    modifies db`orders
    ensures db.Valid()
    ensures old(db.PairsResolve()) ==> db.PairsResolve()
    ensures db.orders == Reassigned(old(db.orders), Ids(orders), DEFAULT_BARISTA_ID)
  {
    var i := 0;
    while i < |orders|
      invariant 0 <= i <= |orders| && db.Valid()
      invariant old(db.PairsResolve()) ==> db.PairsResolve()
      invariant db.orders == Reassigned(old(db.orders), Ids(orders[..i]), DEFAULT_BARISTA_ID)
    {
      var id := orders[i].id;
      var reset := OrderRepository.SetBaristaDefault(db, Some(id));
      assert orders[..i + 1] == orders[..i] + [orders[i]];
      assert Ids(orders[..i + 1]) == Ids(orders[..i]) + {id};
      if id in old(db.orders) {
        ReassignedStep(old(db.orders), Ids(orders[..i]), DEFAULT_BARISTA_ID, id);
      } else {
        assert Reassigned(old(db.orders), Ids(orders[..i + 1]), DEFAULT_BARISTA_ID)
            == Reassigned(old(db.orders), Ids(orders[..i]), DEFAULT_BARISTA_ID);
      }
      i := i + 1;
    }
    assert orders[..i] == orders;
  }

  /**
   * For each resolved order: order.setBarista(barista), then
   * orderRepository.update(order), which writes back the order's columns as
   * they were read with the new barista id.
   */
  method AttachOrders(db: Db, rows: seq<OrderRow>, barista: BaristaRow)
    requires db.Valid() && barista.id >= 0
    requires forall i :: 0 <= i < |rows| ==> rows[i].id in db.orders && db.orders[rows[i].id] == rows[i]
    modifies db`orders
    ensures db.Valid()
    ensures old(db.PairsResolve()) ==> db.PairsResolve()
    ensures db.orders == Reassigned(old(db.orders), Ids(rows), barista.id)
  {
    IdsNatural(db);
    var i := 0;
    while i < |rows|
      invariant 0 <= i <= |rows| && db.Valid()
      invariant old(db.PairsResolve()) ==> db.PairsResolve()
      invariant db.orders == Reassigned(old(db.orders), Ids(rows[..i]), barista.id)
    {
      var row := rows[i];
      assert row.id in old(db.orders) && old(db.orders)[row.id] == row;
      var order := Order.New(Some(row.id), Some(barista), Some([]), Some(row.created), row.completed,
                             Some(Finite(row.price)));
      var saved := OrderRepository.Update(db, order.value);
      assert saved.Success?;
      assert rows[..i + 1] == rows[..i] + [row];
      assert Ids(rows[..i + 1]) == Ids(rows[..i]) + {row.id};
      ReassignedStep(old(db.orders), Ids(rows[..i]), barista.id, row.id);
      i := i + 1;
    }
    assert rows[..i] == rows;
  }

  /** create: the mapped barista, with no orders, inserted under a fresh id. */
  method Create(db: Db, dto: Option<BaristaCreateDto>) returns (r: Result<Barista>)
    requires db.Valid()
    modifies db`baristas, db`baristaKeys, db`nextBaristaId
    ensures db.Valid()
    ensures dto.None? ==> r == Failure(NullParam)
    ensures r.Success? <==> BaristaDtoToBaristaMapper.CreateError(dto).Pass?
    ensures r.Failure? ==> BaristaDtoToBaristaMapper.CreateError(dto) == Fail(r.error)
                           && db.baristas == old(db.baristas) && db.baristaKeys == old(db.baristaKeys)
    ensures r.Success? ==>
              && fresh(r.value) && r.value.id == old(db.nextBaristaId) && r.value.id !in old(db.baristas)
              && r.value.orderList == []
              && db.baristas == old(db.baristas)[r.value.id :=
                   BaristaRow(r.value.id, dto.value.fullName.value, BaristaDtoToBaristaMapper.CreatedTip(dto.value))]
  {
    if dto.None? {
      return Failure(NullParam);
    }
    var barista :- BaristaDtoToBaristaMapper.MapCreate(dto);
    var saved := BaristaRepository.Create(db, barista);
    return Success(saved.value);
  }

  /** What update refuses: the mapping's errors, then a barista row that is not there. */
  function UpdateError(db: Db, dto: Option<BaristaUpdateDto>): (o: Outcome)
    reads db
    requires db.Valid()
    ensures BaristaDtoToBaristaMapper.UpdateError(db, dto).Fail? ==> o == BaristaDtoToBaristaMapper.UpdateError(db, dto)
    ensures BaristaDtoToBaristaMapper.UpdateError(db, dto).Pass? && dto.value.id.value !in db.baristas ==>
              o == Fail(BaristaNotFound(dto.value.id.value))
    ensures o.Pass? <==> BaristaDtoToBaristaMapper.UpdateError(db, dto).Pass? && dto.value.id.value in db.baristas
  {
    var mapped := BaristaDtoToBaristaMapper.UpdateError(db, dto);
    if mapped.Fail? then mapped
    else if dto.value.id.value !in db.baristas then Fail(BaristaNotFound(dto.value.id.value))
    else Pass
  }

  /**
   * Detaching the stale orders and then attaching the listed ones leaves
   * every listed order with the barista, every other order that had it
   * with the default barista, and the rest as they were.
   */
  lemma Reassignment(orders: map<int, OrderRow>, baristaId: int, expected: seq<OrderRow>, listed: seq<OrderRow>)
    requires forall k :: k in orders ==> orders[k].id == k
    requires forall o :: o in expected <==> o.id in orders && orders[o.id] == o && o.baristaId == baristaId
    ensures var after := Reassigned(Reassigned(orders, Ids(RemoveAll(expected, listed)), DEFAULT_BARISTA_ID),
                                    Ids(listed), baristaId);
            && after.Keys == orders.Keys
            && forall k :: k in orders ==>
                 after[k] == if k in Ids(listed) then orders[k].(baristaId := baristaId)
                             else if orders[k].baristaId == baristaId then orders[k].(baristaId := DEFAULT_BARISTA_ID)
                             else orders[k]
  {
    var stale := RemoveAll(expected, listed);
    forall k | k in orders && k !in Ids(listed)
      ensures k in Ids(stale) <==> orders[k].baristaId == baristaId
    {
      if orders[k].baristaId == baristaId {
        assert orders[k] in expected;
        assert orders[k] in stale;
      }
      if k in Ids(stale) {
        var o :| o in stale && o.id == k;
      }
    }
  }

  /**
   * update's order reassignment for the saved barista: the orders pointing
   * at it and not listed go to the default barista, then every listed
   * order is written back pointing at it. Returns the listed orders that
   * did not point at it before, what removeAll leaves in the entity's list.
   */
  method ReassignOrders(db: Db, barista: BaristaRow, listed: seq<OrderRow>) returns (unlinked: seq<OrderRow>)
    requires db.Valid() && barista.id >= 0
    requires forall i :: 0 <= i < |listed| ==> listed[i].id in db.orders && db.orders[listed[i].id] == listed[i]
    modifies db`orders
    ensures db.Valid()
    ensures old(db.PairsResolve()) ==> db.PairsResolve()
    ensures db.orders.Keys == old(db.orders).Keys
    ensures forall k :: k in db.orders ==>
              db.orders[k] == if k in Ids(listed) then old(db.orders)[k].(baristaId := barista.id)
                              else if old(db.orders)[k].baristaId == barista.id
                              then old(db.orders)[k].(baristaId := DEFAULT_BARISTA_ID)
                              else old(db.orders)[k]
    ensures forall o :: o in unlinked <==> o in listed && o.baristaId != barista.id
  {
    var expected := OrdersOf(db, barista.id);
    var stale := RemoveAll(expected, listed);
    unlinked := RemoveAll(listed, expected);
    Reassignment(db.orders, barista.id, expected, listed);
    forall o | o in listed ensures o.id in Ids(expected) <==> o.baristaId == barista.id {
      if o.baristaId == barista.id {
        assert o in expected;
      }
      if o.id in Ids(expected) {
        var e :| e in expected && e.id == o.id;
      }
    }
    IdsNatural(db);
    forall i | 0 <= i < |stale| ensures stale[i].id >= 0 {
      assert stale[i] in stale;
    }
    DetachOrders(db, stale);
    forall i | 0 <= i < |listed| ensures listed[i].id in db.orders && db.orders[listed[i].id] == listed[i] {
      assert listed[i].id in Ids(listed);
    }
    AttachOrders(db, listed, barista);
  }

  /**
   * update: name and tip are written; each order that pointed at the
   * barista and is no longer listed goes to the default barista, each
   * listed order is written back pointing at the barista. The returned
   * barista's own list is cut down by removeAll to the orders that did not
   * point at it before.
   */
  method Update(db: Db, dto: Option<BaristaUpdateDto>) returns (r: Result<Barista>)
    requires db.Valid()
    modifies db`baristas, db`orders
    ensures db.Valid()
    ensures old(db.PairsResolve()) ==> db.PairsResolve()
    ensures dto.None? ==> r == Failure(NullParam)
    ensures r.Success? <==> old(UpdateError(db, dto)).Pass?
    ensures r.Failure? ==> old(UpdateError(db, dto)) == Fail(r.error)
                           && db.baristas == old(db.baristas) && db.orders == old(db.orders)
    ensures r.Success? ==>
              var id := dto.value.id.value;
              var listed := dto.value.orderIdList.value;
              && fresh(r.value) && r.value.id == id
              && db.baristas == old(db.baristas)[id := BaristaRow(id, dto.value.fullName.value, dto.value.tipSize.value.v)]
              && db.orders.Keys == old(db.orders).Keys
              && (forall k :: k in db.orders ==>
                    db.orders[k] == if k in listed then old(db.orders)[k].(baristaId := id)
                                    else if old(db.orders)[k].baristaId == id then old(db.orders)[k].(baristaId := DEFAULT_BARISTA_ID)
                                    else old(db.orders)[k])
              && (forall o :: o in r.value.orderList <==>
                    (&& o.id in listed && o.id in old(db.orders) && old(db.orders)[o.id] == o
                     && o.baristaId != id))
  {
    if dto.None? {
      return Failure(NullParam);
    }
    var barista :- BaristaDtoToBaristaMapper.MapUpdate(db, dto);
    ResolvedOrders(db, barista.orderList, dto.value.orderIdList.value);
    var saved :- BaristaRepository.Update(db, barista);
    var unlinked := ReassignOrders(db, saved.Row(), saved.orderList);
    var trimmed := saved.SetOrderList(Some(unlinked));
    return Success(saved);
  }

  /**
   * delete: every order pointing at the barista goes to the default
   * barista, whether or not the barista row exists; then the row goes
   * (BaristaNotFound when there is none).
   */
  method Delete(db: Db, id: Option<int>) returns (o: Outcome)
    requires db.Valid()
    modifies db`baristas, db`baristaKeys, db`orders
    ensures db.Valid()
    ensures old(db.PairsResolve()) ==> db.PairsResolve()
    ensures IdError(id).Fail? ==> o == IdError(id) && db.orders == old(db.orders) && db.baristas == old(db.baristas)
    ensures IdError(id).Pass? ==>
              && o == (if id.value in old(db.baristas) then Pass else Fail(BaristaNotFound(id.value)))
              && db.orders.Keys == old(db.orders).Keys
              && forall k :: k in db.orders ==>
                   db.orders[k] == if old(db.orders)[k].baristaId == id.value
                                   then old(db.orders)[k].(baristaId := DEFAULT_BARISTA_ID)
                                   else old(db.orders)[k]
    ensures db.baristas == if o.Pass? then old(db.baristas) - {id.value} else old(db.baristas)
    ensures db.baristaKeys == if o.Pass? then Remove(old(db.baristaKeys), id.value) else old(db.baristaKeys)
  {
    o := IdError(id);
    if o.Fail? {
      return;
    }
    var attached := OrdersOf(db, id.value);
    forall k | k in db.orders && db.orders[k].baristaId == id.value ensures k in Ids(attached) {
      assert db.orders[k] in attached;
    }
    IdsNatural(db);
    forall i | 0 <= i < |attached| ensures attached[i].id >= 0 {
      assert attached[i] in attached;
    }
    DetachOrders(db, attached);
    o := BaristaRepository.Delete(db, id);
  }

  /**
   * delete as written: the first setBaristaDefault already throws
   * DataBaseException after moving its order to barista 0, so a barista
   * with any order is never deleted and only one of its orders moves.
   */
  method DeleteAsWritten(db: Db, id: Option<int>) returns (o: Outcome)
    requires db.Valid()
    modifies db`baristas, db`baristaKeys, db`orders
    ensures db.Valid()
    ensures old(db.PairsResolve()) ==> db.PairsResolve()
    ensures IdError(id).Fail? ==> o == IdError(id) && unchanged(db)
    ensures IdError(id).Pass? && (forall k :: k in old(db.orders) ==> old(db.orders)[k].baristaId != id.value) ==>
              && o == (if id.value in old(db.baristas) then Pass else Fail(BaristaNotFound(id.value)))
              && db.orders == old(db.orders)
    ensures IdError(id).Pass? && (exists k :: k in old(db.orders) && old(db.orders)[k].baristaId == id.value) ==>
              && o == Fail(DataBase)
              && db.baristas == old(db.baristas) && db.baristaKeys == old(db.baristaKeys)
              && exists k :: && k in old(db.orders) && old(db.orders)[k].baristaId == id.value
                             && db.orders == old(db.orders)[k := old(db.orders)[k].(baristaId := DEFAULT_BARISTA_ID)]
    ensures db.baristas == if o.Pass? then old(db.baristas) - {id.value} else old(db.baristas)
  {
    o := IdError(id);
    if o.Fail? {
      return;
    }
    var attached := OrdersOf(db, id.value);
    IdsNatural(db);
    if |attached| == 0 {
      forall k | k in db.orders ensures db.orders[k].baristaId != id.value {
        assert db.orders[k].id == k;
        assert db.orders[k] !in attached;
      }
      o := BaristaRepository.Delete(db, id);
      return;
    }
    assert attached[0] in attached;
    var first := attached[0].id;
    o := OrderRepository.SetBaristaDefaultAsWritten(db, Some(first));
  }

  /** findById: the stored barista with exactly the orders pointing at it. */
  function FindById(db: Db, id: Option<int>): (r: Result<BaristaDetail>)
    reads db
    requires db.Valid()
    ensures IdError(id).Fail? ==> r == Failure(IdError(id).error)
    ensures IdError(id).Pass? && id.value !in db.baristas ==> r == Failure(BaristaNotFound(id.value))
    ensures r.Success? <==> IdError(id).Pass? && id.value in db.baristas
    ensures r.Success? ==>
              && r.value.barista == db.baristas[id.value]
              && forall o :: o in r.value.orders <==> o.id in db.orders && db.orders[o.id] == o && o.baristaId == id.value
  {
    var found :- BaristaRepository.FindById(db, id);
    if found.None? then Failure(BaristaNotFound(id.value))
    else Success(BaristaDetail(found.value, OrdersOf(db, id.value)))
  }

  /** barista.setOrderList(orderRepository.findByBaristaId(barista.getId())) for each barista in turn. */
  method WithOrders(db: Db, baristas: seq<BaristaRow>) returns (r: seq<BaristaDetail>)
    requires db.Valid()
    requires forall i :: 0 <= i < |baristas| ==> baristas[i].id >= 0
    ensures |r| == |baristas|
    ensures forall i :: 0 <= i < |baristas| ==>
              && r[i].barista == baristas[i]
              && forall o :: o in r[i].orders <==>
                               o.id in db.orders && db.orders[o.id] == o && o.baristaId == baristas[i].id
  {
    r := [];
    var i := 0;
    while i < |baristas|
      invariant 0 <= i <= |baristas| && |r| == i
      invariant forall k :: 0 <= k < i ==> r[k] == BaristaDetail(baristas[k], OrdersOf(db, baristas[k].id))
    {
      r := r + [BaristaDetail(baristas[i], OrdersOf(db, baristas[i].id))];
      i := i + 1;
    }
  }

  /** findAll: every stored barista, in scan order, with the orders pointing at it. */
  method FindAll(db: Db) returns (r: seq<BaristaDetail>)
    requires db.Valid()
    ensures |r| == |BaristaRepository.FindAll(db)|
    ensures forall i :: 0 <= i < |r| ==> r[i].barista == BaristaRepository.FindAll(db)[i]
    ensures forall i :: 0 <= i < |r| ==>
              forall o :: o in r[i].orders <==>
                            o.id in db.orders && db.orders[o.id] == o && o.baristaId == r[i].barista.id
  {
    var rows := BaristaRepository.FindAll(db);
    IdsNatural(db);
    forall i | 0 <= i < |rows| ensures rows[i].id >= 0 {
      assert rows[i] in rows;
    }
    r := WithOrders(db, rows);
  }

  /** findAllByPage: a page of the scan, each barista with the orders pointing at it. */
  method FindAllByPage(db: Db, page: int, limit: int) returns (r: Result<seq<BaristaDetail>>)
    requires db.Valid()
    ensures PageError(page, limit).Fail? ==> r == Failure(PageError(page, limit).error)
    ensures r.Success? <==> PageError(page, limit).Pass?
    ensures r.Success? ==>
              && |r.value| == |Page(BaristaRepository.FindAll(db), page, limit)| <= limit
              && forall i :: 0 <= i < |r.value| ==>
                   && r.value[i].barista == Page(BaristaRepository.FindAll(db), page, limit)[i]
                   && forall o :: o in r.value[i].orders <==>
                                    o.id in db.orders && db.orders[o.id] == o && o.baristaId == r.value[i].barista.id
  {
    var check := PageError(page, limit);
    if check.Fail? {
      return Failure(check.error);
    }
    var rows := BaristaRepository.FindAllByPage(db, page, limit);
    var slice := rows.value;
    IdsNatural(db);
    forall i | 0 <= i < |slice| ensures slice[i].id >= 0 {
      assert slice[i] in BaristaRepository.FindAll(db);
    }
    var detailed := WithOrders(db, slice);
    return Success(detailed);
  }
}
