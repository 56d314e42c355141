/**
 * The order table (repository/imp/OrderRepositoryImp.java over the SQL of
 * repository/until/OrderSQL.java). Writers take and return Order entities;
 * finders return the stored rows.
 */
module OrderRepository {
  import opened Wrappers
  import opened Exceptions
  import opened Values
  import opened Seqs
  import opened Store
  import opened OrderEntity

  /**
   * create's checks on an order: its copy through the five-argument
   * constructor, the barista's assigned id, then a defined creation time.
   */
  function CreateError(barista: BaristaRow, coffeeList: seq<CoffeeRow>, created: Option<Instant>,
                       completed: Option<Instant>, price: real): (o: Outcome)
    ensures o.Pass? <==> price >= 0.0 && TimesConsistent(created, completed)
                         && barista.id != UNASSIGNED_ID && created.Some?
    ensures price >= 0.0 && TimesConsistent(created, completed) && barista.id == UNASSIGNED_ID
            ==> o == Fail(NoValidId)
    ensures price >= 0.0 && TimesConsistent(created, completed) && barista.id != UNASSIGNED_ID && created.None?
            ==> o == Fail(NullParam)
  {
    var copy := UnsavedError(Some(barista), Some(coffeeList), created, completed, Some(Finite(price)));
    if copy.Fail? then copy
    else if barista.id == UNASSIGNED_ID then Fail(NoValidId)
    else if created.None? then Fail(NullParam)
    else Pass
  }

  /**
   * update's checks: getId, the copy through the all-fields constructor,
   * the barista's assigned id, a defined creation time, then a matching row.
   */
  function UpdateError(orders: map<int, OrderRow>, id: int, barista: BaristaRow, coffeeList: seq<CoffeeRow>,
                       created: Option<Instant>, completed: Option<Instant>, price: real): (o: Outcome)
    ensures o.Pass? <==> id >= 0 && id in orders && CreateError(barista, coffeeList, created, completed, price).Pass?
    ensures id == UNASSIGNED_ID ==> o == Fail(NoValidId)
    ensures id >= 0 && CreateError(barista, coffeeList, created, completed, price).Pass? && id !in orders
            ==> o == Fail(OrderNotFound([id]))
  {
    if id == UNASSIGNED_ID then Fail(NoValidId)
    else
      var copy := ConstructorError(Some(id), Some(barista), Some(coffeeList), created, completed, Some(Finite(price)));
      if copy.Fail? then copy
      else if barista.id == UNASSIGNED_ID then Fail(NoValidId)
      else if created.None? then Fail(NullParam)
      else if id !in orders then Fail(OrderNotFound([id]))
      else Pass
  }

  /** create: inserts a copy under a fresh id and returns the copy with that id. */
  method Create(db: Db, order: Order?) returns (r: Result<Order>)
    requires db.Valid()
    modifies db`orders, db`orderKeys, db`nextOrderId
    ensures db.Valid()
    ensures order == null ==> r == Failure(NullParam)
    ensures order != null ==>
              (r.Success? <==> CreateError(order.barista, order.coffeeList, order.created, order.completed, order.price).Pass?)
    ensures order != null && r.Failure? ==>
              CreateError(order.barista, order.coffeeList, order.created, order.completed, order.price) == Fail(r.error)
    ensures r.Failure? ==> db.orders == old(db.orders) && db.orderKeys == old(db.orderKeys)
                           && db.nextOrderId == old(db.nextOrderId)
    ensures r.Success? ==>
              && order != null && fresh(r.value) && r.value.Valid()
              && r.value.id == old(db.nextOrderId) && r.value.id !in old(db.orders)
              && r.value.barista == order.barista && r.value.coffeeList == order.coffeeList
              && r.value.created == order.created && r.value.completed == order.completed
              && r.value.price == order.price && r.value.created.Some?
              && db.orders == old(db.orders)[r.value.id := r.value.Row()]
              && db.orderKeys == old(db.orderKeys) + [r.value.id]
    ensures old(db.PairsResolve()) ==> db.PairsResolve()
  {
    if order == null {
      return Failure(NullParam);
    }
    var copy :- Order.NewWithoutId(Some(order.barista), Some(order.coffeeList), order.created,
                                    order.completed, Some(Finite(order.price)));
    if copy.barista.id == UNASSIGNED_ID {
      return Failure(NoValidId);
    }
    if copy.created.None? {
      return Failure(NullParam);
    }
    var id := db.nextOrderId;
    var row := OrderRow(id, copy.barista.id, copy.created.value, copy.completed, copy.price);
    IndexedInsert(db.orders, db.orderKeys, db.nextOrderId, row);
    db.orders := db.orders[id := row];
    db.orderKeys := db.orderKeys + [id];
    db.nextOrderId := id + 1;
    var stored := copy.SetId(Some(id));
    return Success(copy);
  }

  /** update: rewrites barista, created, completed and price of the row with the order's id. */
  method Update(db: Db, order: Order?) returns (r: Result<Order>)
    requires db.Valid()
    modifies db`orders
    ensures db.Valid()
    ensures order == null ==> r == Failure(NullParam)
    ensures order != null ==>
              (r.Success? <==> UpdateError(old(db.orders), order.id, order.barista, order.coffeeList,
                                           order.created, order.completed, order.price).Pass?)
    ensures order != null && r.Failure? ==>
              UpdateError(old(db.orders), order.id, order.barista, order.coffeeList,
                          order.created, order.completed, order.price) == Fail(r.error)
    ensures r.Failure? ==> db.orders == old(db.orders)
    ensures r.Success? ==>
              && order != null && fresh(r.value) && r.value.Valid()
              && r.value.id == order.id && r.value.barista == order.barista
              && r.value.coffeeList == order.coffeeList && r.value.created == order.created
              && r.value.completed == order.completed && r.value.price == order.price
              && r.value.created.Some?
              && db.orders == old(db.orders)[order.id := r.value.Row()]
    ensures old(db.PairsResolve()) ==> db.PairsResolve()
  {
    if order == null {
      return Failure(NullParam);
    }
    var id :- order.GetId();
    var copy :- Order.New(Some(id), Some(order.barista), Some(order.coffeeList), order.created,
                           order.completed, Some(Finite(order.price)));
    if copy.barista.id == UNASSIGNED_ID {
      return Failure(NoValidId);
    }
    if copy.created.None? {
      return Failure(NullParam);
    }
    if id !in db.orders {
      return Failure(OrderNotFound([id]));
    }
    IndexedUpdate(db.orders, db.orderKeys, db.nextOrderId, id, copy.Row());
    db.orders := db.orders[id := copy.Row()];
    return Success(copy);
  }

  /** delete: removes the row; its pairs are left in place. */
  method Delete(db: Db, id: Option<int>) returns (o: Outcome)
    requires db.Valid()
    modifies db`orders, db`orderKeys
    ensures db.Valid()
    ensures IdError(id).Fail? ==> o == IdError(id)
    ensures IdError(id).Pass? ==> o == if id.value in old(db.orders) then Pass else Fail(OrderNotFound([id.value]))
    ensures db.orders == if o.Pass? then old(db.orders) - {id.value} else old(db.orders)
    ensures db.orderKeys == if o.Pass? then Remove(old(db.orderKeys), id.value) else old(db.orderKeys)
  {
    o := IdError(id);
    if o.Fail? {
      return;
    }
    if id.value !in db.orders {
      return Fail(OrderNotFound([id.value]));
    }
    IndexedRemove(db.orders, db.orderKeys, db.nextOrderId, id.value);
    db.orders := db.orders - {id.value};
    db.orderKeys := Remove(db.orderKeys, id.value);
  }

  /** findAll: every row, in scan order. */
  function FindAll(db: Db): (r: seq<OrderRow>)
    reads db
    requires db.Valid()
    ensures forall o :: o in r <==> o.id in db.orders && db.orders[o.id] == o
    ensures forall i, j :: 0 <= i < j < |r| ==> r[i].id != r[j].id
    ensures Distinct(r)
  {
    db.OrderScan()
  }

  /** findAllByPage: the limit is checked before the page; a page is a slice of findAll. */
  function FindAllByPage(db: Db, page: int, limit: int): (r: Result<seq<OrderRow>>)
    reads db
    requires db.Valid()
    ensures PageArgsError(page, limit).Fail? ==> r == Failure(PageArgsError(page, limit).error)
    ensures r.Success? ==> page >= 0 && limit > 0 && r.value == Page(FindAll(db), page, limit)
    ensures r.Success? ==> |r.value| <= limit
  {
    var check := PageArgsError(page, limit);
    if check.Fail? then Failure(check.error)
    else Success(Page(FindAll(db), page, limit))
  }

  /** findById: null and negative ids are refused; a missing row is an empty answer. */
  function FindById(db: Db, id: Option<int>): (r: Result<Option<OrderRow>>)
    reads db
    requires db.Valid()
    ensures IdError(id).Fail? ==> r == Failure(IdError(id).error)
    ensures IdError(id).Pass? ==> r.Success?
    ensures r.Success? && id.value in db.orders ==> r.value == Some(db.orders[id.value]) && r.value.value.id == id.value
    ensures r.Success? && id.value !in db.orders ==> r.value == None
  {
    var check := IdError(id);
    if check.Fail? then Failure(check.error)
    else if id.value in db.orders then Success(Some(db.orders[id.value]))
    else Success(None)
  }

  /** findByBaristaId: exactly the orders of that barista, each once, in scan order. */
  function FindByBaristaId(db: Db, baristaId: Option<int>): (r: Result<seq<OrderRow>>)
    reads db
    requires db.Valid()
    ensures IdError(baristaId).Fail? ==> r == Failure(IdError(baristaId).error)
    ensures IdError(baristaId).Pass? ==> r.Success?
    ensures r.Success? ==> forall o :: o in r.value <==>
                              o.id in db.orders && db.orders[o.id] == o && o.baristaId == baristaId.value
    ensures r.Success? ==> Distinct(r.value)
  {
    var check := IdError(baristaId);
    if check.Fail? then Failure(check.error)
    else
      var b := baristaId.value;
      Success(Filter(FindAll(db), (o: OrderRow) => o.baristaId == b))
  }

  /**
   * findByCoffeeId: exactly the orders paired with that coffee, each once.
   * The join starts from the order table, so a pair naming no order yields
   * nothing and the not-found branch after it cannot be taken.
   */
  function FindByCoffeeId(db: Db, coffeeId: Option<int>): (r: Result<seq<OrderRow>>)
    reads db
    requires db.Valid()
    ensures IdError(coffeeId).Fail? ==> r == Failure(IdError(coffeeId).error)
    ensures IdError(coffeeId).Pass? ==> r.Success?
    ensures r.Success? ==> forall o :: o in r.value <==>
                              o.id in db.orders && db.orders[o.id] == o && (o.id, coffeeId.value) in db.pairs
    ensures r.Success? ==> Distinct(r.value)
  {
    var check := IdError(coffeeId);
    if check.Fail? then Failure(check.error)
    else
      var c, pairs := coffeeId.value, db.pairs;
      Success(Filter(FindAll(db), (o: OrderRow) => (o.id, c) in pairs))
  }

  /** setBaristaDefault: points that order at barista 0; no row is not an error. */
  method SetBaristaDefault(db: Db, orderId: Option<int>) returns (o: Outcome)
    requires db.Valid()
    modifies db`orders
    ensures db.Valid()
    ensures o == IdError(orderId)
    ensures db.orders == if o.Pass? && orderId.value in old(db.orders)
                         then old(db.orders)[orderId.value := old(db.orders)[orderId.value].(baristaId := DEFAULT_BARISTA_ID)]
                         else old(db.orders)
    ensures old(db.PairsResolve()) ==> db.PairsResolve()
  {
    o := IdError(orderId);
    if o.Pass? && orderId.value in db.orders {
      var id := orderId.value;
      IndexedUpdate(db.orders, db.orderKeys, db.nextOrderId, id, db.orders[id].(baristaId := DEFAULT_BARISTA_ID));
      db.orders := db.orders[id := db.orders[id].(baristaId := DEFAULT_BARISTA_ID)];
    }
  }

  /**
   * setBaristaDefault as written: the UPDATE goes through executeQuery. The
   * PostgreSQL driver runs it (each call has its own auto-committed
   * connection) and then throws because no result set came back; the
   * SQLException becomes DataBaseException. So every valid id fails after
   * its row has been changed.
   */
  method SetBaristaDefaultAsWritten(db: Db, orderId: Option<int>) returns (o: Outcome)
    requires db.Valid()
    modifies db`orders
    ensures db.Valid()
    ensures IdError(orderId).Fail? ==> o == IdError(orderId)
    ensures IdError(orderId).Pass? ==> o == Fail(DataBase)
    ensures db.orders == if IdError(orderId).Pass? && orderId.value in old(db.orders)
                         then old(db.orders)[orderId.value := old(db.orders)[orderId.value].(baristaId := DEFAULT_BARISTA_ID)]
                         else old(db.orders)
    ensures old(db.PairsResolve()) ==> db.PairsResolve()
  {
    o := SetBaristaDefault(db, orderId);
    if o.Pass? {
      o := Fail(DataBase);
    }
  }

  /** deletePairsByOrderId: removes every pair of that order and no other. */
  method DeletePairsByOrderId(db: Db, orderId: Option<int>) returns (o: Outcome)
    requires db.Valid()
    modifies db`pairs
    ensures db.Valid()
    ensures o == IdError(orderId)
    ensures db.pairs == if o.Pass? then set p | p in old(db.pairs) && p.0 != orderId.value else old(db.pairs)
    ensures old(db.PairsResolve()) ==> db.PairsResolve()
  {
    o := IdError(orderId);
    if o.Pass? {
      db.pairs := set p | p in db.pairs && p.0 != orderId.value;
    }
  }
}
