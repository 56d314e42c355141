/**
 * service/mapper/CoffeeMapper.java, the MapStruct mapper between coffee
 * DTOs and Coffee entities. A null source maps to null. The generated code
 * builds an empty coffee (id -1, no orders) and fills it through the
 * setters in the order Coffee declares them: id, name, price, order list.
 * The first setter that throws decides the error.
 */
module CoffeeMapper {
  import opened Wrappers
  import opened Exceptions
  import opened Values
  import opened Seqs
  import opened IdLists
  import opened Store
  import opened Dto
  import opened CoffeeEntity
  import OrderRepository

  /** An order row as OrderNoRefDTO: getId() of the order and of its barista may refuse the sentinel. */
  function OrderNoRefOf(o: OrderRow): (r: Result<OrderNoRef>)
    ensures r.Success? <==> o.id != UNASSIGNED_ID && o.baristaId != UNASSIGNED_ID
    ensures r.Failure? ==> r.error == NoValidId
    ensures r.Success? ==> r.value == OrderNoRef(o.id, o.baristaId, Some(o.created), o.completed, o.price)
  {
    var id :- AssignedId(o.id);
    var baristaId :- AssignedId(o.baristaId);
    Success(OrderNoRef(id, baristaId, Some(o.created), o.completed, o.price))
  }

  /** parseOrderDtoList: one OrderNoRefDTO per order, same length, same order. */
  function ParseOrderDtoList(orders: seq<OrderRow>): (r: Result<seq<OrderNoRef>>)
    ensures r.Success? <==> forall i :: 0 <= i < |orders| ==> OrderNoRefOf(orders[i]).Success?
    ensures r.Failure? ==> r.error == NoValidId
    ensures r.Success? ==> |r.value| == |orders|
                           && forall i :: 0 <= i < |orders| ==> r.value[i] == OrderNoRefOf(orders[i]).value
  {
    if |orders| == 0 then Success([])
    else
      var head :- OrderNoRefOf(orders[0]);
      var rest :- ParseOrderDtoList(orders[1..]);
      assert forall i :: 1 <= i < |orders| ==> orders[i] == orders[1..][i - 1];
      Success([head] + rest)
  }

  /** Every row the order table holds projects without error. */
  lemma StoredOrdersProject(db: Db)
    requires db.Valid()
    ensures ParseOrderDtoList(OrderRepository.FindAll(db)).Success?
  {
    var rows := OrderRepository.FindAll(db);
    forall i | 0 <= i < |rows| ensures OrderNoRefOf(rows[i]).Success? {
      assert rows[i] in rows;
    }
  }

  /**
   * parseOrders, as OrderMapper.parseCoffees: empty maps to empty, a repeat is
   * refused before any lookup, and every id must be found; on failure the
   * payload is the ids that were not.
   */
  function ParseOrders(orders: seq<OrderRow>, ids: seq<int>): (r: Result<seq<OrderRow>>)
    requires Keyed(orders, OrderId)
    ensures |ids| == 0 ==> r == Success([])
    ensures |ids| > 0 && !Distinct(ids) ==> r == Failure(DuplicatedElements)
    ensures r.Success? <==> Distinct(ids) && forall i :: 0 <= i < |ids| ==> ids[i] in KeySet(orders, OrderId)
    ensures r.Success? ==> |r.value| == |ids| && forall o :: o in r.value <==> o in orders && o.id in ids
    ensures r.Failure? && Distinct(ids) ==>
              r.error.OrderNotFound? && |r.error.orderIds| > 0
              && forall id :: id in r.error.orderIds <==> id in ids && id !in KeySet(orders, OrderId)
  {
    Parse(orders, OrderId, ids, (missing: seq<int>) => OrderNotFound(missing))
  }

  /** parseOrders as written: nothing found reports the distinct-id count as the id. */
  function ParseOrdersAsWritten(orders: seq<OrderRow>, ids: seq<int>): (r: Result<seq<OrderRow>>)
    requires Keyed(orders, OrderId)
    ensures |Existing(orders, OrderId, ids)| == 0 && |ids| > 0 && Distinct(ids) ==> r == Failure(OrderNotFound([|ids|]))
    ensures !(|Existing(orders, OrderId, ids)| == 0 && |ids| > 0 && Distinct(ids)) ==> r == ParseOrders(orders, ids)
    ensures r.Success? <==> ParseOrders(orders, ids).Success?
  {
    ParseAsWritten(orders, OrderId, ids, (missing: seq<int>) => OrderNotFound(missing))
  }

  /** Orders 7 and 9 against an empty table: the code reports order 2, which was never asked for. */
  lemma CountReportedAsOrderId()
    ensures ParseOrdersAsWritten([], [7, 9]) == Failure(OrderNotFound([2]))
    ensures ParseOrders([], [7, 9]) == Failure(OrderNotFound([7, 9]))
  {
    assert Distinct([7, 9]);
    assert Existing([], OrderId, [7, 9]) == [];
    var r := ParseOrders([], [7, 9]);
    assert r.error.orderIds == [7, 9] by {
      NoneExistMissesAll([], OrderId, [7, 9]);
    }
  }

  /** What createDtoToEntity decides: setName, then setPrice; setOrderList(List.of()) cannot throw. */
  function CreateError(dto: CoffeeCreateDto): (o: Outcome)
    ensures o.Pass? <==> UnsavedError(dto.name, dto.price, true).Pass?
    ensures dto.name.None? ==> o == Fail(NullParam)
    ensures dto.name == Some([]) ==> o == Fail(NoValidName)
    ensures NameError(dto.name).Pass? ==> o == AmountError(dto.price, NoValidPrice)
  {
    FirstFailureOfTwo(NameError(dto.name), AmountError(dto.price, NoValidPrice));
    FirstFailure([NameError(dto.name), AmountError(dto.price, NoValidPrice)])
  }

  /**
   * An empty name is reported as such even when the price is null, where
   * the constructor would have reported the null first.
   */
  lemma NameBeforeNullPrice()
    ensures CreateError(CoffeeCreateDto(Some([]), None)) == Fail(NoValidName)
    ensures UnsavedError(Some([]), None, true) == Fail(NullParam)
  {
  }

  /** createDtoToEntity: an empty coffee given the DTO's name and price and an empty order list. */
  method CreateDtoToEntity(dto: Option<CoffeeCreateDto>) returns (r: Result<Coffee?>)
    ensures dto.None? ==> r == Success(null)
    ensures dto.Some? ==> (r.Success? <==> CreateError(dto.value).Pass?)
    ensures dto.Some? && r.Failure? ==> CreateError(dto.value) == Fail(r.error)
    ensures dto.Some? && r.Success? ==>
              && r.value != null && fresh(r.value) && r.value.Valid()
              && r.value.id == UNASSIGNED_ID && r.value.name == dto.value.name.value
              && r.value.price == dto.value.price.value.v && r.value.orderList == []
  {
    if dto.None? {
      return Success(null);
    }
    var check := CreateError(dto.value);
    if check.Fail? {
      return Failure(check.error);
    }
    var made := Coffee.NewUnsaved(dto.value.name, dto.value.price, Some([]));
    return Success(made.value);
  }

  /**
   * What updateDtoToEntity decides: setId, setName and setPrice before any
   * lookup, then parseOrders for setOrderList.
   */
  function UpdateError(db: Db, dto: CoffeeUpdateDto): (o: Outcome)
    reads db
    requires db.Valid() && dto.orderIdList.Some?
    ensures FirstFailure([IdError(dto.id), NameError(dto.name), AmountError(dto.price, NoValidPrice)]).Fail? ==>
              o == FirstFailure([IdError(dto.id), NameError(dto.name), AmountError(dto.price, NoValidPrice)])
    ensures ConstructorError(dto.id, dto.name, dto.price, true).Pass?
            && ParseOrders(OrderRepository.FindAll(db), dto.orderIdList.value).Failure? ==>
              o == Fail(ParseOrders(OrderRepository.FindAll(db), dto.orderIdList.value).error)
    ensures o.Pass? <==> ConstructorError(dto.id, dto.name, dto.price, true).Pass?
                         && ParseOrders(OrderRepository.FindAll(db), dto.orderIdList.value).Success?
  {
    FirstFailureOfThree(IdError(dto.id), NameError(dto.name), AmountError(dto.price, NoValidPrice));
    var setters := FirstFailure([IdError(dto.id), NameError(dto.name), AmountError(dto.price, NoValidPrice)]);
    if setters.Fail? then setters
    else
      var orders := ParseOrders(OrderRepository.FindAll(db), dto.orderIdList.value);
      if orders.Failure? then Fail(orders.error) else Pass
  }

  /** A bad price is reported although none of the listed orders exists: the setter runs first. */
  lemma PriceBeforeOrders(db: Db, price: Dbl)
    requires db.Valid() && !IsValidAmount(price)
    ensures UpdateError(db, CoffeeUpdateDto(Some(99), Some("QQQ"), Some(price), Some([-1]))) == Fail(NoValidPrice)
    ensures ParseOrders(OrderRepository.FindAll(db), [-1]).Failure?
  {
    FirstFailureOfThree(IdError(Some(99)), NameError(Some("QQQ")), AmountError(Some(price), NoValidPrice));
    var ids := [-1];
    assert ids[0] !in KeySet(OrderRepository.FindAll(db), OrderId);
  }

  /**
   * updateDtoToEntity: the coffee's id, name and price over the orders
   * parseOrders found. A null id list is dereferenced by the code.
   */
  method UpdateDtoToEntity(db: Db, dto: Option<CoffeeUpdateDto>) returns (r: Result<Coffee?>)
    requires db.Valid()
    requires dto.Some? ==> dto.value.orderIdList.Some?
    ensures dto.None? ==> r == Success(null)
    ensures dto.Some? ==> (r.Success? <==> UpdateError(db, dto.value).Pass?)
    ensures dto.Some? && r.Failure? ==> UpdateError(db, dto.value) == Fail(r.error)
    ensures dto.Some? && r.Success? ==>
              && r.value != null && fresh(r.value) && r.value.Valid()
              && r.value.id == dto.value.id.value && r.value.name == dto.value.name.value
              && r.value.price == dto.value.price.value.v
              && |r.value.orderList| == |dto.value.orderIdList.value|
              && forall o :: o in r.value.orderList <==>
                               o.id in db.orders && db.orders[o.id] == o && o.id in dto.value.orderIdList.value
  {
    if dto.None? {
      return Success(null);
    }
    var d := dto.value;
    FirstFailureOfThree(IdError(d.id), NameError(d.name), AmountError(d.price, NoValidPrice));
    var setters := FirstFailure([IdError(d.id), NameError(d.name), AmountError(d.price, NoValidPrice)]);
    if setters.Fail? {
      return Failure(setters.error);
    }
    var orders :- ParseOrders(OrderRepository.FindAll(db), d.orderIdList.value);
    var made := Coffee.New(d.id, d.name, d.price, Some(orders));
    return Success(made.value);
  }

  /** A coffee's own columns as CoffeeNoRefDTO; the generated mapper leaves orderIdList null. */
  function RowToNoRef(c: CoffeeRow): (r: Result<CoffeeNoRef>)
    ensures r.Success? <==> c.id != UNASSIGNED_ID
    ensures r.Failure? ==> r.error == NoValidId
    ensures r.Success? ==> r.value == CoffeeNoRef(c.id, c.name, c.price, None)
  {
    var id :- AssignedId(c.id);
    Success(CoffeeNoRef(id, c.name, c.price, None))
  }

  /** entityToNoRefDto: id, name and price of the coffee. */
  function EntityToNoRefDto(coffee: Coffee?): (r: Result<Option<CoffeeNoRef>>)
    reads coffee
    ensures coffee == null ==> r == Success(None)
    ensures coffee != null ==> (r.Success? <==> coffee.id != UNASSIGNED_ID)
    ensures coffee != null && r.Success? ==>
              r.value == Some(CoffeeNoRef(coffee.id, coffee.name, coffee.price, None))
  {
    if coffee == null then Success(None)
    else
      var noRef :- RowToNoRef(coffee.Row());
      Success(Some(noRef))
  }

  /** entityToDto: the coffee's columns and each of its orders as OrderNoRefDTO. */
  function EntityToDto(coffee: Coffee?): (r: Result<Option<CoffeePublic>>)
    reads coffee
    ensures coffee == null ==> r == Success(None)
    ensures coffee != null ==>
              (r.Success? <==> coffee.id != UNASSIGNED_ID && ParseOrderDtoList(coffee.orderList).Success?)
    ensures r.Failure? ==> r.error == NoValidId
    ensures coffee != null && r.Success? ==>
              && r.value.Some? && r.value.value.id == coffee.id && r.value.value.name == coffee.name
              && r.value.value.price == coffee.price
              && |r.value.value.orders| == |coffee.orderList|
              && forall i :: 0 <= i < |coffee.orderList| ==>
                   var o := coffee.orderList[i];
                   r.value.value.orders[i] == OrderNoRef(o.id, o.baristaId, Some(o.created), o.completed, o.price)
  {
    if coffee == null then Success(None)
    else
      var id :- AssignedId(coffee.id);
      var orders :- ParseOrderDtoList(coffee.orderList);
      Success(Some(CoffeePublic(id, coffee.name, coffee.price, orders)))
  }
}
