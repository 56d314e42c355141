/**
 * service/mapper/CoffeeDtoToCoffeeMapper.java: builds a Coffee from a
 * request, resolving the order ids of an update one findById at a time.
 */
module CoffeeDtoToCoffeeMapper {
  import opened Wrappers
  import opened Exceptions
  import opened Values
  import opened Lookup
  import opened Store
  import opened OrderLists
  import opened Dto
  import opened CoffeeEntity

  /** map(ICoffeeCreateDTO): new Coffee(name, price), so no id and no orders. */
  method MapCreate(dto: Option<CoffeeCreateDto>) returns (r: Result<Coffee>)
    ensures dto.None? ==> r == Failure(NullParam)
    ensures dto.Some? ==> (r.Success? <==> UnsavedError(dto.value.name, dto.value.price, true).Pass?)
    ensures dto.Some? && r.Failure? ==> UnsavedError(dto.value.name, dto.value.price, true) == Fail(r.error)
    ensures r.Success? ==>
              && fresh(r.value) && r.value.Valid()
              && r.value.id == UNASSIGNED_ID && r.value.name == dto.value.name.value
              && r.value.price == dto.value.price.value.v && r.value.orderList == []
  {
    if dto.None? {
      return Failure(NullParam);
    }
    r := Coffee.NewWithPrice(dto.value.name, dto.value.price);
  }

  /**
   * What map(ICoffeeUpdateDTO) decides: null checks, the order lookups in
   * input order, then the four-argument constructor's checks.
   */
  function UpdateError(db: Db, dto: Option<CoffeeUpdateDto>): (o: Outcome)
    reads db
    requires db.Valid()
    ensures dto.None? || dto.value.orderIdList.None? ==> o == Fail(NullParam)
    ensures dto.Some? && dto.value.orderIdList.Some? && FindOrders(db, dto.value.orderIdList.value).Failure? ==>
              o == Fail(FindOrders(db, dto.value.orderIdList.value).error)
    ensures o.Pass? <==>
              && dto.Some? && dto.value.orderIdList.Some?
              && (forall i :: 0 <= i < |dto.value.orderIdList.value| ==> Found(db.orders, dto.value.orderIdList.value[i]))
              && ConstructorError(dto.value.id, dto.value.name, dto.value.price, true).Pass?
  {
    if dto.None? || dto.value.orderIdList.None? then Fail(NullParam)
    else
      var orders := FindOrders(db, dto.value.orderIdList.value);
      if orders.Failure? then Fail(orders.error)
      else ConstructorError(dto.value.id, dto.value.name, dto.value.price, true)
  }

  /** map(ICoffeeUpdateDTO): the DTO's id, name and price over the resolved orders. */
  method MapUpdate(db: Db, dto: Option<CoffeeUpdateDto>) returns (r: Result<Coffee>)
    requires db.Valid()
    ensures r.Success? <==> UpdateError(db, dto).Pass?
    ensures r.Failure? ==> UpdateError(db, dto) == Fail(r.error)
    ensures r.Success? ==>
              && fresh(r.value) && r.value.Valid()
              && r.value.id == dto.value.id.value && r.value.name == dto.value.name.value
              && r.value.price == dto.value.price.value.v
              && |r.value.orderList| == |dto.value.orderIdList.value|
              && forall i :: 0 <= i < |r.value.orderList| ==>
                               r.value.orderList[i] == db.orders[dto.value.orderIdList.value[i]]
  {
    if dto.None? || dto.value.orderIdList.None? {
      return Failure(NullParam);
    }
    var d := dto.value;
    var orders :- FindOrders(db, d.orderIdList.value);
    r := Coffee.New(d.id, d.name, d.price, Some(orders));
  }
}
