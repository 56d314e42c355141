/**
 * service/mapper/OrderDtoToOrderMapper.java: builds an Order from a request
 * by looking the barista up and then each coffee id in turn.
 */
module OrderDtoToOrderMapper {
  import opened Wrappers
  import opened Exceptions
  import opened Values
  import opened Lookup
  import opened Store
  import opened Dto
  import opened OrderEntity
  import BaristaRepository

  /** Each coffee id through findById, raising CoffeeNotFound for the first that is absent. */
  function FindCoffees(db: Db, coffeeIds: seq<int>): (r: Result<seq<CoffeeRow>>)
    reads db
    requires db.Valid()
  {
    Resolve(db.coffees, coffeeIds, (id: int) => CoffeeNotFound([id]))
  }

  /**
   * What map(IOrderCreateDTO) resolves: null checks, the barista before any
   * coffee, then one coffee per id in input order.
   */
  function ResolveCreate(db: Db, dto: Option<OrderCreateDto>): (r: Result<(BaristaRow, seq<CoffeeRow>)>)
    reads db
    requires db.Valid()
    ensures dto.None? || dto.value.coffeeIdList.None? ==> r == Failure(NullParam)
    ensures dto.Some? && dto.value.coffeeIdList.Some? ==>
              (r.Success? <==> BaristaRepository.FindExisting(db, dto.value.baristaId).Success?
                               && forall i :: 0 <= i < |dto.value.coffeeIdList.value| ==>
                                                Found(db.coffees, dto.value.coffeeIdList.value[i]))
    ensures dto.Some? && dto.value.coffeeIdList.Some? && BaristaRepository.FindExisting(db, dto.value.baristaId).Failure? ==>
              r == Failure(BaristaRepository.FindExisting(db, dto.value.baristaId).error)
    ensures r.Success? ==>
              && r.value.0 == db.baristas[dto.value.baristaId.value]
              && |r.value.1| == |dto.value.coffeeIdList.value|
              && forall i :: 0 <= i < |r.value.1| ==> r.value.1[i] == db.coffees[dto.value.coffeeIdList.value[i]]
  {
    if dto.None? || dto.value.coffeeIdList.None? then Failure(NullParam)
    else
      var barista :- BaristaRepository.FindExisting(db, dto.value.baristaId);
      var coffees :- FindCoffees(db, dto.value.coffeeIdList.value);
      Success((barista, coffees))
  }

  /** map(IOrderCreateDTO): an order with no id, no times and price 0 over the resolved rows. */
  method MapCreate(db: Db, dto: Option<OrderCreateDto>) returns (r: Result<Order>)
    requires db.Valid()
    ensures r.Success? <==> ResolveCreate(db, dto).Success?
    ensures r.Failure? ==> r.error == ResolveCreate(db, dto).error
    ensures r.Success? ==>
              && fresh(r.value) && r.value.Valid()
              && (r.value.barista, r.value.coffeeList) == ResolveCreate(db, dto).value
              && r.value.id == UNASSIGNED_ID && r.value.created.None? && r.value.completed.None?
              && r.value.price == 0.0
  {
    var resolved :- ResolveCreate(db, dto);
    r := Order.NewUnsaved(Some(resolved.0), Some(resolved.1));
  }

  /**
   * What map(IOrderUpdateDTO) resolves: as for create, then the all-fields
   * constructor's checks on the DTO's id, times and price.
   */
  function ResolveUpdate(db: Db, dto: Option<OrderUpdateDto>): (r: Result<(BaristaRow, seq<CoffeeRow>)>)
    reads db
    requires db.Valid()
    ensures dto.None? || dto.value.coffeeIdList.None? ==> r == Failure(NullParam)
    ensures dto.Some? && dto.value.coffeeIdList.Some? && BaristaRepository.FindExisting(db, dto.value.baristaId).Failure? ==>
              r == Failure(BaristaRepository.FindExisting(db, dto.value.baristaId).error)
    ensures dto.Some? && dto.value.coffeeIdList.Some? && BaristaRepository.FindExisting(db, dto.value.baristaId).Success?
            && FindCoffees(db, dto.value.coffeeIdList.value).Failure? ==>
              r == Failure(FindCoffees(db, dto.value.coffeeIdList.value).error)
    ensures r.Success? <==>
              && dto.Some? && dto.value.coffeeIdList.Some?
              && BaristaRepository.FindExisting(db, dto.value.baristaId).Success?
              && FindCoffees(db, dto.value.coffeeIdList.value).Success?
              && ConstructorError(dto.value.id, Some(BaristaRepository.FindExisting(db, dto.value.baristaId).value),
                                  Some(FindCoffees(db, dto.value.coffeeIdList.value).value),
                                  dto.value.created, dto.value.completed, dto.value.price).Pass?
    ensures r.Success? ==>
              r.value == (BaristaRepository.FindExisting(db, dto.value.baristaId).value, FindCoffees(db, dto.value.coffeeIdList.value).value)
  {
    if dto.None? || dto.value.coffeeIdList.None? then Failure(NullParam)
    else
      var d := dto.value;
      var barista :- BaristaRepository.FindExisting(db, d.baristaId);
      var coffees :- FindCoffees(db, d.coffeeIdList.value);
      var check := ConstructorError(d.id, Some(barista), Some(coffees), d.created, d.completed, d.price);
      if check.Fail? then Failure(check.error) else Success((barista, coffees))
  }

  /** map(IOrderUpdateDTO): the all-fields constructor over the DTO's scalars and the resolved rows. */
  method MapUpdate(db: Db, dto: Option<OrderUpdateDto>) returns (r: Result<Order>)
    requires db.Valid()
    ensures r.Success? <==> ResolveUpdate(db, dto).Success?
    ensures r.Failure? ==> r.error == ResolveUpdate(db, dto).error
    ensures r.Success? ==>
              && fresh(r.value) && r.value.Valid()
              && (r.value.barista, r.value.coffeeList) == ResolveUpdate(db, dto).value
              && r.value.id == dto.value.id.value && r.value.created == dto.value.created
              && r.value.completed == dto.value.completed && r.value.price == dto.value.price.value.v
  {
    if dto.None? || dto.value.coffeeIdList.None? {
      return Failure(NullParam);
    }
    var d := dto.value;
    var barista :- BaristaRepository.FindExisting(db, d.baristaId);
    var coffees :- FindCoffees(db, d.coffeeIdList.value);
    r := Order.New(d.id, Some(barista), Some(coffees), d.created, d.completed, d.price);
  }
}
