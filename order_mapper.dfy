/**
 * service/mapper/OrderMapper.java, the MapStruct mapper between order DTOs
 * and Order entities. A null source maps to null. The generated code builds
 * an order with the argument-free constructor and fills it through the
 * setters in the order Order declares them: id, barista, coffee list,
 * created, completed, price. That constructor leaves id and price null;
 * here a new order starts from the documented defaults instead (id -1,
 * price 0, no times).
 */
module OrderMapper {
  import opened Wrappers
  import opened Exceptions
  import opened Values
  import opened Seqs
  import opened IdLists
  import opened Store
  import opened Dto
  import opened OrderEntity
  import BaristaRepository
  import CoffeeRepository
  import BaristaMapper
  import CoffeeMapper

  /**
   * parseCoffees: empty maps to empty, a repeat is refused before any lookup,
   * and every id must be found; on failure the payload is the ids that were not.
   */
  function ParseCoffees(coffees: seq<CoffeeRow>, ids: seq<int>): (r: Result<seq<CoffeeRow>>)
    requires Keyed(coffees, CoffeeId)
    ensures |ids| == 0 ==> r == Success([])
    ensures |ids| > 0 && !Distinct(ids) ==> r == Failure(DuplicatedElements)
    ensures r.Success? <==> Distinct(ids) && forall i :: 0 <= i < |ids| ==> ids[i] in KeySet(coffees, CoffeeId)
    ensures r.Success? ==> |r.value| == |ids| && forall c :: c in r.value <==> c in coffees && c.id in ids
    ensures r.Failure? && Distinct(ids) ==>
              r.error.CoffeeNotFound? && |r.error.coffeeIds| > 0
              && forall id :: id in r.error.coffeeIds <==> id in ids && id !in KeySet(coffees, CoffeeId)
  {
    Parse(coffees, CoffeeId, ids, (missing: seq<int>) => CoffeeNotFound(missing))
  }

  /** parseCoffees as written: nothing found reports the distinct-id count as the id. */
  function ParseCoffeesAsWritten(coffees: seq<CoffeeRow>, ids: seq<int>): (r: Result<seq<CoffeeRow>>)
    requires Keyed(coffees, CoffeeId)
    ensures |Existing(coffees, CoffeeId, ids)| == 0 && |ids| > 0 && Distinct(ids) ==> r == Failure(CoffeeNotFound([|ids|]))
    ensures !(|Existing(coffees, CoffeeId, ids)| == 0 && |ids| > 0 && Distinct(ids)) ==> r == ParseCoffees(coffees, ids)
    ensures r.Success? <==> ParseCoffees(coffees, ids).Success?
  {
    ParseAsWritten(coffees, CoffeeId, ids, (missing: seq<int>) => CoffeeNotFound(missing))
  }

  /** Coffees 7 and 9 against an empty table: the code reports coffee 2, which was never asked for. */
  lemma CountReportedAsCoffeeId()
    ensures ParseCoffeesAsWritten([], [7, 9]) == Failure(CoffeeNotFound([2]))
    ensures ParseCoffees([], [7, 9]) == Failure(CoffeeNotFound([7, 9]))
  {
    assert Distinct([7, 9]);
    assert Existing([], CoffeeId, [7, 9]) == [];
    var r := ParseCoffees([], [7, 9]);
    assert r.error.coffeeIds == [7, 9] by {
      NoneExistMissesAll([], CoffeeId, [7, 9]);
    }
  }

  /** What createDtoToEntity resolves: the barista first, then the coffees through parseCoffees. */
  function CreateResolution(db: Db, dto: OrderCreateDto): (r: Result<(BaristaRow, seq<CoffeeRow>)>)
    reads db
    requires db.Valid() && dto.coffeeIdList.Some?
    ensures BaristaRepository.FindExisting(db, dto.baristaId).Failure? ==>
              r == Failure(BaristaRepository.FindExisting(db, dto.baristaId).error)
    ensures r.Success? <==> BaristaRepository.FindExisting(db, dto.baristaId).Success?
                            && ParseCoffees(CoffeeRepository.FindAll(db), dto.coffeeIdList.value).Success?
    ensures r.Success? ==>
              && r.value.0 == db.baristas[dto.baristaId.value]
              && |r.value.1| == |dto.coffeeIdList.value|
              && forall c :: c in r.value.1 <==> c.id in db.coffees && db.coffees[c.id] == c && c.id in dto.coffeeIdList.value
  {
    var barista :- BaristaRepository.FindExisting(db, dto.baristaId);
    var coffees :- ParseCoffees(CoffeeRepository.FindAll(db), dto.coffeeIdList.value);
    Success((barista, coffees))
  }

  /**
   * createDtoToEntity: a new order given the barista and the coffees. The
   * code sets nothing else, so its id and price stay null; here they are the
   * documented defaults, id -1 and price 0, and the times are absent. A null
   * id list is dereferenced by the code.
   */
  method CreateDtoToEntity(db: Db, dto: Option<OrderCreateDto>) returns (r: Result<Order?>)
    requires db.Valid()
    requires dto.Some? ==> dto.value.coffeeIdList.Some?
    ensures dto.None? ==> r == Success(null)
    ensures dto.Some? ==> (r.Success? <==> CreateResolution(db, dto.value).Success?)
    ensures dto.Some? && r.Failure? ==> r.error == CreateResolution(db, dto.value).error
    ensures dto.Some? && r.Success? ==>
              && r.value != null && fresh(r.value) && r.value.Valid()
              && (r.value.barista, r.value.coffeeList) == CreateResolution(db, dto.value).value
              && r.value.id == UNASSIGNED_ID && r.value.created.None? && r.value.completed.None?
              && r.value.price == 0.0
  {
    if dto.None? {
      return Success(null);
    }
    var resolved :- CreateResolution(db, dto.value);
    var made := Order.NewUnsaved(Some(resolved.0), Some(resolved.1));
    return Success(made.value);
  }

  /**
   * What updateDtoToEntity decides, setter by setter: setId before any
   * lookup, the barista, parseCoffees, setCreated, setCompleted (strictly
   * after created), setPrice.
   */
  function UpdateError(db: Db, dto: OrderUpdateDto): (o: Outcome)
    reads db
    requires db.Valid() && dto.coffeeIdList.Some?
    ensures IdError(dto.id).Fail? ==> o == IdError(dto.id)
    ensures IdError(dto.id).Pass? && BaristaRepository.FindExisting(db, dto.baristaId).Failure? ==>
              o == Fail(BaristaRepository.FindExisting(db, dto.baristaId).error)
    ensures o.Pass? <==>
              && IdError(dto.id).Pass?
              && CreateResolution(db, OrderCreateDto(dto.baristaId, dto.coffeeIdList)).Success?
              && dto.created.Some?
              && CompletedError(dto.created, dto.completed).Pass?
              && AmountError(dto.price, NoValidPrice).Pass?
    ensures dto.completed.Some? && dto.created == dto.completed ==> o.Fail?
  {
    var setId := IdError(dto.id);
    if setId.Fail? then setId
    else
      var resolved := CreateResolution(db, OrderCreateDto(dto.baristaId, dto.coffeeIdList));
      if resolved.Failure? then Fail(resolved.error)
      else if dto.created.None? then Fail(NullParam)
      else
        var setCompleted := CompletedError(dto.created, dto.completed);
        if setCompleted.Fail? then setCompleted
        else AmountError(dto.price, NoValidPrice)
  }

  /** updateDtoToEntity: the DTO's id, times and price over the resolved barista and coffees. */
  method UpdateDtoToEntity(db: Db, dto: Option<OrderUpdateDto>) returns (r: Result<Order?>)
    requires db.Valid()
    requires dto.Some? ==> dto.value.coffeeIdList.Some?
    ensures dto.None? ==> r == Success(null)
    ensures dto.Some? ==> (r.Success? <==> UpdateError(db, dto.value).Pass?)
    ensures dto.Some? && r.Failure? ==> UpdateError(db, dto.value) == Fail(r.error)
    ensures dto.Some? && r.Success? ==>
              && r.value != null && fresh(r.value) && r.value.Valid()
              && (r.value.barista, r.value.coffeeList)
                 == CreateResolution(db, OrderCreateDto(dto.value.baristaId, dto.value.coffeeIdList)).value
              && r.value.id == dto.value.id.value && r.value.created == dto.value.created
              && r.value.completed == dto.value.completed && r.value.price == dto.value.price.value.v
  {
    if dto.None? {
      return Success(null);
    }
    var d := dto.value;
    var setId := IdError(d.id);
    if setId.Fail? {
      return Failure(setId.error);
    }
    var resolved :- CreateResolution(db, OrderCreateDto(d.baristaId, d.coffeeIdList));
    var made := Order.NewUnsaved(Some(resolved.0), Some(resolved.1));
    var order := made.value;
    var o := order.SetId(d.id);
    o := order.SetCreated(d.created);
    if o.Fail? {
      return Failure(o.error);
    }
    o := order.SetCompleted(d.completed);
    if o.Fail? {
      return Failure(o.error);
    }
    o := order.SetPrice(d.price);
    if o.Fail? {
      return Failure(o.error);
    }
    return Success(order);
  }

  /** coffeeMapper::entityToNoRefDto over the coffee list, keeping length and order. */
  function CoffeesToNoRef(coffees: seq<CoffeeRow>): (r: Result<seq<CoffeeNoRef>>)
    ensures r.Success? <==> forall i :: 0 <= i < |coffees| ==> coffees[i].id != UNASSIGNED_ID
    ensures r.Failure? ==> r.error == NoValidId
    ensures r.Success? ==> |r.value| == |coffees|
                           && forall i :: 0 <= i < |coffees| ==>
                                r.value[i] == CoffeeNoRef(coffees[i].id, coffees[i].name, coffees[i].price, None)
  {
    if |coffees| == 0 then Success([])
    else
      var head :- CoffeeMapper.RowToNoRef(coffees[0]);
      var rest :- CoffeesToNoRef(coffees[1..]);
      assert forall i :: 1 <= i < |coffees| ==> coffees[i] == coffees[1..][i - 1];
      Success([head] + rest)
  }

  /** entityToDto: the order's scalars, its barista as BaristaNoRefDTO and each coffee as CoffeeNoRefDTO. */
  function EntityToDto(order: Order?): (r: Result<Option<OrderPublic>>)
    reads order
    ensures order == null ==> r == Success(None)
    ensures order != null ==>
              (r.Success? <==> order.id != UNASSIGNED_ID && order.barista.id != UNASSIGNED_ID
                               && forall i :: 0 <= i < |order.coffeeList| ==> order.coffeeList[i].id != UNASSIGNED_ID)
    ensures r.Failure? ==> r.error == NoValidId
    ensures order != null && r.Success? ==>
              && r.value.Some?
              && r.value.value.id == order.id
              && r.value.value.barista == BaristaNoRef(order.barista.id, order.barista.fullName, order.barista.tipSize, None)
              && r.value.value.created == order.created && r.value.value.completed == order.completed
              && r.value.value.price == order.price
              && |r.value.value.coffees| == |order.coffeeList|
              && forall i :: 0 <= i < |order.coffeeList| ==>
                   r.value.value.coffees[i]
                   == CoffeeNoRef(order.coffeeList[i].id, order.coffeeList[i].name, order.coffeeList[i].price, None)
  {
    if order == null then Success(None)
    else
      var id :- AssignedId(order.id);
      var barista :- BaristaMapper.RowToNoRef(order.barista);
      var coffees :- CoffeesToNoRef(order.coffeeList);
      Success(Some(OrderPublic(id, barista, order.created, order.completed, order.price, coffees)))
  }
}
