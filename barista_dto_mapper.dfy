/**
 * service/mapper/BaristaDtoToBaristaMapper.java: builds a Barista from a
 * request; create applies the tip through the setter, update resolves the
 * order ids one findById at a time.
 */
module BaristaDtoToBaristaMapper {
  import opened Wrappers
  import opened Exceptions
  import opened Values
  import opened Lookup
  import opened Store
  import opened OrderLists
  import opened Dto
  import opened BaristaEntity

  /**
   * What map(IBaristaCreateDTO) decides: null DTO, then new Barista(fullName),
   * then setTipSize only when a tip is given.
   */
  function CreateError(dto: Option<BaristaCreateDto>): (o: Outcome)
    ensures o.Pass? <==> dto.Some? && NameError(dto.value.fullName).Pass?
                         && (dto.value.tipSize.Some? ==> IsValidAmount(dto.value.tipSize.value))
    ensures dto.None? ==> o == Fail(NullParam)
    ensures dto.Some? && NameError(dto.value.fullName).Fail? ==> o == NameError(dto.value.fullName)
    ensures (dto.Some? && NameError(dto.value.fullName).Pass? && dto.value.tipSize.Some?
             && !IsValidAmount(dto.value.tipSize.value)) ==> o == Fail(NoValidTipSize)
  {
    if dto.None? then Fail(NullParam)
    else
      var named := UnsavedError(dto.value.fullName, true, Some(Finite(DEFAULT_TIP_SIZE)));
      if named.Fail? then named
      else if dto.value.tipSize.None? then Pass
      else AmountError(dto.value.tipSize, NoValidTipSize)
  }

  /** The tip the created barista ends with: the DTO's, or the default when it has none. */
  function CreatedTip(dto: BaristaCreateDto): (t: real)
    requires dto.tipSize.Some? ==> IsValidAmount(dto.tipSize.value)
    ensures t >= 0.0
    ensures dto.tipSize.None? ==> t == DEFAULT_TIP_SIZE
    ensures dto.tipSize.Some? ==> Finite(t) == dto.tipSize.value
  {
    if dto.tipSize.None? then DEFAULT_TIP_SIZE else dto.tipSize.value.v
  }

  /** map(IBaristaCreateDTO): no id, no orders, the given or default tip. */
  method MapCreate(dto: Option<BaristaCreateDto>) returns (r: Result<Barista>)
    ensures r.Success? <==> CreateError(dto).Pass?
    ensures r.Failure? ==> CreateError(dto) == Fail(r.error)
    ensures r.Success? ==>
              && fresh(r.value) && r.value.Valid()
              && r.value.id == UNASSIGNED_ID && r.value.fullName == dto.value.fullName.value
              && r.value.orderList == [] && r.value.tipSize == CreatedTip(dto.value)
  {
    if dto.None? {
      return Failure(NullParam);
    }
    var barista :- Barista.NewNamed(dto.value.fullName);
    if dto.value.tipSize.Some? {
      var tipped := barista.SetTipSize(dto.value.tipSize);
      if tipped.Fail? {
        return Failure(tipped.error);
      }
    }
    return Success(barista);
  }

  /**
   * What map(IBaristaUpdateDTO) decides: null checks, the order lookups in
   * input order, then the four-argument constructor's checks.
   */
  function UpdateError(db: Db, dto: Option<BaristaUpdateDto>): (o: Outcome)
    reads db
    requires db.Valid()
    ensures dto.None? || dto.value.orderIdList.None? ==> o == Fail(NullParam)
    ensures dto.Some? && dto.value.orderIdList.Some? && FindOrders(db, dto.value.orderIdList.value).Failure? ==>
              o == Fail(FindOrders(db, dto.value.orderIdList.value).error)
    ensures o.Pass? <==>
              && dto.Some? && dto.value.orderIdList.Some?
              && (forall i :: 0 <= i < |dto.value.orderIdList.value| ==> Found(db.orders, dto.value.orderIdList.value[i]))
              && ConstructorError(dto.value.id, dto.value.fullName, true, dto.value.tipSize).Pass?
  {
    if dto.None? || dto.value.orderIdList.None? then Fail(NullParam)
    else
      var orders := FindOrders(db, dto.value.orderIdList.value);
      if orders.Failure? then Fail(orders.error)
      else ConstructorError(dto.value.id, dto.value.fullName, true, dto.value.tipSize)
  }

  /** map(IBaristaUpdateDTO): the DTO's id, name and tip over the resolved orders. */
  method MapUpdate(db: Db, dto: Option<BaristaUpdateDto>) returns (r: Result<Barista>)
    requires db.Valid()
    ensures r.Success? <==> UpdateError(db, dto).Pass?
    ensures r.Failure? ==> UpdateError(db, dto) == Fail(r.error)
    ensures r.Success? ==>
              && fresh(r.value) && r.value.Valid()
              && r.value.id == dto.value.id.value && r.value.fullName == dto.value.fullName.value
              && r.value.tipSize == dto.value.tipSize.value.v
              && |r.value.orderList| == |dto.value.orderIdList.value|
              && forall i :: 0 <= i < |r.value.orderList| ==>
                               r.value.orderList[i] == db.orders[dto.value.orderIdList.value[i]]
  {
    if dto.None? || dto.value.orderIdList.None? {
      return Failure(NullParam);
    }
    var d := dto.value;
    var orders :- FindOrders(db, d.orderIdList.value);
    r := Barista.New(d.id, d.fullName, Some(orders), d.tipSize);
  }
}
