/**
 * service/mapper/BaristaMapper.java, the MapStruct mapper between barista
 * DTOs and Barista entities. A null source maps to null. The generated code
 * builds an empty barista (id -1) and fills it through the setters in the
 * order Barista declares them: id, full name, order list, tip size. The
 * first setter that throws decides the error; setOrderList(List.of())
 * cannot throw.
 */
module BaristaMapper {
  import opened Wrappers
  import opened Exceptions
  import opened Values
  import opened Dto
  import opened BaristaEntity
  import CoffeeMapper

  /** What createDtoToEntity decides: setFullName, then setTipSize; a null tip is refused, not defaulted. */
  function CreateError(dto: BaristaCreateDto): (o: Outcome)
    ensures o.Pass? <==> UnsavedError(dto.fullName, true, dto.tipSize).Pass?
    ensures dto.fullName.None? ==> o == Fail(NullParam)
    ensures dto.fullName == Some([]) ==> o == Fail(NoValidName)
    ensures NameError(dto.fullName).Pass? ==> o == AmountError(dto.tipSize, NoValidTipSize)
  {
    FirstFailureOfTwo(NameError(dto.fullName), AmountError(dto.tipSize, NoValidTipSize));
    FirstFailure([NameError(dto.fullName), AmountError(dto.tipSize, NoValidTipSize)])
  }

  /** createDtoToEntity: an empty barista given the DTO's name and tip and an empty order list. */
  method CreateDtoToEntity(dto: Option<BaristaCreateDto>) returns (r: Result<Barista?>)
    ensures dto.None? ==> r == Success(null)
    ensures dto.Some? ==> (r.Success? <==> CreateError(dto.value).Pass?)
    ensures dto.Some? && r.Failure? ==> CreateError(dto.value) == Fail(r.error)
    ensures dto.Some? && r.Success? ==>
              && r.value != null && fresh(r.value) && r.value.Valid()
              && r.value.id == UNASSIGNED_ID && r.value.fullName == dto.value.fullName.value
              && r.value.tipSize == dto.value.tipSize.value.v && r.value.orderList == []
  {
    if dto.None? {
      return Success(null);
    }
    var check := CreateError(dto.value);
    if check.Fail? {
      return Failure(check.error);
    }
    var made := Barista.NewUnsaved(dto.value.fullName, Some([]), dto.value.tipSize);
    return Success(made.value);
  }

  /** What updateDtoToEntity decides: setId, setFullName, then setTipSize. */
  function UpdateError(dto: BaristaUpdateDto): (o: Outcome)
    ensures o.Pass? <==> ConstructorError(dto.id, dto.fullName, true, dto.tipSize).Pass?
    ensures IdError(dto.id).Fail? ==> o == IdError(dto.id)
    ensures IdError(dto.id).Pass? && NameError(dto.fullName).Fail? ==> o == NameError(dto.fullName)
    ensures IdError(dto.id).Pass? && NameError(dto.fullName).Pass? ==> o == AmountError(dto.tipSize, NoValidTipSize)
  {
    FirstFailureOfThree(IdError(dto.id), NameError(dto.fullName), AmountError(dto.tipSize, NoValidTipSize));
    FirstFailure([IdError(dto.id), NameError(dto.fullName), AmountError(dto.tipSize, NoValidTipSize)])
  }

  /**
   * A negative id is reported as such even when the name is null, where
   * the four-argument constructor would have reported the null first.
   */
  lemma IdBeforeNullName()
    ensures UpdateError(BaristaUpdateDto(Some(-5), None, Some(Finite(0.1)), None)) == Fail(NoValidId)
    ensures ConstructorError(Some(-5), None, true, Some(Finite(0.1))) == Fail(NullParam)
  {
  }

  /** updateDtoToEntity: the DTO's id, name and tip with an empty order list; the DTO's order ids are ignored. */
  method UpdateDtoToEntity(dto: Option<BaristaUpdateDto>) returns (r: Result<Barista?>)
    ensures dto.None? ==> r == Success(null)
    ensures dto.Some? ==> (r.Success? <==> UpdateError(dto.value).Pass?)
    ensures dto.Some? && r.Failure? ==> UpdateError(dto.value) == Fail(r.error)
    ensures dto.Some? && r.Success? ==>
              && r.value != null && fresh(r.value) && r.value.Valid()
              && r.value.id == dto.value.id.value && r.value.fullName == dto.value.fullName.value
              && r.value.tipSize == dto.value.tipSize.value.v && r.value.orderList == []
  {
    if dto.None? {
      return Success(null);
    }
    var check := UpdateError(dto.value);
    if check.Fail? {
      return Failure(check.error);
    }
    var made := Barista.New(dto.value.id, dto.value.fullName, Some([]), dto.value.tipSize);
    return Success(made.value);
  }

  /** A barista's own columns as BaristaNoRefDTO; the generated mapper leaves orderIdList null. */
  function RowToNoRef(b: BaristaRow): (r: Result<BaristaNoRef>)
    ensures r.Success? <==> b.id != UNASSIGNED_ID
    ensures r.Failure? ==> r.error == NoValidId
    ensures r.Success? ==> r.value == BaristaNoRef(b.id, b.fullName, b.tipSize, None)
  {
    var id :- AssignedId(b.id);
    Success(BaristaNoRef(id, b.fullName, b.tipSize, None))
  }

  /** entityToNoRefDto: id, full name and tip of the barista. */
  function EntityToNoRefDto(barista: Barista?): (r: Result<Option<BaristaNoRef>>)
    reads barista
    ensures barista == null ==> r == Success(None)
    ensures barista != null ==> (r.Success? <==> barista.id != UNASSIGNED_ID)
    ensures barista != null && r.Success? ==>
              r.value == Some(BaristaNoRef(barista.id, barista.fullName, barista.tipSize, None))
  {
    if barista == null then Success(None)
    else
      var noRef :- RowToNoRef(barista.Row());
      Success(Some(noRef))
  }

  /**
   * entityToDto: the barista's columns and, through parseOrderIdList, each of
   * its orders as OrderNoRefDTO with the order's id and its barista's id.
   */
  function EntityToDto(barista: Barista?): (r: Result<Option<BaristaPublic>>)
    reads barista
    ensures barista == null ==> r == Success(None)
    ensures barista != null ==>
              (r.Success? <==> barista.id != UNASSIGNED_ID
                               && forall i :: 0 <= i < |barista.orderList| ==>
                                                barista.orderList[i].id != UNASSIGNED_ID
                                                && barista.orderList[i].baristaId != UNASSIGNED_ID)
    ensures r.Failure? ==> r.error == NoValidId
    ensures barista != null && r.Success? ==>
              && r.value.Some? && r.value.value.id == barista.id && r.value.value.fullName == barista.fullName
              && r.value.value.tipSize == barista.tipSize
              && |r.value.value.orders| == |barista.orderList|
              && forall i :: 0 <= i < |barista.orderList| ==>
                   var o := barista.orderList[i];
                   r.value.value.orders[i] == OrderNoRef(o.id, o.baristaId, Some(o.created), o.completed, o.price)
  {
    if barista == null then Success(None)
    else
      var id :- AssignedId(barista.id);
      var orders :- CoffeeMapper.ParseOrderDtoList(barista.orderList);
      Success(Some(BaristaPublic(id, barista.fullName, barista.tipSize, orders)))
  }
}
