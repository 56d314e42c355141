/** The Barista entity (entity/Barista.java): a validated record updated by setters. */
module BaristaEntity {
  import opened Wrappers
  import opened Exceptions
  import opened Values

  /** The checks of the constructors without an id: nulls, then the name, then the tip. */
  function UnsavedError(fullName: Option<string>, listGiven: bool, tipSize: Option<Dbl>): (o: Outcome)
    ensures o.Pass? <==> fullName.Some? && listGiven && tipSize.Some?
                         && |fullName.value| > 0 && IsValidAmount(tipSize.value)
    ensures fullName.None? || !listGiven || tipSize.None? ==> o == Fail(NullParam)
    ensures fullName == Some([]) && listGiven && tipSize.Some? ==> o == Fail(NoValidName)
    ensures o == Fail(NoValidTipSize) ==> fullName.Some? && |fullName.value| > 0
  {
    if fullName.None? || !listGiven || tipSize.None? then Fail(NullParam)
    else if |fullName.value| == 0 then Fail(NoValidName)
    else if !IsValidAmount(tipSize.value) then Fail(NoValidTipSize)
    else Pass
  }

  /** The checks of the four-argument constructor: nulls, id, name, tip. */
  function ConstructorError(id: Option<int>, fullName: Option<string>, listGiven: bool, tipSize: Option<Dbl>): (o: Outcome)
    ensures o.Pass? <==> id.Some? && id.value >= 0 && UnsavedError(fullName, listGiven, tipSize).Pass?
    ensures id.None? ==> o == Fail(NullParam)
    ensures id.Some? && id.value < 0 && fullName.Some? && listGiven && tipSize.Some? ==> o == Fail(NoValidId)
    ensures id.Some? && id.value >= 0 ==> o == UnsavedError(fullName, listGiven, tipSize)
  {
    if id.None? || fullName.None? || !listGiven || tipSize.None? then Fail(NullParam)
    else if id.value < 0 then Fail(NoValidId)
    else UnsavedError(fullName, listGiven, tipSize)
  }

  class Barista {
    var id: int
    var fullName: string
    var orderList: seq<OrderRow>
    var tipSize: real

    ghost predicate Valid()
      reads this
    {
      id >= UNASSIGNED_ID && |fullName| > 0 && tipSize >= 0.0
    }

    /** The barista's own columns, as the table and the NoRef DTO hold them. */
    function Row(): BaristaRow
      reads this
    {
      BaristaRow(id, fullName, tipSize)
    }

    constructor Init(id: int, fullName: string, orderList: seq<OrderRow>, tipSize: real)
      requires id >= UNASSIGNED_ID && |fullName| > 0 && tipSize >= 0.0
      ensures Valid()
      ensures this.id == id && this.fullName == fullName && this.orderList == orderList && this.tipSize == tipSize
    {
      this.id := id;
      this.fullName := fullName;
      this.orderList := orderList;
      this.tipSize := tipSize;
    }

    /** new Barista(id, fullName, orderList, tipSize); the list is copied. */
    static method New(id: Option<int>, fullName: Option<string>, orderList: Option<seq<OrderRow>>, tipSize: Option<Dbl>)
      returns (r: Result<Barista>)
      ensures r.Success? <==> ConstructorError(id, fullName, orderList.Some?, tipSize).Pass?
      ensures r.Failure? ==> ConstructorError(id, fullName, orderList.Some?, tipSize) == Fail(r.error)
      ensures r.Success? ==> fresh(r.value) && r.value.Valid()
                             && r.value.Row() == BaristaRow(id.value, fullName.value, tipSize.value.v)
                             && r.value.orderList == orderList.value
    {
      var check := ConstructorError(id, fullName, orderList.Some?, tipSize);
      if check.Fail? {
        return Failure(check.error);
      }
      var b := new Barista.Init(id.value, fullName.value, orderList.value, tipSize.value.v);
      return Success(b);
    }

    /** new Barista(fullName, orderList, tipSize): the id stays unassigned. */
    static method NewUnsaved(fullName: Option<string>, orderList: Option<seq<OrderRow>>, tipSize: Option<Dbl>)
      returns (r: Result<Barista>)
      ensures r.Success? <==> UnsavedError(fullName, orderList.Some?, tipSize).Pass?
      ensures r.Failure? ==> UnsavedError(fullName, orderList.Some?, tipSize) == Fail(r.error)
      ensures r.Success? ==> fresh(r.value) && r.value.Valid()
                             && r.value.Row() == BaristaRow(UNASSIGNED_ID, fullName.value, tipSize.value.v)
                             && r.value.orderList == orderList.value
    {
      var check := UnsavedError(fullName, orderList.Some?, tipSize);
      if check.Fail? {
        return Failure(check.error);
      }
      var b := new Barista.Init(UNASSIGNED_ID, fullName.value, orderList.value, tipSize.value.v);
      return Success(b);
    }

    /** new Barista(fullName, tipSize): unassigned id, empty order list. */
    static method NewWithTip(fullName: Option<string>, tipSize: Option<Dbl>) returns (r: Result<Barista>)
      ensures r.Success? <==> UnsavedError(fullName, true, tipSize).Pass?
      ensures r.Failure? ==> UnsavedError(fullName, true, tipSize) == Fail(r.error)
      ensures r.Success? ==> fresh(r.value) && r.value.Valid()
                             && r.value.Row() == BaristaRow(UNASSIGNED_ID, fullName.value, tipSize.value.v)
                             && r.value.orderList == []
    {
      r := NewUnsaved(fullName, Some([]), tipSize);
    }

    /** new Barista(fullName): unassigned id, empty order list, the default tip. */
    static method NewNamed(fullName: Option<string>) returns (r: Result<Barista>)
      ensures r.Success? <==> NameError(fullName).Pass?
      ensures r.Failure? ==> NameError(fullName) == Fail(r.error)
      ensures r.Success? ==> fresh(r.value) && r.value.Valid()
                             && r.value.Row() == BaristaRow(UNASSIGNED_ID, fullName.value, DEFAULT_TIP_SIZE)
                             && r.value.orderList == []
    {
      r := NewUnsaved(fullName, Some([]), Some(Finite(DEFAULT_TIP_SIZE)));
    }

    /** new Barista(fullName, orderList): unassigned id, the default tip; the list is not copied. */
    static method NewNamedWithList(fullName: Option<string>, orderList: Option<seq<OrderRow>>) returns (r: Result<Barista>)
      ensures r.Success? <==> orderList.Some? && NameError(fullName).Pass?
      ensures r.Failure? && orderList.None? ==> r.error == NullParam
      ensures r.Failure? && orderList.Some? ==> NameError(fullName) == Fail(r.error)
      ensures r.Success? ==> fresh(r.value) && r.value.Valid()
                             && r.value.Row() == BaristaRow(UNASSIGNED_ID, fullName.value, DEFAULT_TIP_SIZE)
                             && r.value.orderList == orderList.value
    {
      r := NewUnsaved(fullName, orderList, Some(Finite(DEFAULT_TIP_SIZE)));
    }

    /** getId: the sentinel is refused. */
    method GetId() returns (r: Result<int>)
      ensures r == AssignedId(id)
    {
      if id == UNASSIGNED_ID {
        return Failure(NoValidId);
      }
      return Success(id);
    }

    method SetId(newId: Option<int>) returns (o: Outcome)
      requires Valid()
      modifies this`id
      ensures Valid()
      ensures o == IdError(newId)
      ensures id == if o.Pass? then newId.value else old(id)
    {
      o := IdError(newId);
      if o.Pass? {
        id := newId.value;
      }
    }

    method SetFullName(newName: Option<string>) returns (o: Outcome)
      requires Valid()
      modifies this`fullName
      ensures Valid()
      ensures o == NameError(newName)
      ensures fullName == if o.Pass? then newName.value else old(fullName)
    {
      o := NameError(newName);
      if o.Pass? {
        fullName := newName.value;
      }
    }

    /** setOrderList stores a copy; a value sequence is one. */
    method SetOrderList(newList: Option<seq<OrderRow>>) returns (o: Outcome)
      requires Valid()
      modifies this`orderList
      ensures Valid()
      ensures o.Pass? <==> newList.Some?
      ensures o.Fail? ==> o.error == NullParam
      ensures orderList == if o.Pass? then newList.value else old(orderList)
    {
      if newList.None? {
        return Fail(NullParam);
      }
      orderList := newList.value;
      return Pass;
    }

    method SetTipSize(newTip: Option<Dbl>) returns (o: Outcome)
      requires Valid()
      modifies this`tipSize
      ensures Valid()
      ensures o == AmountError(newTip, NoValidTipSize)
      ensures tipSize == if o.Pass? then newTip.value.v else old(tipSize)
    {
      o := AmountError(newTip, NoValidTipSize);
      if o.Pass? {
        tipSize := newTip.value.v;
      }
    }

    /** equals: the same object, or another barista with the same assigned id. */
    method Equals(other: Barista?) returns (r: Result<bool>)
      ensures other == this ==> r == Success(true)
      ensures other == null ==> r == Success(false)
      ensures other != null && other != this ==>
                r == if id == UNASSIGNED_ID || other.id == UNASSIGNED_ID then Failure(NoValidId)
                     else Success(id == other.id)
    {
      if other == this {
        return Success(true);
      }
      if other == null {
        return Success(false);
      }
      var mine :- GetId();
      var theirs :- other.GetId();
      return Success(mine == theirs);
    }

    /** hashCode hashes getId(); the model returns the id it hashes. */
    method HashCode() returns (r: Result<int>)
      ensures r == AssignedId(id)
    {
      r := GetId();
    }
  }
}
