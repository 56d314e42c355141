/** The Coffee entity (entity/Coffee.java): a validated record updated by setters. */
module CoffeeEntity {
  import opened Wrappers
  import opened Exceptions
  import opened Values

  /** The checks of the constructors without an id: nulls, then the name, then the price. */
  function UnsavedError(name: Option<string>, price: Option<Dbl>, listGiven: bool): (o: Outcome)
    ensures o.Pass? <==> name.Some? && price.Some? && listGiven
                         && |name.value| > 0 && IsValidAmount(price.value)
    ensures name.None? || price.None? || !listGiven ==> o == Fail(NullParam)
    ensures name == Some([]) && price.Some? && listGiven ==> o == Fail(NoValidName)
    ensures o == Fail(NoValidPrice) ==> name.Some? && |name.value| > 0
  {
    if name.None? || price.None? || !listGiven then Fail(NullParam)
    else if |name.value| == 0 then Fail(NoValidName)
    else if !IsValidAmount(price.value) then Fail(NoValidPrice)
    else Pass
  }

  /** The checks of the four-argument constructor: nulls, id, name, price. */
  function ConstructorError(id: Option<int>, name: Option<string>, price: Option<Dbl>, listGiven: bool): (o: Outcome)
    ensures o.Pass? <==> id.Some? && id.value >= 0 && UnsavedError(name, price, listGiven).Pass?
    ensures id.None? ==> o == Fail(NullParam)
    ensures id.Some? && id.value < 0 && name.Some? && price.Some? && listGiven ==> o == Fail(NoValidId)
    ensures id.Some? && id.value >= 0 ==> o == UnsavedError(name, price, listGiven)
  {
    if id.None? || name.None? || price.None? || !listGiven then Fail(NullParam)
    else if id.value < 0 then Fail(NoValidId)
    else UnsavedError(name, price, listGiven)
  }

  class Coffee {
    var id: int
    var name: string
    var price: real
    var orderList: seq<OrderRow>

    ghost predicate Valid()
      reads this
    {
      id >= UNASSIGNED_ID && |name| > 0 && price >= 0.0
    }

    /** The coffee's own columns, as the table and the NoRef DTO hold them. */
    function Row(): CoffeeRow
      reads this
    {
      CoffeeRow(id, name, price)
    }

    constructor Init(id: int, name: string, price: real, orderList: seq<OrderRow>)
      requires id >= UNASSIGNED_ID && |name| > 0 && price >= 0.0
      ensures Valid()
      ensures this.id == id && this.name == name && this.price == price && this.orderList == orderList
    {
      this.id := id;
      this.name := name;
      this.price := price;
      this.orderList := orderList;
    }

    /** new Coffee(id, name, price, orderList); the list is copied. */
    static method New(id: Option<int>, name: Option<string>, price: Option<Dbl>, orderList: Option<seq<OrderRow>>)
      returns (r: Result<Coffee>)
      ensures r.Success? <==> ConstructorError(id, name, price, orderList.Some?).Pass?
      ensures r.Failure? ==> ConstructorError(id, name, price, orderList.Some?) == Fail(r.error)
      ensures r.Success? ==> fresh(r.value) && r.value.Valid()
                             && r.value.Row() == CoffeeRow(id.value, name.value, price.value.v)
                             && r.value.orderList == orderList.value
    {
      var check := ConstructorError(id, name, price, orderList.Some?);
      if check.Fail? {
        return Failure(check.error);
      }
      var c := new Coffee.Init(id.value, name.value, price.value.v, orderList.value);
      return Success(c);
    }

    /** new Coffee(name, price, orderList): the id stays unassigned. */
    static method NewUnsaved(name: Option<string>, price: Option<Dbl>, orderList: Option<seq<OrderRow>>)
      returns (r: Result<Coffee>)
      ensures r.Success? <==> UnsavedError(name, price, orderList.Some?).Pass?
      ensures r.Failure? ==> UnsavedError(name, price, orderList.Some?) == Fail(r.error)
      ensures r.Success? ==> fresh(r.value) && r.value.Valid()
                             && r.value.Row() == CoffeeRow(UNASSIGNED_ID, name.value, price.value.v)
                             && r.value.orderList == orderList.value
    {
      var check := UnsavedError(name, price, orderList.Some?);
      if check.Fail? {
        return Failure(check.error);
      }
      var c := new Coffee.Init(UNASSIGNED_ID, name.value, price.value.v, orderList.value);
      return Success(c);
    }

    /** new Coffee(name, price): unassigned id, empty order list. */
    static method NewWithPrice(name: Option<string>, price: Option<Dbl>) returns (r: Result<Coffee>)
      ensures r.Success? <==> UnsavedError(name, price, true).Pass?
      ensures r.Failure? ==> UnsavedError(name, price, true) == Fail(r.error)
      ensures r.Success? ==> fresh(r.value) && r.value.Valid()
                             && r.value.Row() == CoffeeRow(UNASSIGNED_ID, name.value, price.value.v)
                             && r.value.orderList == []
    {
      r := NewUnsaved(name, price, Some([]));
    }

    /** getId: the sentinel is refused. */
    method GetId() returns (r: Result<int>)
      ensures r == AssignedId(id)
    {
      if id == UNASSIGNED_ID {
        return Failure(NoValidId);
      }
      return Success(id);
    }

    method SetId(newId: Option<int>) returns (o: Outcome)
      requires Valid()
      modifies this`id
      ensures Valid()
      ensures o == IdError(newId)
      ensures id == if o.Pass? then newId.value else old(id)
    {
      o := IdError(newId);
      if o.Pass? {
        id := newId.value;
      }
    }

    method SetName(newName: Option<string>) returns (o: Outcome)
      requires Valid()
      modifies this`name
      ensures Valid()
      ensures o == NameError(newName)
      ensures name == if o.Pass? then newName.value else old(name)
    {
      o := NameError(newName);
      if o.Pass? {
        name := newName.value;
      }
    }

    method SetPrice(newPrice: Option<Dbl>) returns (o: Outcome)
      requires Valid()
      modifies this`price
      ensures Valid()
      ensures o == AmountError(newPrice, NoValidPrice)
      ensures price == if o.Pass? then newPrice.value.v else old(price)
    {
      o := AmountError(newPrice, NoValidPrice);
      if o.Pass? {
        price := newPrice.value.v;
      }
    }

    /** setOrderList stores a copy; a value sequence is one. */
    method SetOrderList(newList: Option<seq<OrderRow>>) returns (o: Outcome)
      requires Valid()
      modifies this`orderList
      ensures Valid()
      ensures o.Pass? <==> newList.Some?
      ensures o.Fail? ==> o.error == NullParam
      ensures orderList == if o.Pass? then newList.value else old(orderList)
    {
      if newList.None? {
        return Fail(NullParam);
      }
      orderList := newList.value;
      return Pass;
    }

    /** equals: the same object, or another coffee with the same assigned id. */
    method Equals(other: Coffee?) returns (r: Result<bool>)
      ensures other == this ==> r == Success(true)
      ensures other == null ==> r == Success(false)
      ensures other != null && other != this ==>
                r == if id == UNASSIGNED_ID || other.id == UNASSIGNED_ID then Failure(NoValidId)
                     else Success(id == other.id)
    {
      if other == this {
        return Success(true);
      }
      if other == null {
        return Success(false);
      }
      var mine :- GetId();
      var theirs :- other.GetId();
      return Success(mine == theirs);
    }

    /** hashCode hashes getId(); the model returns the id it hashes. */
    method HashCode() returns (r: Result<int>)
      ensures r == AssignedId(id)
    {
      r := GetId();
    }
  }
}
