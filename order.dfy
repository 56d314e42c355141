/**
 * The Order entity (entity/Order.java): a validated record updated by
 * setters, with a small open -> completed life cycle.
 */
module OrderEntity {
  import opened Wrappers
  import opened Exceptions
  import opened Values

  /** A completion time needs a creation time and may not precede it (the constructor's rule). */
  predicate TimesConsistent(created: Option<Instant>, completed: Option<Instant>)
  {
    completed.Some? ==> created.Some? && created.value <= completed.value
  }

  /**
   * The checks of the five-argument constructor (barista, coffees, created,
   * completed, price), which is the all-fields constructor without the id.
   */
  function UnsavedError(barista: Option<BaristaRow>, coffeeList: Option<seq<CoffeeRow>>,
                        created: Option<Instant>, completed: Option<Instant>, price: Option<Dbl>): (o: Outcome)
    ensures o.Pass? <==> barista.Some? && coffeeList.Some? && price.Some?
                         && TimesConsistent(created, completed) && IsValidAmount(price.value)
    ensures barista.None? || coffeeList.None? || price.None? ==> o == Fail(NullParam)
  {
    if barista.None? || coffeeList.None? || price.None? then Fail(NullParam)
    else if created.None? && completed.Some? then Fail(CreatedNotDefined)
    else if completed.Some? && completed.value < created.value then Fail(CompletedBeforeCreated)
    else if !IsValidAmount(price.value) then Fail(NoValidPrice)
    else Pass
  }

  /**
   * The checks of the all-fields constructor, in source order: nulls, a
   * completion without a creation, the id, completion before creation, price.
   */
  function ConstructorError(id: Option<int>, barista: Option<BaristaRow>, coffeeList: Option<seq<CoffeeRow>>,
                            created: Option<Instant>, completed: Option<Instant>, price: Option<Dbl>): (o: Outcome)
    ensures o.Pass? <==> id.Some? && id.value >= 0
                         && UnsavedError(barista, coffeeList, created, completed, price).Pass?
    ensures id.None? || barista.None? || coffeeList.None? || price.None? ==> o == Fail(NullParam)
    ensures (id.Some? && barista.Some? && coffeeList.Some? && price.Some? && created.None? && completed.Some?)
            ==> o == Fail(CreatedNotDefined)
    ensures (id.Some? && barista.Some? && coffeeList.Some? && price.Some? && id.value < 0
             && (created.Some? || completed.None?)) ==> o == Fail(NoValidId)
    ensures id.Some? && id.value >= 0 ==> o == UnsavedError(barista, coffeeList, created, completed, price)
  {
    if id.None? || barista.None? || coffeeList.None? || price.None? then Fail(NullParam)
    else if created.None? && completed.Some? then Fail(CreatedNotDefined)
    else if id.value < 0 then Fail(NoValidId)
    else UnsavedError(barista, coffeeList, created, completed, price)
  }

  /** The checks of setCompleted: null clears; otherwise strictly after a defined creation. */
  function CompletedError(created: Option<Instant>, completed: Option<Instant>): (o: Outcome)
    ensures o.Pass? <==> completed.None? || (created.Some? && completed.value > created.value)
    ensures created.None? && completed.Some? ==> o == Fail(CreatedNotDefined)
    ensures created.Some? && completed.Some? && completed.value <= created.value ==> o == Fail(CompletedBeforeCreated)
  {
    if created.None? && completed.Some? then Fail(CreatedNotDefined)
    else if completed.Some? && completed.value <= created.value then Fail(CompletedBeforeCreated)
    else Pass
  }

  /**
   * The constructor accepts a completion at the creation instant while
   * setCompleted refuses it.
   */
  lemma CompletionBoundary(id: nat, b: BaristaRow, t: Instant)
    ensures ConstructorError(Some(id), Some(b), Some([]), Some(t), Some(t), Some(Finite(0.0))) == Pass
    ensures CompletedError(Some(t), Some(t)) == Fail(CompletedBeforeCreated)
  {
  }

  class Order {
    var id: int
    var barista: BaristaRow
    var coffeeList: seq<CoffeeRow>
    var created: Option<Instant>
    var completed: Option<Instant>
    var price: real

    /**
     * No setter can clear `created` once set, so a completion always has a
     * creation; setCreated does not re-check the order of the two instants.
     */
    ghost predicate Valid()
      reads this
    {
      id >= UNASSIGNED_ID && price >= 0.0 && (completed.Some? ==> created.Some?)
    }

    /** The order's own columns, once it has a creation time. */
    function Row(): OrderRow
      reads this
      requires created.Some?
    {
      OrderRow(id, barista.id, created.value, completed, price)
    }

    constructor Init(id: int, barista: BaristaRow, coffeeList: seq<CoffeeRow>,
                     created: Option<Instant>, completed: Option<Instant>, price: real)
      requires id >= UNASSIGNED_ID && price >= 0.0 && TimesConsistent(created, completed)
      ensures Valid()
      ensures this.id == id && this.barista == barista && this.coffeeList == coffeeList
      ensures this.created == created && this.completed == completed && this.price == price
    {
      this.id := id;
      this.barista := barista;
      this.coffeeList := coffeeList;
      this.created := created;
      this.completed := completed;
      this.price := price;
    }

    /** new Order(id, barista, coffeeList, created, completed, price); the list is copied. */
    static method New(id: Option<int>, barista: Option<BaristaRow>, coffeeList: Option<seq<CoffeeRow>>,
                      created: Option<Instant>, completed: Option<Instant>, price: Option<Dbl>)
      returns (r: Result<Order>)
      ensures r.Success? <==> ConstructorError(id, barista, coffeeList, created, completed, price).Pass?
      ensures r.Failure? ==> ConstructorError(id, barista, coffeeList, created, completed, price) == Fail(r.error)
      ensures r.Success? ==> fresh(r.value) && r.value.Valid()
                             && r.value.id == id.value && r.value.barista == barista.value
                             && r.value.coffeeList == coffeeList.value && r.value.created == created
                             && r.value.completed == completed && r.value.price == price.value.v
    {
      var check := ConstructorError(id, barista, coffeeList, created, completed, price);
      if check.Fail? {
        return Failure(check.error);
      }
      var o := new Order.Init(id.value, barista.value, coffeeList.value, created, completed, price.value.v);
      return Success(o);
    }

    /**
     * new Order(barista, coffeeList), which entity/Order.java does not
     * declare: the documented defaults (unassigned id, price 0, no times).
     */
    static method NewUnsaved(barista: Option<BaristaRow>, coffeeList: Option<seq<CoffeeRow>>) returns (r: Result<Order>)
      ensures r.Success? <==> barista.Some? && coffeeList.Some?
      ensures r.Failure? ==> r.error == NullParam
      ensures r.Success? ==> fresh(r.value) && r.value.Valid()
                             && r.value.id == UNASSIGNED_ID && r.value.barista == barista.value
                             && r.value.coffeeList == coffeeList.value && r.value.created == None
                             && r.value.completed == None && r.value.price == 0.0
    {
      r := NewWithoutId(barista, coffeeList, None, None, Some(Finite(0.0)));
    }

    /**
     * new Order(barista, coffeeList, created, completed, price), which
     * entity/Order.java does not declare: the all-fields checks without the
     * id, which stays unassigned.
     */
    static method NewWithoutId(barista: Option<BaristaRow>, coffeeList: Option<seq<CoffeeRow>>,
                               created: Option<Instant>, completed: Option<Instant>, price: Option<Dbl>)
      returns (r: Result<Order>)
      ensures r.Success? <==> UnsavedError(barista, coffeeList, created, completed, price).Pass?
      ensures r.Failure? ==> UnsavedError(barista, coffeeList, created, completed, price) == Fail(r.error)
      ensures r.Success? ==> fresh(r.value) && r.value.Valid()
                             && r.value.id == UNASSIGNED_ID && r.value.barista == barista.value
                             && r.value.coffeeList == coffeeList.value && r.value.created == created
                             && r.value.completed == completed && r.value.price == price.value.v
    {
      var check := UnsavedError(barista, coffeeList, created, completed, price);
      if check.Fail? {
        return Failure(check.error);
      }
      var o := new Order.Init(UNASSIGNED_ID, barista.value, coffeeList.value, created, completed, price.value.v);
      return Success(o);
    }

    /** getId: the sentinel is refused. */
    method GetId() returns (r: Result<int>)
      ensures r == AssignedId(id)
    {
      if id == UNASSIGNED_ID {
        return Failure(NoValidId);
      }
      return Success(id);
    }

    method SetId(newId: Option<int>) returns (o: Outcome)
      requires Valid()
      modifies this`id
      ensures Valid()
      ensures o == IdError(newId)
      ensures id == if o.Pass? then newId.value else old(id)
    {
      o := IdError(newId);
      if o.Pass? {
        id := newId.value;
      }
    }

    method SetBarista(newBarista: Option<BaristaRow>) returns (o: Outcome)
      requires Valid()
      modifies this`barista
      ensures Valid()
      ensures o.Pass? <==> newBarista.Some?
      ensures o.Fail? ==> o.error == NullParam
      ensures barista == if o.Pass? then newBarista.value else old(barista)
    {
      if newBarista.None? {
        return Fail(NullParam);
      }
      barista := newBarista.value;
      return Pass;
    }

    /** setCoffeeList stores a copy; a value sequence is one. */
    method SetCoffeeList(newList: Option<seq<CoffeeRow>>) returns (o: Outcome)
      requires Valid()
      modifies this`coffeeList
      ensures Valid()
      ensures o.Pass? <==> newList.Some?
      ensures o.Fail? ==> o.error == NullParam
      ensures coffeeList == if o.Pass? then newList.value else old(coffeeList)
    {
      if newList.None? {
        return Fail(NullParam);
      }
      coffeeList := newList.value;
      return Pass;
    }

    /** setCreated refuses null only; it does not compare with `completed`. */
    method SetCreated(newCreated: Option<Instant>) returns (o: Outcome)
      requires Valid()
      modifies this`created
      ensures Valid()
      ensures o.Pass? <==> newCreated.Some?
      ensures o.Fail? ==> o.error == NullParam
      ensures created == if o.Pass? then newCreated else old(created)
    {
      if newCreated.None? {
        return Fail(NullParam);
      }
      created := newCreated;
      return Pass;
    }

    /** setCompleted: null clears the field; a value must lie strictly after `created`. */
    method SetCompleted(newCompleted: Option<Instant>) returns (o: Outcome)
      requires Valid()
      modifies this`completed
      ensures Valid()
      ensures o == CompletedError(created, newCompleted)
      ensures completed == if o.Pass? then newCompleted else old(completed)
    {
      o := CompletedError(created, newCompleted);
      if o.Pass? {
        completed := newCompleted;
      }
    }

    method SetPrice(newPrice: Option<Dbl>) returns (o: Outcome)
      requires Valid()
      modifies this`price
      ensures Valid()
      ensures o == AmountError(newPrice, NoValidPrice)
      ensures price == if o.Pass? then newPrice.value.v else old(price)
    {
      o := AmountError(newPrice, NoValidPrice);
      if o.Pass? {
        price := newPrice.value.v;
      }
    }

    /** equals: the same object, or another order with the same assigned id. */
    method Equals(other: Order?) returns (r: Result<bool>)
      ensures other == this ==> r == Success(true)
      ensures other == null ==> r == Success(false)
      ensures other != null && other != this ==>
                r == if id == UNASSIGNED_ID || other.id == UNASSIGNED_ID then Failure(NoValidId)
                     else Success(id == other.id)
    {
      if other == this {
        return Success(true);
      }
      if other == null {
        return Success(false);
      }
      var mine :- GetId();
      var theirs :- other.GetId();
      return Success(mine == theirs);
    }

    /** hashCode hashes getId(); the model returns the id it hashes. */
    method HashCode() returns (r: Result<int>)
      ensures r == AssignedId(id)
    {
      r := GetId();
    }
  }
}
