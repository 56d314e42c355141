/**
 * The coffee table (repository/imp/CoffeeRepositoryImp.java over the SQL of
 * repository/until/CoffeeSQL.java). Writers take and return Coffee entities;
 * finders return the stored rows.
 */
module CoffeeRepository {
  import opened Wrappers
  import opened Exceptions
  import opened Values
  import opened Seqs
  import opened Store
  import opened CoffeeEntity

  /** update's checks: getId, then the copy through the four-argument constructor, then a matching row. */
  function UpdateError(coffees: map<int, CoffeeRow>, id: int, name: string, price: real): (o: Outcome)
    ensures o.Pass? <==> id >= 0 && |name| > 0 && price >= 0.0 && id in coffees
    ensures id == UNASSIGNED_ID ==> o == Fail(NoValidId)
    ensures id >= 0 && |name| > 0 && price >= 0.0 && id !in coffees ==> o == Fail(CoffeeNotFound([id]))
  {
    if id == UNASSIGNED_ID then Fail(NoValidId)
    else
      var copy := ConstructorError(Some(id), Some(name), Some(Finite(price)), true);
      if copy.Fail? then copy
      else if id !in coffees then Fail(CoffeeNotFound([id]))
      else Pass
  }

  /** create: inserts a copy of the coffee under a fresh id and returns the copy with that id. */
  method Create(db: Db, coffee: Coffee?) returns (r: Result<Coffee>)
    requires db.Valid()
    modifies db`coffees, db`coffeeKeys, db`nextCoffeeId
    ensures db.Valid()
    ensures coffee == null ==> r == Failure(NullParam)
    ensures coffee != null ==>
              (r.Success? <==> UnsavedError(Some(coffee.name), Some(Finite(coffee.price)), true).Pass?)
    ensures coffee != null && r.Failure? ==>
              UnsavedError(Some(coffee.name), Some(Finite(coffee.price)), true) == Fail(r.error)
    ensures r.Failure? ==> db.coffees == old(db.coffees) && db.coffeeKeys == old(db.coffeeKeys)
                           && db.nextCoffeeId == old(db.nextCoffeeId)
    ensures r.Success? ==>
              && coffee != null && fresh(r.value) && r.value.Valid()
              && r.value.id == old(db.nextCoffeeId) && r.value.id !in old(db.coffees)
              && r.value.name == coffee.name && r.value.price == coffee.price
              && r.value.orderList == coffee.orderList
              && db.coffees == old(db.coffees)[r.value.id := r.value.Row()]
              && db.coffeeKeys == old(db.coffeeKeys) + [r.value.id]
    ensures old(db.PairsResolve()) ==> db.PairsResolve()
  {
    if coffee == null {
      return Failure(NullParam);
    }
    var copy :- Coffee.NewUnsaved(Some(coffee.name), Some(Finite(coffee.price)), Some(coffee.orderList));
    var id := db.nextCoffeeId;
    var row := CoffeeRow(id, copy.name, copy.price);
    IndexedInsert(db.coffees, db.coffeeKeys, db.nextCoffeeId, row);
    db.coffees := db.coffees[id := row];
    db.coffeeKeys := db.coffeeKeys + [id];
    db.nextCoffeeId := id + 1;
    var stored := copy.SetId(Some(id));
    return Success(copy);
  }

  /** update: rewrites the name and price of the row with the coffee's id; pairs are not touched. */
  method Update(db: Db, coffee: Coffee?) returns (r: Result<Coffee>)
    requires db.Valid()
    modifies db`coffees
    ensures db.Valid()
    ensures coffee == null ==> r == Failure(NullParam)
    ensures coffee != null ==>
              (r.Success? <==> UpdateError(old(db.coffees), coffee.id, coffee.name, coffee.price).Pass?)
    ensures coffee != null && r.Failure? ==>
              UpdateError(old(db.coffees), coffee.id, coffee.name, coffee.price) == Fail(r.error)
    ensures r.Failure? ==> db.coffees == old(db.coffees)
    ensures r.Success? ==>
              && coffee != null && fresh(r.value) && r.value.Valid()
              && r.value.id == coffee.id && r.value.name == coffee.name
              && r.value.price == coffee.price && r.value.orderList == coffee.orderList
              && db.coffees == old(db.coffees)[coffee.id := r.value.Row()]
    ensures old(db.PairsResolve()) ==> db.PairsResolve()
  {
    if coffee == null {
      return Failure(NullParam);
    }
    var id :- coffee.GetId();
    var copy :- Coffee.New(Some(id), Some(coffee.name), Some(Finite(coffee.price)), Some(coffee.orderList));
    if id !in db.coffees {
      return Failure(CoffeeNotFound([id]));
    }
    IndexedUpdate(db.coffees, db.coffeeKeys, db.nextCoffeeId, id, copy.Row());
    db.coffees := db.coffees[id := copy.Row()];
    return Success(copy);
  }

  /** delete: removes the row; its pairs are left to the caller. */
  method Delete(db: Db, id: Option<int>) returns (o: Outcome)
    requires db.Valid()
    modifies db`coffees, db`coffeeKeys
    ensures db.Valid()
    ensures IdError(id).Fail? ==> o == IdError(id)
    ensures IdError(id).Pass? ==> o == if id.value in old(db.coffees) then Pass else Fail(CoffeeNotFound([id.value]))
    ensures db.coffees == if o.Pass? then old(db.coffees) - {id.value} else old(db.coffees)
    ensures db.coffeeKeys == if o.Pass? then Remove(old(db.coffeeKeys), id.value) else old(db.coffeeKeys)
  {
    o := IdError(id);
    if o.Fail? {
      return;
    }
    if id.value !in db.coffees {
      return Fail(CoffeeNotFound([id.value]));
    }
    IndexedRemove(db.coffees, db.coffeeKeys, db.nextCoffeeId, id.value);
    db.coffees := db.coffees - {id.value};
    db.coffeeKeys := Remove(db.coffeeKeys, id.value);
  }

  /** findAll: every row, in scan order. */
  function FindAll(db: Db): (r: seq<CoffeeRow>)
    reads db
    requires db.Valid()
    ensures forall c :: c in r <==> c.id in db.coffees && db.coffees[c.id] == c
    ensures forall i, j :: 0 <= i < j < |r| ==> r[i].id != r[j].id
    ensures Distinct(r)
  {
    db.CoffeeScan()
  }

  /** findById: null and negative ids are refused; a missing row is an empty answer. */
  function FindById(db: Db, id: Option<int>): (r: Result<Option<CoffeeRow>>)
    reads db
    requires db.Valid()
    ensures IdError(id).Fail? ==> r == Failure(IdError(id).error)
    ensures IdError(id).Pass? ==> r.Success?
    ensures r.Success? && id.value in db.coffees ==> r.value == Some(db.coffees[id.value]) && r.value.value.id == id.value
    ensures r.Success? && id.value !in db.coffees ==> r.value == None
  {
    var check := IdError(id);
    if check.Fail? then Failure(check.error)
    else if id.value in db.coffees then Success(Some(db.coffees[id.value]))
    else Success(None)
  }

  /** findAllByPage: the limit is checked before the page; a page is a slice of findAll. */
  function FindAllByPage(db: Db, page: int, limit: int): (r: Result<seq<CoffeeRow>>)
    reads db
    requires db.Valid()
    ensures PageArgsError(page, limit).Fail? ==> r == Failure(PageArgsError(page, limit).error)
    ensures r.Success? ==> page >= 0 && limit > 0 && r.value == Page(FindAll(db), page, limit)
    ensures r.Success? ==> |r.value| <= limit
  {
    var check := PageArgsError(page, limit);
    if check.Fail? then Failure(check.error)
    else Success(Page(FindAll(db), page, limit))
  }

  /**
   * findByOrderId: exactly the coffees paired with that order, each once.
   * The join starts from the coffee table, so every id it yields resolves
   * and the not-found branch after it cannot be taken.
   */
  function FindByOrderId(db: Db, orderId: Option<int>): (r: Result<seq<CoffeeRow>>)
    reads db
    requires db.Valid()
    ensures IdError(orderId).Fail? ==> r == Failure(IdError(orderId).error)
    ensures IdError(orderId).Pass? ==> r.Success?
    ensures r.Success? ==> forall c :: c in r.value <==>
                              c.id in db.coffees && db.coffees[c.id] == c && (orderId.value, c.id) in db.pairs
    ensures r.Success? ==> Distinct(r.value)
  {
    var check := IdError(orderId);
    if check.Fail? then Failure(check.error)
    else
      var o, pairs := orderId.value, db.pairs;
      Success(Filter(FindAll(db), (c: CoffeeRow) => (o, c.id) in pairs))
  }

  /** deleteReferencesByCoffeeId: removes every pair of that coffee and no other. */
  method DeleteReferencesByCoffeeId(db: Db, coffeeId: Option<int>) returns (o: Outcome)
    requires db.Valid()
    modifies db`pairs
    ensures db.Valid()
    ensures o == IdError(coffeeId)
    ensures db.pairs == if o.Pass? then set p | p in old(db.pairs) && p.1 != coffeeId.value else old(db.pairs)
    ensures old(db.PairsResolve()) ==> db.PairsResolve()
  {
    o := IdError(coffeeId);
    if o.Pass? {
      db.pairs := set p | p in db.pairs && p.1 != coffeeId.value;
    }
  }
}
