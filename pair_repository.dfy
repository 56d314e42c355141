/**
 * The order_coffee pair table (repository/ManyToManyRepository.java).
 * Both OrderRepository and CoffeeRepository write it with the order id in
 * the first column and the coffee id in the second.
 */
module ManyToManyRepository {
  import opened Wrappers
  import opened Exceptions
  import opened Values
  import opened Store

  /** The argument checks of addReference and deleteReference: nulls, then the first id, then the second. */
  function ArgumentError(orderId: Option<int>, coffeeId: Option<int>): (o: Outcome)
    ensures o.Pass? <==> orderId.Some? && coffeeId.Some? && orderId.value >= 0 && coffeeId.value >= 0
    ensures orderId.None? || coffeeId.None? ==> o == Fail(NullParam)
    ensures orderId.Some? && coffeeId.Some? && (orderId.value < 0 || coffeeId.value < 0) ==> o == Fail(NoValidId)
  {
    if orderId.None? || coffeeId.None? then Fail(NullParam)
    else if orderId.value < 0 then Fail(NoValidId)
    else if coffeeId.value < 0 then Fail(NoValidId)
    else Pass
  }

  /**
   * addReference: the argument checks, then the foreign keys of the pair
   * table (SQLSTATE 23503, foreign_key_violation, becomes KeyNotPresent).
   */
  function AddError(orders: map<int, OrderRow>, coffees: map<int, CoffeeRow>,
                    orderId: Option<int>, coffeeId: Option<int>): (o: Outcome)
    ensures o.Pass? <==> ArgumentError(orderId, coffeeId).Pass? && orderId.value in orders && coffeeId.value in coffees
    ensures ArgumentError(orderId, coffeeId).Fail? ==> o == ArgumentError(orderId, coffeeId)
    ensures o.Fail? && ArgumentError(orderId, coffeeId).Pass? ==> o.error == KeyNotPresent
  {
    var args := ArgumentError(orderId, coffeeId);
    if args.Fail? then args
    else if orderId.value !in orders || coffeeId.value !in coffees then Fail(KeyNotPresent)
    else Pass
  }

  /** addReference: INSERT ... ON CONFLICT DO NOTHING, so adding a present pair changes nothing. */
  method AddReference(db: Db, orderId: Option<int>, coffeeId: Option<int>) returns (o: Outcome)
    requires db.Valid()
    modifies db`pairs
    ensures db.Valid()
    ensures o == AddError(db.orders, db.coffees, orderId, coffeeId)
    ensures db.pairs == if o.Pass? then old(db.pairs) + {(orderId.value, coffeeId.value)} else old(db.pairs)
    ensures old(db.PairsResolve()) ==> db.PairsResolve()
  {
    o := AddError(db.orders, db.coffees, orderId, coffeeId);
    if o.Pass? {
      db.pairs := db.pairs + {(orderId.value, coffeeId.value)};
    }
  }

  /** deleteReference: removes that one pair; an absent pair is not an error. */
  method DeleteReference(db: Db, orderId: Option<int>, coffeeId: Option<int>) returns (o: Outcome)
    requires db.Valid()
    modifies db`pairs
    ensures db.Valid()
    ensures o == ArgumentError(orderId, coffeeId)
    ensures db.pairs == if o.Pass? then old(db.pairs) - {(orderId.value, coffeeId.value)} else old(db.pairs)
    ensures old(db.PairsResolve()) ==> db.PairsResolve()
  {
    o := ArgumentError(orderId, coffeeId);
    if o.Pass? {
      db.pairs := db.pairs - {(orderId.value, coffeeId.value)};
    }
  }
}
