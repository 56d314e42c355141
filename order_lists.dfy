/**
 * Lists of orders as the coffee and barista services handle them: the
 * ids they carry, List.removeAll (which compares orders by id, as
 * Order.equals does), and the rows an update's id list resolves to.
 */
module OrderLists {
  import opened Exceptions
  import opened Values
  import opened Lookup
  import opened IdLists
  import opened Seqs
  import opened Store

  function Ids(orders: seq<OrderRow>): set<int>
  {
    set o | o in orders :: o.id
  }

  /** orders.removeAll(other): the orders whose id does not occur in other. */
  function RemoveAll(orders: seq<OrderRow>, other: seq<OrderRow>): (r: seq<OrderRow>)
    ensures forall o :: o in r <==> o in orders && o.id !in Ids(other)
  {
    assert KeySet(other, OrderId) == Ids(other);
    RemoveAllByKey(orders, other, OrderId)
  }

  /** The rows an update lists, read one findById at a time, are the stored rows under those ids. */
  lemma ResolvedOrders(db: Db, orders: seq<OrderRow>, ids: seq<int>)
    requires db.Valid()
    requires forall i :: 0 <= i < |ids| ==> ids[i] in db.orders
    requires |orders| == |ids| && forall i :: 0 <= i < |orders| ==> orders[i] == db.orders[ids[i]]
    ensures forall i :: 0 <= i < |orders| ==> orders[i].id in db.orders && db.orders[orders[i].id] == orders[i]
    ensures Ids(orders) == set i | i in ids
    ensures forall o :: o in orders <==> o.id in ids && o.id in db.orders && db.orders[o.id] == o
  {
    forall i | 0 <= i < |orders| ensures orders[i].id == ids[i] {
      assert db.orders[ids[i]].id == ids[i];
    }
    forall o: OrderRow | o.id in ids && o.id in db.orders && db.orders[o.id] == o ensures o in orders {
      var i :| 0 <= i < |ids| && ids[i] == o.id;
      assert orders[i] == db.orders[o.id];
    }
  }

  /**
   * Each order id through findById, as the JDBC-era mappers resolve an
   * update's list: the first id that is negative or absent decides the error.
   */
  function FindOrders(db: Db, orderIds: seq<int>): (r: Result<seq<OrderRow>>)
    reads db
    requires db.Valid()
    ensures r.Success? <==> forall i :: 0 <= i < |orderIds| ==> 0 <= orderIds[i] && orderIds[i] in db.orders
    ensures r.Success? ==> |r.value| == |orderIds|
                           && forall i :: 0 <= i < |orderIds| ==> r.value[i] == db.orders[orderIds[i]]
    ensures r.Failure? ==> r.error == NoValidId || r.error.OrderNotFound?
  {
    Resolve(db.orders, orderIds, (id: int) => OrderNotFound([id]))
  }
}
