/**
 * The barista table (repository/imp/BaristaRepositoryImp.java over the SQL
 * of repository/until/BaristaSQL.java). Writers take and return Barista
 * entities; finders return the stored rows.
 */
module BaristaRepository {
  import opened Wrappers
  import opened Exceptions
  import opened Values
  import opened Seqs
  import opened Store
  import opened BaristaEntity

  /** update's checks: getId, then the copy through the four-argument constructor, then a matching row. */
  function UpdateError(baristas: map<int, BaristaRow>, id: int, fullName: string, tipSize: real): (o: Outcome)
    ensures o.Pass? <==> id >= 0 && |fullName| > 0 && tipSize >= 0.0 && id in baristas
    ensures id == UNASSIGNED_ID ==> o == Fail(NoValidId)
    ensures id >= 0 && |fullName| > 0 && tipSize >= 0.0 && id !in baristas ==> o == Fail(BaristaNotFound(id))
  {
    if id == UNASSIGNED_ID then Fail(NoValidId)
    else
      var copy := ConstructorError(Some(id), Some(fullName), true, Some(Finite(tipSize)));
      if copy.Fail? then copy
      else if id !in baristas then Fail(BaristaNotFound(id))
      else Pass
  }

  /** create: inserts a copy of the barista under a fresh id and returns the copy with that id. */
  method Create(db: Db, barista: Barista?) returns (r: Result<Barista>)
    requires db.Valid()
    modifies db`baristas, db`baristaKeys, db`nextBaristaId
    ensures db.Valid()
    ensures barista == null ==> r == Failure(NullParam)
    ensures barista != null ==>
              (r.Success? <==> UnsavedError(Some(barista.fullName), true, Some(Finite(barista.tipSize))).Pass?)
    ensures barista != null && r.Failure? ==>
              UnsavedError(Some(barista.fullName), true, Some(Finite(barista.tipSize))) == Fail(r.error)
    ensures r.Failure? ==> db.baristas == old(db.baristas) && db.baristaKeys == old(db.baristaKeys)
                           && db.nextBaristaId == old(db.nextBaristaId)
    ensures r.Success? ==>
              && barista != null && fresh(r.value) && r.value.Valid()
              && r.value.id == old(db.nextBaristaId) && r.value.id !in old(db.baristas)
              && r.value.fullName == barista.fullName && r.value.tipSize == barista.tipSize
              && r.value.orderList == barista.orderList
              && db.baristas == old(db.baristas)[r.value.id := r.value.Row()]
              && db.baristaKeys == old(db.baristaKeys) + [r.value.id]
  {
    if barista == null {
      return Failure(NullParam);
    }
    var copy :- Barista.NewUnsaved(Some(barista.fullName), Some(barista.orderList), Some(Finite(barista.tipSize)));
    var id := db.nextBaristaId;
    var row := BaristaRow(id, copy.fullName, copy.tipSize);
    IndexedInsert(db.baristas, db.baristaKeys, db.nextBaristaId, row);
    db.baristas := db.baristas[id := row];
    db.baristaKeys := db.baristaKeys + [id];
    db.nextBaristaId := id + 1;
    var stored := copy.SetId(Some(id));
    return Success(copy);
  }

  /** update: rewrites the name and tip of the row with the barista's id. */
  method Update(db: Db, barista: Barista?) returns (r: Result<Barista>)
    requires db.Valid()
    modifies db`baristas
    ensures db.Valid()
    ensures barista == null ==> r == Failure(NullParam)
    ensures barista != null ==>
              (r.Success? <==> UpdateError(old(db.baristas), barista.id, barista.fullName, barista.tipSize).Pass?)
    ensures barista != null && r.Failure? ==>
              UpdateError(old(db.baristas), barista.id, barista.fullName, barista.tipSize) == Fail(r.error)
    ensures r.Failure? ==> db.baristas == old(db.baristas)
    ensures r.Success? ==>
              && barista != null && fresh(r.value) && r.value.Valid()
              && r.value.id == barista.id && r.value.fullName == barista.fullName
              && r.value.tipSize == barista.tipSize && r.value.orderList == barista.orderList
              && db.baristas == old(db.baristas)[barista.id := r.value.Row()]
  {
    if barista == null {
      return Failure(NullParam);
    }
    var id :- barista.GetId();
    var copy :- Barista.New(Some(id), Some(barista.fullName), Some(barista.orderList), Some(Finite(barista.tipSize)));
    if id !in db.baristas {
      return Failure(BaristaNotFound(id));
    }
    IndexedUpdate(db.baristas, db.baristaKeys, db.nextBaristaId, id, copy.Row());
    db.baristas := db.baristas[id := copy.Row()];
    return Success(copy);
  }

  /** delete: removes the row; the orders pointing at it are left to the caller. */
  method Delete(db: Db, id: Option<int>) returns (o: Outcome)
    requires db.Valid()
    modifies db`baristas, db`baristaKeys
    ensures db.Valid()
    ensures IdError(id).Fail? ==> o == IdError(id)
    ensures IdError(id).Pass? ==> o == if id.value in old(db.baristas) then Pass else Fail(BaristaNotFound(id.value))
    ensures db.baristas == if o.Pass? then old(db.baristas) - {id.value} else old(db.baristas)
    ensures db.baristaKeys == if o.Pass? then Remove(old(db.baristaKeys), id.value) else old(db.baristaKeys)
  {
    o := IdError(id);
    if o.Fail? {
      return;
    }
    if id.value !in db.baristas {
      return Fail(BaristaNotFound(id.value));
    }
    IndexedRemove(db.baristas, db.baristaKeys, db.nextBaristaId, id.value);
    db.baristas := db.baristas - {id.value};
    db.baristaKeys := Remove(db.baristaKeys, id.value);
  }

  /** findAll: every row, in scan order. */
  function FindAll(db: Db): (r: seq<BaristaRow>)
    reads db
    requires db.Valid()
    ensures forall b :: b in r <==> b.id in db.baristas && db.baristas[b.id] == b
    ensures forall i, j :: 0 <= i < j < |r| ==> r[i].id != r[j].id
    ensures Distinct(r)
  {
    db.BaristaScan()
  }

  /** findAllByPage: the limit is checked before the page; a page is a slice of findAll. */
  function FindAllByPage(db: Db, page: int, limit: int): (r: Result<seq<BaristaRow>>)
    reads db
    requires db.Valid()
    ensures PageArgsError(page, limit).Fail? ==> r == Failure(PageArgsError(page, limit).error)
    ensures r.Success? ==> page >= 0 && limit > 0 && r.value == Page(FindAll(db), page, limit)
    ensures r.Success? ==> |r.value| <= limit
  {
    var check := PageArgsError(page, limit);
    if check.Fail? then Failure(check.error)
    else Success(Page(FindAll(db), page, limit))
  }

  /** findById: null and negative ids are refused; a missing row is an empty answer. */
  function FindById(db: Db, id: Option<int>): (r: Result<Option<BaristaRow>>)
    reads db
    requires db.Valid()
    ensures IdError(id).Fail? ==> r == Failure(IdError(id).error)
    ensures IdError(id).Pass? ==> r.Success?
    ensures r.Success? && id.value in db.baristas ==> r.value == Some(db.baristas[id.value]) && r.value.value.id == id.value
    ensures r.Success? && id.value !in db.baristas ==> r.value == None
  {
    var check := IdError(id);
    if check.Fail? then Failure(check.error)
    else if id.value in db.baristas then Success(Some(db.baristas[id.value]))
    else Success(None)
  }

  /**
   * findById(id).orElseThrow(() -> new BaristaNotFoundException(id)), as the
   * order mappers look a barista up: the id checks, then presence.
   */
  function FindExisting(db: Db, id: Option<int>): (r: Result<BaristaRow>)
    reads db
    requires db.Valid()
    ensures r.Success? <==> id.Some? && id.value >= 0 && id.value in db.baristas
    ensures r.Success? ==> r.value == db.baristas[id.value] && r.value.id == id.value
    ensures IdError(id).Fail? ==> r == Failure(IdError(id).error)
    ensures IdError(id).Pass? && id.value !in db.baristas ==> r == Failure(BaristaNotFound(id.value))
  {
    var found :- FindById(db, id);
    if found.None? then Failure(BaristaNotFound(id.value)) else Success(found.value)
  }
}
