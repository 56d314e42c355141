/**
 * The id-list parsing shared by OrderMapper.parseCoffees and
 * CoffeeMapper.parseOrders: an empty list maps to no rows, a repeated id is
 * refused before any lookup, and otherwise findAllById must find every id.
 */
module IdLists {
  import opened Exceptions
  import opened Seqs

  /** No two rows carry the same key, as in a table scan. */
  predicate Keyed<T>(rows: seq<T>, key: T -> int)
  {
    forall i, j :: 0 <= i < j < |rows| ==> key(rows[i]) != key(rows[j])
  }

  /** The keys of some rows. */
  function KeySet<T(==)>(rows: seq<T>, key: T -> int): set<int>
  {
    set x | x in rows :: key(x)
  }

  /**
   * rows.removeAll(other) where equals compares keys, as the entities'
   * equals compares ids: the rows whose key no row of other carries, in order.
   */
  function RemoveAllByKey<T(==,!new)>(rows: seq<T>, other: seq<T>, key: T -> int): (r: seq<T>)
    ensures forall x :: x in r <==> x in rows && key(x) !in KeySet(other, key)
  {
    var drop := KeySet(other, key);
    Filter(rows, (x: T) => key(x) !in drop)
  }

  /** findAllById: the rows whose key is one of the ids. */
  function Existing<T(==,!new)>(rows: seq<T>, key: T -> int, ids: seq<int>): seq<T>
  {
    Filter(rows, (x: T) => key(x) in ids)
  }

  /** ids.removeAll(ids of the existing rows): the ids no row carries, in input order. */
  function Missing<T(==,!new)>(rows: seq<T>, key: T -> int, ids: seq<int>): (r: seq<int>)
    ensures forall id :: id in r <==> id in ids && id !in KeySet(rows, key)
  {
    var found := KeySet(Existing(rows, key, ids), key);
    Filter(ids, (id: int) => id !in found)
  }

  /** Counting findAllById's answer: one row per id some row carries. */
  lemma {:induction false} ExistingCount<T(!new)>(rows: seq<T>, key: T -> int, ids: seq<int>)
    requires Keyed(rows, key)
    ensures |Existing(rows, key, ids)| == |Elements(ids) * KeySet(rows, key)|
  {
    if rows == [] {
      assert KeySet(rows, key) == {};
    } else {
      var h, t := rows[0], rows[1..];
      KeyedTail(rows, key);
      ExistingCount(t, key, ids);
      KeySetCons(rows, key);
      var I, K := Elements(ids), KeySet(t, key);
      assert |Existing(rows, key, ids)| == |Existing(t, key, ids)| + (if key(h) in ids then 1 else 0);
      if key(h) in ids {
        assert key(h) in I;
        assert I * ({key(h)} + K) == {key(h)} + I * K;
      } else {
        assert key(h) !in I;
        assert I * ({key(h)} + K) == I * K;
      }
    }
  }

  lemma KeyedTail<T>(rows: seq<T>, key: T -> int)
    requires Keyed(rows, key) && rows != []
    ensures Keyed(rows[1..], key)
  {
    var t := rows[1..];
    forall i, j | 0 <= i < j < |t| ensures key(t[i]) != key(t[j]) {
      assert t[i] == rows[i + 1] && t[j] == rows[j + 1];
    }
  }

  /** The first row's key, added to the keys of the rest, which do not hold it. */
  lemma KeySetCons<T>(rows: seq<T>, key: T -> int)
    requires Keyed(rows, key) && rows != []
    ensures KeySet(rows, key) == {key(rows[0])} + KeySet(rows[1..], key)
    ensures key(rows[0]) !in KeySet(rows[1..], key)
  {
    var t := rows[1..];
    assert rows == [rows[0]] + t;
    forall x | x in t ensures key(x) != key(rows[0]) {
      var k :| 0 <= k < |t| && t[k] == x;
      assert rows[k + 1] == x;
    }
  }

  /** A proper part of a finite set is smaller. */
  lemma ProperSubsetSmaller(a: set<int>, b: set<int>, y: int)
    requires a <= b && y in b && y !in a
    ensures |a| < |b|
  {
    var c := b - a;
    assert y in c;
    assert |c| != 0;
    assert b == a + c && a * c == {};
    assert |a + c| == |a| + |c|;
  }

  /** With distinct ids, findAllById finds as many rows as there are ids exactly when every id resolves. */
  lemma ExistingAll<T(!new)>(rows: seq<T>, key: T -> int, ids: seq<int>)
    requires Keyed(rows, key) && Distinct(ids)
    ensures |Existing(rows, key, ids)| == |ids| <==> forall i :: 0 <= i < |ids| ==> ids[i] in KeySet(rows, key)
  {
    ExistingCount(rows, key, ids);
    DistinctCount(ids);
    var I := Elements(ids);
    if forall i :: 0 <= i < |ids| ==> ids[i] in KeySet(rows, key) {
      assert I * KeySet(rows, key) == I;
    } else {
      var i :| 0 <= i < |ids| && ids[i] !in KeySet(rows, key);
      assert ids[i] in I;
      ProperSubsetSmaller(I * KeySet(rows, key), I, ids[i]);
    }
  }

  /**
   * parseCoffees / parseOrders with the not-found payload the code evidently
   * means: the ids that did not resolve.
   */
  function Parse<T(==,!new)>(rows: seq<T>, key: T -> int, ids: seq<int>, notFound: seq<int> -> Error): (r: Result<seq<T>>)
    requires Keyed(rows, key)
    ensures |ids| == 0 ==> r == Success([])
    ensures |ids| > 0 && !Distinct(ids) ==> r == Failure(DuplicatedElements)
    ensures r.Success? <==> Distinct(ids) && forall i :: 0 <= i < |ids| ==> ids[i] in KeySet(rows, key)
    ensures r.Success? ==> |r.value| == |ids| && forall x :: x in r.value <==> x in rows && key(x) in ids
    ensures r.Failure? && Distinct(ids) ==>
              |Missing(rows, key, ids)| > 0 && r.error == notFound(Missing(rows, key, ids))
  {
    if |ids| == 0 then Success([])
    else
      DistinctCount(ids);
      if |ids| != |Elements(ids)| then Failure(DuplicatedElements)
      else
        var existing := Existing(rows, key, ids);
        ExistingAll(rows, key, ids);
        if |existing| == 0 then
          NoneExistMissesAll(rows, key, ids);
          Failure(notFound(ids))
        else if |existing| != |Elements(ids)| then
          SomeMissing(rows, key, ids);
          Failure(notFound(Missing(rows, key, ids)))
        else Success(existing)
  }

  /** Some id did not resolve, so the removeAll leaves a non-empty list. */
  lemma SomeMissing<T(!new)>(rows: seq<T>, key: T -> int, ids: seq<int>)
    requires exists i :: 0 <= i < |ids| && ids[i] !in KeySet(rows, key)
    ensures |Missing(rows, key, ids)| > 0
  {
    var i :| 0 <= i < |ids| && ids[i] !in KeySet(rows, key);
    assert ids[i] in Missing(rows, key, ids);
  }

  /** When findAllById finds nothing, the missing ids are all the ids. */
  lemma {:induction false} NoneExistMissesAll<T(!new)>(rows: seq<T>, key: T -> int, ids: seq<int>)
    requires |Existing(rows, key, ids)| == 0
    ensures Missing(rows, key, ids) == ids
  {
    var found := KeySet(Existing(rows, key, ids), key);
    assert found == {};
    FilterAll(ids, (id: int) => id !in found);
  }

  /** Filtering by a predicate every element satisfies changes nothing. */
  lemma {:induction false} FilterAll<T(!new)>(s: seq<T>, p: T -> bool)
    requires forall x :: x in s ==> p(x)
    ensures Filter(s, p) == s
  {
    if s != [] {
      assert forall x :: x in s[1..] ==> x in s;
      FilterAll(s[1..], p);
      assert s == [s[0]] + s[1..];
    }
  }

  /**
   * parseCoffees / parseOrders as written: when findAllById finds nothing, the
   * exception is built from the distinct-id count instead of the ids.
   */
  function ParseAsWritten<T(==,!new)>(rows: seq<T>, key: T -> int, ids: seq<int>, notFound: seq<int> -> Error): (r: Result<seq<T>>)
    requires Keyed(rows, key)
    ensures |Existing(rows, key, ids)| == 0 && |ids| > 0 && Distinct(ids) ==> r == Failure(notFound([|ids|]))
    ensures !(|Existing(rows, key, ids)| == 0 && |ids| > 0 && Distinct(ids)) ==> r == Parse(rows, key, ids, notFound)
    ensures r.Success? <==> Parse(rows, key, ids, notFound).Success?
  {
    if |ids| == 0 then Success([])
    else
      DistinctCount(ids);
      var uniqueElements := |Elements(ids)|;
      if |ids| != uniqueElements then Failure(DuplicatedElements)
      else
        var existing := Existing(rows, key, ids);
        if |existing| == 0 then Failure(notFound([uniqueElements]))
        else if |existing| != uniqueElements then Failure(notFound(Missing(rows, key, ids)))
        else Success(existing)
  }
}
