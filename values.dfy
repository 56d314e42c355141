/**
 * Scalar values of the domain, the checks the three entities share, and
 * the rows of the three tables.
 *
 * An entity that refers to another entity holds a snapshot of the other
 * entity's own columns (its row), which is also what the NoRef DTOs carry.
 */
module Values {
  import opened Wrappers
  import opened Exceptions

  /** A Java Double: a real number, or NaN / ±Infinity collapsed into one case. */
  datatype Dbl = Finite(v: real) | NotFinite

  /** Neither NaN nor infinite nor negative: what prices and tips must be. */
  predicate IsValidAmount(d: Dbl)
  {
    d.Finite? && d.v >= 0.0
  }

  /** The id every entity holds until the database assigns one. */
  const UNASSIGNED_ID: int := -1

  /** The barista orders fall back to when theirs is removed or detached. */
  const DEFAULT_BARISTA_ID: int := 0

  /** The tip a barista gets when none is given. */
  const DEFAULT_TIP_SIZE: real := 0.1

  /** Timestamps (LocalDateTime) are totally ordered instants. */
  type Instant = int

  /** What getId answers: the sentinel is refused, any other id is returned. */
  function AssignedId(id: int): (r: Result<int>)
    ensures r.Failure? <==> id == UNASSIGNED_ID
    ensures r.Failure? ==> r.error == NoValidId
    ensures r.Success? ==> r.value == id
  {
    if id == UNASSIGNED_ID then Failure(NoValidId) else Success(id)
  }

  /** The checks of every setId: null, then negative. */
  function IdError(id: Option<int>): (o: Outcome)
    ensures o.Pass? <==> id.Some? && id.value >= 0
    ensures id.None? ==> o == Fail(NullParam)
    ensures id.Some? && id.value < 0 ==> o == Fail(NoValidId)
  {
    if id.None? then Fail(NullParam)
    else if id.value < 0 then Fail(NoValidId)
    else Pass
  }

  /** The checks of setFullName / setName: null, then empty. */
  function NameError(name: Option<string>): (o: Outcome)
    ensures o.Pass? <==> name.Some? && |name.value| > 0
    ensures name.None? ==> o == Fail(NullParam)
    ensures name.Some? && name.value == [] ==> o == Fail(NoValidName)
  {
    if name.None? then Fail(NullParam)
    else if |name.value| == 0 then Fail(NoValidName)
    else Pass
  }

  /**
   * The checks of setPrice / setTipSize: null, then NaN, infinite or
   * negative, which fails with `invalid`.
   */
  function AmountError(amount: Option<Dbl>, invalid: Error): (o: Outcome)
    ensures o.Pass? <==> amount.Some? && IsValidAmount(amount.value)
    ensures amount.None? ==> o == Fail(NullParam)
    ensures amount.Some? && !IsValidAmount(amount.value) ==> o == Fail(invalid)
  {
    if amount.None? then Fail(NullParam)
    else if !IsValidAmount(amount.value) then Fail(invalid)
    else Pass
  }

  /**
   * A run of setters, one statement after another: the first that throws
   * decides, and the run passes only when every one of them does.
   */
  function FirstFailure(checks: seq<Outcome>): (o: Outcome)
    ensures o.Pass? <==> forall i :: 0 <= i < |checks| ==> checks[i].Pass?
    ensures o.Fail? ==> exists k :: 0 <= k < |checks| && checks[k] == o
                                    && forall i :: 0 <= i < k ==> checks[i].Pass?
  {
    if |checks| == 0 then Pass
    else if checks[0].Fail? then checks[0]
    else
      var rest := FirstFailure(checks[1..]);
      assert forall i :: 1 <= i < |checks| ==> checks[i] == checks[1..][i - 1];
      if rest.Fail? then
        var k :| 0 <= k < |checks[1..]| && checks[1..][k] == rest && forall i :: 0 <= i < k ==> checks[1..][i].Pass?;
        assert checks[k + 1] == rest;
        rest
      else rest
  }

  lemma FirstFailureOfTwo(a: Outcome, b: Outcome)
    ensures FirstFailure([a, b]) == if a.Fail? then a else b
  {
    assert [a, b][1..] == [b];
    assert [b][1..] == [];
  }

  lemma FirstFailureOfThree(a: Outcome, b: Outcome, c: Outcome)
    ensures FirstFailure([a, b, c]) == if a.Fail? then a else if b.Fail? then b else c
  {
    assert [a, b, c][1..] == [b, c];
    FirstFailureOfTwo(b, c);
  }

  datatype BaristaRow = BaristaRow(id: int, fullName: string, tipSize: real)

  datatype CoffeeRow = CoffeeRow(id: int, name: string, price: real)

  /** `created` is NOT NULL in the table: the repository refuses to store an order without it. */
  datatype OrderRow = OrderRow(id: int, baristaId: int, created: Instant, completed: Option<Instant>, price: real)

  /** The keys the coffee and order tables are indexed by. */
  function CoffeeId(c: CoffeeRow): int
  {
    c.id
  }

  function OrderId(o: OrderRow): int
  {
    o.id
  }
}
