/**
 * servlet/GlobalControllerAdvice.java: which thrown exceptions become which
 * HTTP response, and the {"errors": [...]} body every handled one gets.
 */
module ControllerAdvice {
  import opened Wrappers
  import opened Exceptions
  import opened Values
  import opened Store
  import OrderService
  import CoffeeService
  import BaristaService

  datatype Status = NotFound | BadRequest

  /** The HTTP status code of each handled status. */
  function Code(s: Status): (c: int)
    ensures c == 404 <==> s == NotFound
    ensures c == 400 <==> s == BadRequest
  {
    match s
    case NotFound => 404
    case BadRequest => 400
  }

  datatype Response = Response(status: Status, body: map<string, seq<string>>)

  /** getErrorsMap: a single "errors" entry holding the messages in order. */
  function ErrorsBody(errors: seq<string>): (r: map<string, seq<string>>)
    ensures r.Keys == {"errors"} && r["errors"] == errors
  {
    map["errors" := errors]
  }

  /**
   * The handler an exception reaches: the three not-found kinds answer 404,
   * the nine validation kinds 400, and every other kind has no handler here.
   */
  function Classify(e: Error): (r: Option<Status>)
    ensures r == Some(NotFound) <==> e.BaristaNotFound? || e.OrderNotFound? || e.CoffeeNotFound?
    ensures r == Some(BadRequest) <==>
              e in {NullParam, NoValidId, NoValidName, NoValidPage, NoValidTipSize, NoValidLimit,
                    OrderAlreadyCompleted, DuplicatedElements, NoValidPrice}
    ensures r.None? <==>
              e in {CreatedNotDefined, CompletedBeforeCreated, KeyNotPresent, OrderHasReferences,
                    CoffeeHasReference, DataBase}
  {
    match e
    case BaristaNotFound(_) => Some(NotFound)
    case OrderNotFound(_) => Some(NotFound)
    case CoffeeNotFound(_) => Some(NotFound)
    case NullParam => Some(BadRequest)
    case NoValidId => Some(BadRequest)
    case NoValidName => Some(BadRequest)
    case NoValidPage => Some(BadRequest)
    case NoValidTipSize => Some(BadRequest)
    case NoValidLimit => Some(BadRequest)
    case OrderAlreadyCompleted => Some(BadRequest)
    case DuplicatedElements => Some(BadRequest)
    case NoValidPrice => Some(BadRequest)
    case _ => None
  }

  /**
   * notFoundHandler / badRequestHandler: the status of the kind and a body
   * whose one message is the exception's message, "null" when it has none.
   */
  function Handle(e: Error, message: Option<string>): (r: Option<Response>)
    ensures r.Some? <==> Classify(e).Some?
    ensures r.Some? ==> r.value.status == Classify(e).value
    ensures r.Some? && message.Some? ==> r.value.body == ErrorsBody([message.value])
    ensures r.Some? && message.None? ==> r.value.body == ErrorsBody(["null"])
  {
    var status := Classify(e);
    if status.None? then None
    else
      var text := if message.Some? then message.value else "null";
      Some(Response(status.value, ErrorsBody([text])))
  }

  /**
   * The two handleValidationErrors handlers: 400 with every violated
   * constraint's message, in the order the validator reports them.
   */
  function HandleValidation(messages: seq<string>): (r: Response)
    ensures Code(r.status) == 400
    ensures r.body.Keys == {"errors"} && r.body["errors"] == messages
  {
    Response(BadRequest, ErrorsBody(messages))
  }

  /**
   * Every way the finders of the three services refuse a request reaches a
   * handler: a bad id or page is a 400, a missing row a 404.
   */
  lemma FinderFailuresHandled(db: Db, id: Option<int>, page: int, limit: int)
    requires db.Valid()
    ensures OrderService.FindById(db, id).Failure? ==> Classify(OrderService.FindById(db, id).error).Some?
    ensures CoffeeService.FindById(db, id).Failure? ==> Classify(CoffeeService.FindById(db, id).error).Some?
    ensures BaristaService.FindById(db, id).Failure? ==> Classify(BaristaService.FindById(db, id).error).Some?
    ensures PageError(page, limit).Fail? ==> Classify(PageError(page, limit).error) == Some(BadRequest)
    ensures (IdError(id).Pass? && OrderService.FindById(db, id).Failure?) ==>
              Classify(OrderService.FindById(db, id).error) == Some(NotFound)
    ensures (IdError(id).Pass? && CoffeeService.FindById(db, id).Failure?) ==>
              Classify(CoffeeService.FindById(db, id).error) == Some(NotFound)
    ensures (IdError(id).Pass? && BaristaService.FindById(db, id).Failure?) ==>
              Classify(BaristaService.FindById(db, id).error) == Some(NotFound)
  {
  }
}
