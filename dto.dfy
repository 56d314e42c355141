/**
 * The request and response records (the records under servlet/dto). A field Java may
 * leave null is an Option; id lists are taken to hold no null elements.
 */
module Dto {
  import opened Wrappers
  import opened Values

  datatype OrderCreateDto = OrderCreateDto(baristaId: Option<int>, coffeeIdList: Option<seq<int>>)

  datatype OrderUpdateDto = OrderUpdateDto(id: Option<int>, baristaId: Option<int>, created: Option<Instant>,
                                           completed: Option<Instant>, price: Option<Dbl>,
                                           coffeeIdList: Option<seq<int>>)

  datatype CoffeeCreateDto = CoffeeCreateDto(name: Option<string>, price: Option<Dbl>)

  datatype CoffeeUpdateDto = CoffeeUpdateDto(id: Option<int>, name: Option<string>, price: Option<Dbl>,
                                             orderIdList: Option<seq<int>>)

  datatype BaristaCreateDto = BaristaCreateDto(fullName: Option<string>, tipSize: Option<Dbl>)

  datatype BaristaUpdateDto = BaristaUpdateDto(id: Option<int>, fullName: Option<string>, tipSize: Option<Dbl>,
                                               orderIdList: Option<seq<int>>)

  /** An order without its references: the barista appears as its id. */
  datatype OrderNoRef = OrderNoRef(id: int, baristaId: int, created: Option<Instant>,
                                   completed: Option<Instant>, price: real)

  /** A coffee without its references; the generated mapper leaves orderIdList null. */
  datatype CoffeeNoRef = CoffeeNoRef(id: int, name: string, price: real, orderIdList: Option<seq<int>>)

  /** A barista without its references; the generated mapper leaves orderIdList null. */
  datatype BaristaNoRef = BaristaNoRef(id: int, fullName: string, tipSize: real, orderIdList: Option<seq<int>>)

  datatype OrderPublic = OrderPublic(id: int, barista: BaristaNoRef, created: Option<Instant>,
                                     completed: Option<Instant>, price: real, coffees: seq<CoffeeNoRef>)

  datatype CoffeePublic = CoffeePublic(id: int, name: string, price: real, orders: seq<OrderNoRef>)

  datatype BaristaPublic = BaristaPublic(id: int, fullName: string, tipSize: real, orders: seq<OrderNoRef>)
}
