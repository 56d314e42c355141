# Coffee shop: a Dafny model of the domain, persistence and service core

This project models the core of a small coffee-shop REST back end. Baristas
take orders, and each order lists coffees. The model covers:

* **Entities.** `Barista`, `Coffee` and `Order` are validated objects with an
  id sentinel of -1 meaning "not saved yet". Every constructor and setter
  checks its arguments in a fixed order and fails with a named error kind.
  Equality and hashing go by id.
* **Store.** A relational store with three tables, `barista`, `coffee` and
  `order`, plus the `order_coffee` pair table, keyed by (order id, coffee id).
  It is one `Db` object holding a map, an insertion-ordered key list and an id
  counter per table, and a set of pairs. Scans return rows in key-list order.
  Pages are slices of that same scan.
* **Repositories.** Each repository's create, update, delete, find and page
  operations is a method or function over `Db`. Its semantics follow the SQL
  each one issues: `ON CONFLICT DO NOTHING` for pairs, and a foreign-key
  violation reported as `KeyNotPresent`.
* **Mappers.** These turn request DTOs into entities, and entities into public
  and "no-ref" views. Both generations are modelled: the hand-written
  `*DtoTo*Mapper` classes and the MapStruct `*Mapper` interfaces.
* **Services.** They orchestrate the above:
  * pricing: the sum of coffee prices times (1 + tip);
  * keeping pairs in step with the supplied id lists;
  * re-pointing orders to the default barista 0;
  * the queue of unfinished orders, sorted by creation time;
  * completion of an order.
* **GlobalControllerAdvice.** The table that maps error kinds to HTTP 404 (RFC
  9110, section 15.5.5) or 400 (RFC 9110, section 15.5.1). Each response has
  the body `{"errors": [...]}`.

Java `null` is `Option.None`. Exceptions are the `Error` kinds of module
`Exceptions`, returned through `Result`/`Outcome`. A `Double` argument is
`Dbl`: a finite real or `NotFinite`. `LocalDateTime` is an integer `Instant`.
Methods change state in place and carry `modifies` clauses. Pure decisions,
such as check order, error choice, pricing and sorting, are functions, and the
methods are proved against them.

File layout, one module per file:

* `wrappers`, `exceptions` and `values`: Option, Result/Outcome, the error
  kinds, rows, argument checks and runs of setters;
* `seqs`: sequence helpers;
* `store`: the `Db` class and paging;
* `lookup`: id-by-id resolution;
* `order_lists`: `removeAll` on order lists and id-by-id order lookup;
* `id_lists`: the `findAllById` parse;
* `order`, `barista` and `coffee`: the entities;
* `pair_repository`, `order_repository`, `coffee_repository` and
  `barista_repository`: the repositories;
* `dto`;
* `*_dto_mapper` and `*_mapper`: the two mapper generations;
* `order_service`, `coffee_service` and `barista_service`: the services;
* `controller_advice`: the error table.

## Model

| member | source | states |
|---|---|---|
| Values.AssignedId | src/main/java/com/example/rest/entity/Order.java:107-111 | getId fails with NoValidId exactly when the id is the -1 sentinel, and otherwise returns the id unchanged |
| Values.IdError | src/main/java/com/example/rest/entity/Order.java:120-127 | an id argument passes exactly when it is given and non-negative; null gives NullParam, a negative id gives NoValidId |
| Values.NameError | src/main/java/com/example/rest/entity/Coffee.java:142-149 | a name passes exactly when it is given and non-empty; null gives NullParam, "" gives NoValidName |
| Values.AmountError | src/main/java/com/example/rest/entity/Order.java:237-244 | a price or tip passes exactly when it is given, finite and non-negative; null gives NullParam, NaN/infinite/negative gives the caller's error kind |
| Values.FirstFailure | src/main/java/com/example/rest/entity/Coffee.java:117-196 | a run of setters passes exactly when every one passes; otherwise its error is that of the first that fails, all before it having passed |
| Seqs.DistinctCount | src/main/java/com/example/rest/service/mapper/OrderMapper.java:56-58 | the number of distinct ids never exceeds the list length, and equals it exactly when no id repeats, which is what the duplicate check compares |
| Store.Page | src/main/java/com/example/rest/repository/imp/OrderRepositoryImp.java:172-189 | a page holds the scan rows from offset page*limit on, min(limit, what is left) of them, none past the end |
| Store.PageHolds | src/main/java/com/example/rest/repository/imp/OrderRepositoryImp.java:172-189 | every scanned row is found on page i/limit at position i%limit, so paging loses no row |
| Store.PagesTile | src/main/java/com/example/rest/repository/imp/OrderRepositoryImp.java:172-189 | the first n full pages, concatenated, are exactly the first n*limit rows of the scan |
| Store.RowsAreStored | src/main/java/com/example/rest/repository/imp/OrderRepositoryImp.java:149-159 | a table scan contains a row exactly when that row is stored under its own id |
| Store.PageArgsError | src/main/java/com/example/rest/repository/imp/OrderRepositoryImp.java:172-176 | the repositories check limit <= 0 (NoValidLimit) before page < 0 (NoValidPage); pass exactly when page >= 0 and limit > 0 |
| Store.PageError | src/main/java/com/example/rest/service/imp/OrderService.java:236-240 | the services check page < 0 (NoValidPage) before limit <= 0 (NoValidLimit); pass exactly when page >= 0 and limit > 0 |
| Store.PagingChecksDisagree | src/main/java/com/example/rest/service/imp/CoffeeService.java:179-183 | with page -1 and limit 0 the service reports NoValidPage while the repository would report NoValidLimit |
| Store.Db.BaristaScan | src/main/java/com/example/rest/repository/imp/BaristaRepositoryImp.java:144-155 | SELECT over barista: exactly the stored rows, each once, no two with the same id |
| Store.Db.CoffeeScan | src/main/java/com/example/rest/repository/imp/CoffeeRepositoryImp.java:127-137 | SELECT over coffee: exactly the stored rows, each once, no two with the same id |
| Store.Db.OrderScan | src/main/java/com/example/rest/repository/imp/OrderRepositoryImp.java:149-159 | SELECT over order: exactly the stored rows, each once, no two with the same id |
| Lookup.Resolve | src/main/java/com/example/rest/service/mapper/OrderDtoToOrderMapper.java:47-51 | one row per id in input order, duplicates kept; succeeds exactly when every id is non-negative and stored; otherwise fails with the first unresolved id's error |
| IdLists.Missing | src/main/java/com/example/rest/service/mapper/OrderMapper.java:64-67 | the ids left after removing the found ones are exactly the requested ids that no row carries |
| IdLists.ExistingCount | src/main/java/com/example/rest/service/mapper/OrderMapper.java:60 | findAllById finds one row per distinct requested id that is stored |
| IdLists.ExistingAll | src/main/java/com/example/rest/service/mapper/OrderMapper.java:60-64 | for distinct ids, the found count equals the list length exactly when every id is stored |
| IdLists.Parse | src/main/java/com/example/rest/service/mapper/OrderMapper.java:52-70 | empty list gives empty result; repeats give DuplicatedElements; success exactly when ids are distinct and all stored, yielding one row per id; otherwise the not-found error lists exactly the missing ids |
| IdLists.SomeMissing | src/main/java/com/example/rest/service/mapper/OrderMapper.java:64-67 | when some id is unresolved, the reported missing list is non-empty |
| IdLists.NoneExistMissesAll | src/main/java/com/example/rest/service/mapper/OrderMapper.java:61-62 | when nothing is found, the missing ids are the whole requested list |
| IdLists.ParseAsWritten | src/main/java/com/example/rest/service/mapper/OrderMapper.java:60-62 | as written: when nothing is found the error carries the distinct count as its only id; otherwise it agrees with the corrected parse |
| OrderEntity.UnsavedError | src/main/java/com/example/rest/repository/imp/OrderRepositoryImp.java:45 | the five-argument constructor's checks (null barista, list or price gives NullParam, then created/completed, then price); passes exactly when all are given and the times and price are valid |
| OrderEntity.ConstructorError | src/main/java/com/example/rest/entity/Order.java:81-99 | check order null, CreatedNotDefined, NoValidId, CompletedBeforeCreated, NoValidPrice; passes exactly when the id is non-negative and the unsaved checks pass |
| OrderEntity.CompletedError | src/main/java/com/example/rest/entity/Order.java:212-219 | setCompleted passes exactly for null or a time strictly after a defined created; CreatedNotDefined when created is missing, CompletedBeforeCreated when not strictly later |
| OrderEntity.CompletionBoundary | src/main/java/com/example/rest/entity/Order.java:88-89 | the constructor accepts completed == created while setCompleted rejects the same pair |
| OrderEntity.Order.New | src/main/java/com/example/rest/entity/Order.java:81-99 | succeeds exactly when ConstructorError passes, failing with its error; the new order satisfies the entity invariant |
| OrderEntity.Order.NewUnsaved | src/main/java/com/example/rest/service/mapper/OrderDtoToOrderMapper.java:53 | Order(barista, coffees): NullParam unless both are given; id -1, price 0, no times |
| OrderEntity.Order.NewWithoutId | src/main/java/com/example/rest/repository/imp/OrderRepositoryImp.java:45 | the five-argument constructor: succeeds exactly when UnsavedError passes, with id -1 |
| OrderEntity.Order.GetId | src/main/java/com/example/rest/entity/Order.java:107-111 | returns the id, NoValidId for the sentinel |
| OrderEntity.Order.SetId | src/main/java/com/example/rest/entity/Order.java:120-127 | fails as IdError; the id changes only on success |
| OrderEntity.Order.SetBarista | src/main/java/com/example/rest/entity/Order.java:144-149 | null gives NullParam and leaves the barista; otherwise stores it |
| OrderEntity.Order.SetCoffeeList | src/main/java/com/example/rest/entity/Order.java:166-171 | null gives NullParam and leaves the list; otherwise stores the given list's contents |
| OrderEntity.Order.SetCreated | src/main/java/com/example/rest/entity/Order.java:188-193 | null gives NullParam and leaves created; otherwise stores it |
| OrderEntity.Order.SetCompleted | src/main/java/com/example/rest/entity/Order.java:212-219 | outcome is CompletedError(created, value); completed changes only on success, null clears it |
| OrderEntity.Order.SetPrice | src/main/java/com/example/rest/entity/Order.java:237-244 | outcome is AmountError with NoValidPrice; the price changes only on success |
| OrderEntity.Order.Equals | src/main/java/com/example/rest/entity/Order.java:247-252 | the same object is equal, null is not; otherwise equal exactly when both assigned ids match, NoValidId when either is unassigned |
| OrderEntity.Order.HashCode | src/main/java/com/example/rest/entity/Order.java:255-257 | depends on the id alone; NoValidId for the sentinel |
| BaristaEntity.UnsavedError | src/main/java/com/example/rest/entity/Barista.java:63-75 | nulls give NullParam, then empty name NoValidName, then invalid tip NoValidTipSize; passes exactly when all are given and valid |
| BaristaEntity.ConstructorError | src/main/java/com/example/rest/entity/Barista.java:36-51 | null id gives NullParam, negative id NoValidId before the name and tip checks; passes exactly when the id is non-negative and the unsaved checks pass |
| BaristaEntity.Barista.New | src/main/java/com/example/rest/entity/Barista.java:36-51 | succeeds exactly when ConstructorError passes, failing with its error |
| BaristaEntity.Barista.NewUnsaved | src/main/java/com/example/rest/entity/Barista.java:63-75 | succeeds exactly when UnsavedError passes; id -1 |
| BaristaEntity.Barista.NewWithTip | src/main/java/com/example/rest/entity/Barista.java:86-98 | name and tip validated, empty order list, id -1 |
| BaristaEntity.Barista.NewNamed | src/main/java/com/example/rest/entity/Barista.java:107-117 | only the name is validated; tip defaults to 0.1, empty order list, id -1 |
| BaristaEntity.Barista.NewNamedWithList | src/main/java/com/example/rest/entity/Barista.java:127-137 | null list gives NullParam; name validated; tip 0.1, id -1 |
| BaristaEntity.Barista.GetId | src/main/java/com/example/rest/entity/Barista.java:145-149 | returns the id, NoValidId for the sentinel |
| BaristaEntity.Barista.SetId | src/main/java/com/example/rest/entity/Barista.java:158-165 | fails as IdError; the id changes only on success |
| BaristaEntity.Barista.SetFullName | src/main/java/com/example/rest/entity/Barista.java:183-190 | fails as NameError; the name changes only on success |
| BaristaEntity.Barista.SetOrderList | src/main/java/com/example/rest/entity/Barista.java:207-212 | null gives NullParam and leaves the list; otherwise stores the given list's contents |
| BaristaEntity.Barista.SetTipSize | src/main/java/com/example/rest/entity/Barista.java:230-237 | fails as AmountError with NoValidTipSize (0.0 accepted); the tip changes only on success |
| BaristaEntity.Barista.Equals | src/main/java/com/example/rest/entity/Barista.java:240-245 | same object equal, null not; otherwise equal exactly when both assigned ids match |
| BaristaEntity.Barista.HashCode | src/main/java/com/example/rest/entity/Barista.java:248-250 | depends on the id alone; NoValidId for the sentinel |
| CoffeeEntity.UnsavedError | src/main/java/com/example/rest/entity/Coffee.java:61-73 | nulls give NullParam, then empty name NoValidName, then invalid price NoValidPrice; passes exactly when all are given and valid |
| CoffeeEntity.ConstructorError | src/main/java/com/example/rest/entity/Coffee.java:35-49 | null id gives NullParam, negative id NoValidId before the name and price checks; passes exactly when the id is non-negative and the unsaved checks pass |
| CoffeeEntity.Coffee.New | src/main/java/com/example/rest/entity/Coffee.java:35-49 | succeeds exactly when ConstructorError passes, failing with its error |
| CoffeeEntity.Coffee.NewUnsaved | src/main/java/com/example/rest/entity/Coffee.java:61-73 | succeeds exactly when UnsavedError passes; id -1 |
| CoffeeEntity.Coffee.NewWithPrice | src/main/java/com/example/rest/entity/Coffee.java:84-96 | name and price validated, empty order list, id -1 |
| CoffeeEntity.Coffee.GetId | src/main/java/com/example/rest/entity/Coffee.java:104-108 | returns the id, NoValidId for the sentinel |
| CoffeeEntity.Coffee.SetId | src/main/java/com/example/rest/entity/Coffee.java:117-124 | fails as IdError; the id changes only on success |
| CoffeeEntity.Coffee.SetName | src/main/java/com/example/rest/entity/Coffee.java:142-149 | fails as NameError; the name changes only on success |
| CoffeeEntity.Coffee.SetPrice | src/main/java/com/example/rest/entity/Coffee.java:167-174 | fails as AmountError with NoValidPrice; the price changes only on success |
| CoffeeEntity.Coffee.SetOrderList | src/main/java/com/example/rest/entity/Coffee.java:191-196 | null gives NullParam and leaves the list; otherwise stores the given list's contents |
| CoffeeEntity.Coffee.Equals | src/main/java/com/example/rest/entity/Coffee.java:199-204 | same object equal, null not; otherwise equal exactly when both assigned ids match, whatever the names and prices |
| CoffeeEntity.Coffee.HashCode | src/main/java/com/example/rest/entity/Coffee.java:207-209 | depends on the id alone; NoValidId for the sentinel |
| ManyToManyRepository.ArgumentError | src/main/java/com/example/rest/repository/ManyToManyRepository.java:46-52 | a null id gives NullParam, then a negative id gives NoValidId; passes exactly for two non-negative ids |
| ManyToManyRepository.AddError | src/main/java/com/example/rest/repository/ManyToManyRepository.java:46-66 | argument errors first; then KeyNotPresent (the foreign-key violation) exactly when the order or coffee row is absent |
| ManyToManyRepository.AddReference | src/main/java/com/example/rest/repository/ManyToManyRepository.java:46-66 | on success the pair set gains exactly (order, coffee), a no-op if already present; on failure it is unchanged |
| ManyToManyRepository.DeleteReference | src/main/java/com/example/rest/repository/ManyToManyRepository.java:78-95 | on success exactly that pair is removed, absent or not; nothing else changes |
| OrderRepository.CreateError | src/main/java/com/example/rest/repository/imp/OrderRepositoryImp.java:41-52 | the copy's constructor checks, then an unassigned barista (NoValidId), then a missing created (NullParam) |
| OrderRepository.UpdateError | src/main/java/com/example/rest/repository/imp/OrderRepositoryImp.java:84-106 | getId first, then the copy's checks, then OrderNotFound exactly when no row has the id |
| OrderRepository.Create | src/main/java/com/example/rest/repository/imp/OrderRepositoryImp.java:41-72 | null gives NullParam; succeeds exactly when CreateError passes; inserts one row under a fresh id and returns a copy with that id and the other fields unchanged; pairs untouched |
| OrderRepository.Update | src/main/java/com/example/rest/repository/imp/OrderRepositoryImp.java:84-112 | succeeds exactly when UpdateError passes; overwrites that one row (barista, created, completed, price) and nothing else |
| OrderRepository.Delete | src/main/java/com/example/rest/repository/imp/OrderRepositoryImp.java:124-140 | IdError, then OrderNotFound when absent; removes exactly that row and leaves the pairs |
| OrderRepository.FindAll | src/main/java/com/example/rest/repository/imp/OrderRepositoryImp.java:149-159 | exactly the stored orders, each once |
| OrderRepository.FindAllByPage | src/main/java/com/example/rest/repository/imp/OrderRepositoryImp.java:172-189 | limit checked before page; on success the page of the scan, at most limit rows |
| OrderRepository.FindById | src/main/java/com/example/rest/repository/imp/OrderRepositoryImp.java:201-218 | IdError for bad ids; otherwise the stored row, or empty when absent |
| OrderRepository.FindByBaristaId | src/main/java/com/example/rest/repository/imp/OrderRepositoryImp.java:230-248 | exactly the stored orders whose barista is that id, each once |
| OrderRepository.FindByCoffeeId | src/main/java/com/example/rest/repository/imp/OrderRepositoryImp.java:261-281 | exactly the stored orders paired with that coffee, each once |
| OrderRepository.SetBaristaDefault | src/main/java/com/example/rest/repository/imp/OrderRepositoryImp.java:292-306 | IdError for bad ids; sets that order's barista to 0 and changes nothing else; no error when the order is absent |
| OrderRepository.SetBaristaDefaultAsWritten | src/main/java/com/example/rest/repository/imp/OrderRepositoryImp.java:292-306 | setBaristaDefault as written: the same update, but every valid id then fails with DataBase; bad ids give IdError |
| OrderRepository.DeletePairsByOrderId | src/main/java/com/example/rest/repository/imp/OrderRepositoryImp.java:317-330 | removes exactly the pairs whose first column is that order id |
| CoffeeRepository.UpdateError | src/main/java/com/example/rest/repository/imp/CoffeeRepositoryImp.java:69-83 | getId, then the copy's checks, then CoffeeNotFound exactly when no row has the id |
| CoffeeRepository.Create | src/main/java/com/example/rest/repository/imp/CoffeeRepositoryImp.java:37-57 | null gives NullParam; the copy's checks; inserts one row under a fresh id and returns it with name, price and order list unchanged |
| CoffeeRepository.Update | src/main/java/com/example/rest/repository/imp/CoffeeRepositoryImp.java:69-89 | succeeds exactly when UpdateError passes; writes only that row's name and price |
| CoffeeRepository.Delete | src/main/java/com/example/rest/repository/imp/CoffeeRepositoryImp.java:101-118 | IdError, then CoffeeNotFound when absent; removes exactly that row and leaves the pairs |
| CoffeeRepository.FindAll | src/main/java/com/example/rest/repository/imp/CoffeeRepositoryImp.java:127-137 | exactly the stored coffees, each once |
| CoffeeRepository.FindById | src/main/java/com/example/rest/repository/imp/CoffeeRepositoryImp.java:149-166 | IdError for bad ids; otherwise the stored row, or empty when absent |
| CoffeeRepository.FindAllByPage | src/main/java/com/example/rest/repository/imp/CoffeeRepositoryImp.java:179-197 | limit checked before page; on success the page of the scan, at most limit rows |
| CoffeeRepository.FindByOrderId | src/main/java/com/example/rest/repository/imp/CoffeeRepositoryImp.java:210-229 | exactly the stored coffees paired with that order, each once |
| CoffeeRepository.DeleteReferencesByCoffeeId | src/main/java/com/example/rest/repository/imp/CoffeeRepositoryImp.java:240-254 | removes exactly the pairs whose second column is that coffee id |
| BaristaRepository.UpdateError | src/main/java/com/example/rest/repository/imp/BaristaRepositoryImp.java:85-99 | getId, then the copy's checks, then BaristaNotFound exactly when no row has the id |
| BaristaRepository.Create | src/main/java/com/example/rest/repository/imp/BaristaRepositoryImp.java:50-72 | null gives NullParam; name and tip revalidated; inserts one row under a fresh id and returns it with the other fields unchanged |
| BaristaRepository.Update | src/main/java/com/example/rest/repository/imp/BaristaRepositoryImp.java:85-106 | succeeds exactly when UpdateError passes; writes only that row's name and tip |
| BaristaRepository.Delete | src/main/java/com/example/rest/repository/imp/BaristaRepositoryImp.java:118-135 | IdError, then BaristaNotFound when absent; removes exactly that row |
| BaristaRepository.FindAll | src/main/java/com/example/rest/repository/imp/BaristaRepositoryImp.java:144-155 | exactly the stored baristas, each once |
| BaristaRepository.FindAllByPage | src/main/java/com/example/rest/repository/imp/BaristaRepositoryImp.java:168-185 | limit checked before page; on success the page of the scan, at most limit rows |
| BaristaRepository.FindById | src/main/java/com/example/rest/repository/imp/BaristaRepositoryImp.java:197-213 | IdError for bad ids; otherwise the stored row, or empty when absent |
| BaristaRepository.FindExisting | src/main/java/com/example/rest/service/mapper/OrderDtoToOrderMapper.java:43-45 | findById followed by orElseThrow: the stored row, IdError for bad ids, BaristaNotFound when absent |
| OrderDtoToOrderMapper.ResolveCreate | src/main/java/com/example/rest/service/mapper/OrderDtoToOrderMapper.java:39-51 | null DTO or list gives NullParam; the barista is resolved first; succeeds exactly when the barista and every coffee id resolve, one coffee per id in order |
| OrderDtoToOrderMapper.MapCreate | src/main/java/com/example/rest/service/mapper/OrderDtoToOrderMapper.java:39-54 | fails as ResolveCreate; on success an order with the resolved barista and coffees, id -1, price 0, no times |
| OrderDtoToOrderMapper.ResolveUpdate | src/main/java/com/example/rest/service/mapper/OrderDtoToOrderMapper.java:69-83 | null checks, barista, then coffees in list order; succeeds exactly when those resolve and the all-fields constructor accepts the DTO's values |
| OrderDtoToOrderMapper.MapUpdate | src/main/java/com/example/rest/service/mapper/OrderDtoToOrderMapper.java:69-84 | fails as ResolveUpdate; on success carries the DTO's id, times and price with the resolved barista and coffees |
| CoffeeDtoToCoffeeMapper.MapCreate | src/main/java/com/example/rest/service/mapper/CoffeeDtoToCoffeeMapper.java:32-37 | null gives NullParam; otherwise Coffee(name, price): validated, id -1, empty order list |
| CoffeeDtoToCoffeeMapper.UpdateError | src/main/java/com/example/rest/service/mapper/CoffeeDtoToCoffeeMapper.java:50-63 | null DTO or list gives NullParam; the first unresolved order id's error; passes exactly when all ids resolve and the four-argument constructor accepts the DTO |
| CoffeeDtoToCoffeeMapper.MapUpdate | src/main/java/com/example/rest/service/mapper/CoffeeDtoToCoffeeMapper.java:50-63 | fails as UpdateError; on success carries id, name, price and one resolved order per listed id in order |
| BaristaDtoToBaristaMapper.CreateError | src/main/java/com/example/rest/service/mapper/BaristaDtoToBaristaMapper.java:33-43 | null DTO gives NullParam, then the name check, then NoValidTipSize for a given invalid tip |
| BaristaDtoToBaristaMapper.CreatedTip | src/main/java/com/example/rest/service/mapper/BaristaDtoToBaristaMapper.java:37-42 | the tip is 0.1 when the DTO has none and the DTO's value otherwise, never negative |
| BaristaDtoToBaristaMapper.MapCreate | src/main/java/com/example/rest/service/mapper/BaristaDtoToBaristaMapper.java:33-43 | fails as CreateError; on success id -1, the DTO's name, CreatedTip, empty order list |
| BaristaDtoToBaristaMapper.UpdateError | src/main/java/com/example/rest/service/mapper/BaristaDtoToBaristaMapper.java:56-68 | null DTO or list gives NullParam; the first unresolved order id's error; passes exactly when all ids resolve and the four-argument constructor accepts the DTO |
| BaristaDtoToBaristaMapper.MapUpdate | src/main/java/com/example/rest/service/mapper/BaristaDtoToBaristaMapper.java:56-68 | fails as UpdateError; on success carries id, name, tip and one resolved order per listed id in order |
| OrderMapper.ParseCoffees | src/main/java/com/example/rest/service/mapper/OrderMapper.java:52-70 | corrected parseCoffees: empty gives empty, repeats give DuplicatedElements, success exactly when all ids are distinct and stored, otherwise CoffeeNotFound listing exactly the missing ids |
| OrderMapper.ParseCoffeesAsWritten | src/main/java/com/example/rest/service/mapper/OrderMapper.java:60-62 | parseCoffees as written: when no id resolves the exception carries the distinct count instead of the ids; in every other case, and in whether it succeeds, it agrees with ParseCoffees |
| OrderMapper.CountReportedAsCoffeeId | src/main/java/com/example/rest/service/mapper/OrderMapper.java:60-62 | with an empty coffee table and ids [7, 9] the code reports CoffeeNotFound([2]); the corrected parse reports [7, 9] |
| OrderMapper.CreateResolution | src/main/java/com/example/rest/service/mapper/OrderMapper.java:36-38 | the barista is resolved before the coffees; success exactly when both resolve; the coffees are exactly the stored rows with the listed ids |
| OrderMapper.CreateDtoToEntity | src/main/java/com/example/rest/service/mapper/OrderMapper.java:36-38 | null DTO gives null; fails as CreateResolution; on success the resolved barista and coffees, no times, and id -1 and price 0 standing for the code's null fields |
| OrderMapper.UpdateError | src/main/java/com/example/rest/service/mapper/OrderMapper.java:40-46 | NoValidId before any lookup; then the barista; passes exactly when coffees resolve, created is given, completed is strictly later and the price is valid |
| OrderMapper.UpdateDtoToEntity | src/main/java/com/example/rest/service/mapper/OrderMapper.java:40-46 | fails as UpdateError; on success copies id, created, completed and price with the resolved barista and coffees |
| OrderMapper.CoffeesToNoRef | src/main/java/com/example/rest/service/mapper/OrderMapper.java:48-50 | one CoffeeNoRef per coffee, same length and order, fields copied |
| OrderMapper.EntityToDto | src/main/java/com/example/rest/service/mapper/OrderMapper.java:48-50 | copies the scalars and the barista as BaristaNoRef; the coffees are exactly CoffeeNoRef(id, name, price) of each coffee, same length and order; NoValidId when any of those ids is the sentinel |
| CoffeeMapper.OrderNoRefOf | src/main/java/com/example/rest/service/mapper/CoffeeMapper.java:64-73 | an order becomes OrderNoRef(id, barista id, created, completed, price) |
| CoffeeMapper.ParseOrderDtoList | src/main/java/com/example/rest/service/mapper/CoffeeMapper.java:64-73 | one OrderNoRef per order, same length and order |
| CoffeeMapper.StoredOrdersProject | src/main/java/com/example/rest/service/mapper/CoffeeMapper.java:64-73 | every stored order can be projected: the projection of the order table never fails |
| CoffeeMapper.ParseOrders | src/main/java/com/example/rest/service/mapper/CoffeeMapper.java:44-62 | corrected parseOrders: empty gives empty, repeats give DuplicatedElements, success exactly when all ids are distinct and stored, otherwise OrderNotFound listing exactly the missing ids |
| CoffeeMapper.ParseOrdersAsWritten | src/main/java/com/example/rest/service/mapper/CoffeeMapper.java:52-54 | parseOrders as written: when no id resolves the exception carries the distinct count instead of the ids; in every other case, and in whether it succeeds, it agrees with ParseOrders |
| CoffeeMapper.CountReportedAsOrderId | src/main/java/com/example/rest/service/mapper/CoffeeMapper.java:52-54 | with an empty order table and ids [7, 9] the code reports OrderNotFound([2]); the corrected parse reports [7, 9] |
| CoffeeMapper.CreateError | src/main/java/com/example/rest/service/mapper/CoffeeMapper.java:28-31 | setName then setPrice: accepts exactly what the constructor accepts; a null name gives NullParam and an empty name NoValidName whatever the price; with a valid name the price's check decides |
| CoffeeMapper.NameBeforeNullPrice | src/main/java/com/example/rest/service/mapper/CoffeeMapper.java:28-31 | an empty name with a null price gives NoValidName, where the constructor would give NullParam |
| CoffeeMapper.CreateDtoToEntity | src/main/java/com/example/rest/service/mapper/CoffeeMapper.java:28-31 | null gives null; fails exactly as CreateError; on success the DTO's name and price, id -1, empty order list |
| CoffeeMapper.UpdateError | src/main/java/com/example/rest/service/mapper/CoffeeMapper.java:33-37 | setId, setName and setPrice decide before any lookup (first failure wins); then parseOrders' error; passes exactly when the four-argument constructor accepts the DTO and every listed order resolves |
| CoffeeMapper.PriceBeforeOrders | src/main/java/com/example/rest/service/mapper/CoffeeMapper.java:33-37 | a non-finite or negative price with order ids [-1] gives NoValidPrice although the order lookup would fail |
| CoffeeMapper.UpdateDtoToEntity | src/main/java/com/example/rest/service/mapper/CoffeeMapper.java:33-37 | fails as UpdateError; on success copies id, name and price, and the order list is exactly the stored orders with the listed ids |
| CoffeeMapper.RowToNoRef | src/main/java/com/example/rest/service/mapper/CoffeeMapper.java:42 | copies id, name and price; NoValidId for the sentinel |
| CoffeeMapper.EntityToNoRefDto | src/main/java/com/example/rest/service/mapper/CoffeeMapper.java:42 | null gives null; otherwise copies id, name and price |
| CoffeeMapper.EntityToDto | src/main/java/com/example/rest/service/mapper/CoffeeMapper.java:39-40 | copies id, name and price; the orders are exactly OrderNoRef(id, barista id, created, completed, price) of each order, same length and order |
| BaristaMapper.CreateError | src/main/java/com/example/rest/service/mapper/BaristaMapper.java:28-31 | setFullName then setTipSize: accepts exactly what the constructor accepts; a null name gives NullParam and an empty name NoValidName whatever the tip; with a valid name the tip's check decides |
| BaristaMapper.CreateDtoToEntity | src/main/java/com/example/rest/service/mapper/BaristaMapper.java:28-31 | null gives null; fails exactly as CreateError; on success the DTO's name and tip, id -1, empty order list |
| BaristaMapper.UpdateError | src/main/java/com/example/rest/service/mapper/BaristaMapper.java:34-38 | setId, setFullName, setTipSize in that order, the first failure deciding; accepts exactly what the four-argument constructor accepts |
| BaristaMapper.IdBeforeNullName | src/main/java/com/example/rest/service/mapper/BaristaMapper.java:34-38 | id -5 with a null name gives NoValidId, where the constructor would give NullParam |
| BaristaMapper.UpdateDtoToEntity | src/main/java/com/example/rest/service/mapper/BaristaMapper.java:34-38 | null gives null; fails exactly as UpdateError; on success copies id, name and tip and always sets an empty order list |
| BaristaMapper.RowToNoRef | src/main/java/com/example/rest/service/mapper/BaristaMapper.java:43 | copies id, name and tip; NoValidId for the sentinel |
| BaristaMapper.EntityToNoRefDto | src/main/java/com/example/rest/service/mapper/BaristaMapper.java:43 | null gives null; otherwise copies id, name and tip |
| BaristaMapper.EntityToDto | src/main/java/com/example/rest/service/mapper/BaristaMapper.java:40-57 | copies the scalars; the orders are exactly OrderNoRef(id, barista id, created, completed, price) of each order, same length and order |
| OrderService.Total | src/main/java/com/example/rest/service/imp/OrderService.java:54-56 | the sum of non-negative prices is non-negative |
| OrderService.TotalAppend | src/main/java/com/example/rest/service/imp/OrderService.java:54-56 | the total of a concatenation is the sum of the totals |
| OrderService.TotalPermutation | src/main/java/com/example/rest/service/imp/OrderService.java:54-56 | the total does not depend on the order of the coffees |
| OrderService.OrderPrice | src/main/java/com/example/rest/service/imp/OrderService.java:54-58 | price = total x (1 + tip): at least the total when the tip and prices are non-negative, equal to it when the tip is 0 |
| OrderService.InsertByCreated | src/main/java/com/example/rest/service/imp/OrderService.java:149 | inserting adds exactly one occurrence of the order |
| OrderService.InsertSorted | src/main/java/com/example/rest/service/imp/OrderService.java:149 | insertion into a list sorted by created keeps it sorted |
| OrderService.InsertStable | src/main/java/com/example/rest/service/imp/OrderService.java:149 | insertion keeps the relative order of orders with equal created times |
| OrderService.SortByCreated | src/main/java/com/example/rest/service/imp/OrderService.java:149 | the result is sorted by created, a permutation of the input, and stable for ties |
| OrderService.Queue | src/main/java/com/example/rest/service/imp/OrderService.java:146-150 | exactly the unfinished orders, sorted by created, ties in scan order, each once |
| OrderService.LinkedCoffees | src/main/java/com/example/rest/service/imp/OrderService.java:97 | exactly the stored coffees paired with the order, each once |
| OrderService.AddCoffeeLinks | src/main/java/com/example/rest/service/imp/OrderService.java:64-66 | the pair set gains exactly one (order, coffee) pair per coffee |
| OrderService.RemoveCoffeeLinks | src/main/java/com/example/rest/service/imp/OrderService.java:104-106 | the pair set loses exactly the (order, coffee) pairs for the given coffees |
| IdLists.RemoveAllByKey | src/main/java/com/example/rest/service/imp/OrderService.java:99-102 | removeAll under an equals that compares keys: keeps exactly the rows whose key no row of the other list carries |
| OrderService.RemoveAll | src/main/java/com/example/rest/service/imp/OrderService.java:99-102 | removeAll keeps exactly the coffees whose id is not in the other list (equality by id); it gives both the stale links and the newly added coffees |
| OrderService.Reconciled | src/main/java/com/example/rest/service/imp/OrderService.java:97-109 | removing the stale pairs and re-adding every supplied one leaves the order paired with exactly the supplied coffee ids |
| OrderService.Create | src/main/java/com/example/rest/service/imp/OrderService.java:48-68 | fails as the mapper with nothing written; on success the order is stored with a fresh id, created = now, no completion, price = OrderPrice(coffees, tip), and the order is paired with exactly its coffees |
| OrderService.UpdateError | src/main/java/com/example/rest/service/imp/OrderService.java:83-94 | the mapper's error, then OrderNotFound exactly when the order is absent |
| OrderService.Update | src/main/java/com/example/rest/service/imp/OrderService.java:83-112 | price recomputed from the resolved coffees and barista; the row is rewritten; the order's pairs become exactly the supplied coffee ids; other orders' pairs are unchanged; the returned list holds the newly linked coffees |
| OrderService.ReconcileCoffeeLinks | src/main/java/com/example/rest/service/imp/OrderService.java:97-109 | deletes stale pairs, then adds every supplied coffee; other orders untouched; returns the newly linked coffees |
| OrderService.Delete | src/main/java/com/example/rest/service/imp/OrderService.java:124-136 | IdError; OrderHasReferences when any coffee is linked, with nothing removed; OrderNotFound when absent; otherwise the row and all its pairs are removed |
| OrderService.LinkedMeansPaired | src/main/java/com/example/rest/service/imp/OrderService.java:130-131 | with every pair resolving, no linked coffee means no pair at all for that order |
| OrderService.CompleteError | src/main/java/com/example/rest/service/imp/OrderService.java:169-181 | IdError, OrderNotFound, OrderAlreadyCompleted; passes exactly for a stored, unfinished order whose created is before now |
| OrderService.CompleteOrder | src/main/java/com/example/rest/service/imp/OrderService.java:169-186 | fails as CompleteError with nothing written; on success only that row's completed becomes now, and the order returned carries its barista and linked coffees |
| OrderService.FindById | src/main/java/com/example/rest/service/imp/OrderService.java:212-224 | IdError, OrderNotFound when absent; on success the stored order with exactly its paired coffees |
| OrderService.WithCoffees | src/main/java/com/example/rest/service/imp/OrderService.java:196-198 | each order is paired with exactly the coffees it is linked to, same length and order |
| OrderService.GetOrderQueue | src/main/java/com/example/rest/service/imp/OrderService.java:145-155 | the queue of unfinished orders in non-decreasing created order, each with its coffees |
| OrderService.FindAll | src/main/java/com/example/rest/service/imp/OrderService.java:194-200 | every stored order in scan order, each with exactly its coffees |
| OrderService.FindAllByPage | src/main/java/com/example/rest/service/imp/OrderService.java:236-247 | page checked before limit; on success the page of orders, each with exactly its coffees |
| CoffeeService.LinkedOrders | src/main/java/com/example/rest/service/imp/CoffeeService.java:89 | exactly the stored orders paired with the coffee, each once |
| CoffeeService.AddOrderLinks | src/main/java/com/example/rest/service/imp/CoffeeService.java:99-101 | the pair set gains exactly one (order, coffee) pair per order |
| CoffeeService.RemoveOrderLinks | src/main/java/com/example/rest/service/imp/CoffeeService.java:96-98 | the pair set loses exactly the (order, coffee) pairs for the given orders |
| OrderLists.RemoveAll | src/main/java/com/example/rest/service/imp/CoffeeService.java:91-94 | removeAll keeps exactly the orders whose id is not in the other list (equality by id); the coffee and barista updates use it for the stale and the newly added orders |
| OrderLists.ResolvedOrders | src/main/java/com/example/rest/service/mapper/CoffeeDtoToCoffeeMapper.java:58-61 | orders resolved one id at a time are exactly the stored rows under the listed ids, and their ids are exactly the listed ids |
| OrderLists.FindOrders | src/main/java/com/example/rest/service/mapper/BaristaDtoToBaristaMapper.java:63-66 | each id through findById: succeeds exactly when every id is non-negative and stored, giving the stored row for each listed id in order; fails with NoValidId or OrderNotFound |
| CoffeeService.Reconciled | src/main/java/com/example/rest/service/imp/CoffeeService.java:89-101 | removing the stale pairs and re-adding every supplied one leaves the coffee paired with exactly the supplied order ids |
| CoffeeService.ReconcileOrderLinks | src/main/java/com/example/rest/service/imp/CoffeeService.java:89-101 | deletes stale pairs, then adds every supplied order; other coffees untouched; returns the newly linked orders |
| CoffeeService.Create | src/main/java/com/example/rest/service/imp/CoffeeService.java:57-63 | the mapper's checks; on success one coffee row with a fresh id, the DTO's name and price, empty order list |
| CoffeeService.UpdateError | src/main/java/com/example/rest/service/imp/CoffeeService.java:81-86 | the mapper's error, then CoffeeNotFound exactly when the coffee is absent |
| CoffeeService.Update | src/main/java/com/example/rest/service/imp/CoffeeService.java:81-103 | writes name and price; the coffee's pairs become exactly the listed order ids; other coffees' pairs unchanged; the returned list holds the newly linked orders |
| CoffeeService.Delete | src/main/java/com/example/rest/service/imp/CoffeeService.java:115-128 | IdError; CoffeeHasReference when any order is linked, with nothing removed; CoffeeNotFound when absent; otherwise the row and all its pairs are removed |
| CoffeeService.UnreferencedMeansUnpaired | src/main/java/com/example/rest/service/imp/CoffeeService.java:121-122 | with every pair resolving, no linked order means no pair at all for that coffee |
| CoffeeService.FindById | src/main/java/com/example/rest/service/imp/CoffeeService.java:140-152 | IdError, CoffeeNotFound when absent; on success the stored coffee with exactly its paired orders |
| CoffeeService.WithOrders | src/main/java/com/example/rest/service/imp/CoffeeService.java:163-165 | each coffee is paired with exactly the orders it is linked to, same length and order |
| CoffeeService.FindAll | src/main/java/com/example/rest/service/imp/CoffeeService.java:160-167 | every stored coffee in scan order, each with exactly its orders |
| CoffeeService.FindAllByPage | src/main/java/com/example/rest/service/imp/CoffeeService.java:179-191 | page checked before limit; on success the page of coffees, each with exactly its orders |
| BaristaService.OrdersOf | src/main/java/com/example/rest/service/imp/BaristaService.java:84 | exactly the stored orders pointing at the barista, each once |
| BaristaService.DetachOrders | src/main/java/com/example/rest/service/imp/BaristaService.java:91-93 | every given order is re-pointed to barista 0; nothing else changes |
| BaristaService.AttachOrders | src/main/java/com/example/rest/service/imp/BaristaService.java:94-97 | every given order is re-pointed to the barista, its other fields written back unchanged (price not recomputed) |
| BaristaService.Create | src/main/java/com/example/rest/service/imp/BaristaService.java:53-59 | the mapper's checks; on success one barista row with a fresh id, the DTO's name and CreatedTip, empty order list |
| BaristaService.UpdateError | src/main/java/com/example/rest/service/imp/BaristaService.java:76-82 | the mapper's error, then BaristaNotFound exactly when the barista is absent |
| BaristaService.Reassignment | src/main/java/com/example/rest/service/imp/BaristaService.java:84-97 | detach then attach: a listed order points at the barista, the barista's other orders at 0, every other order is unchanged |
| BaristaService.ReassignOrders | src/main/java/com/example/rest/service/imp/BaristaService.java:84-97 | performs detach then attach with exactly that per-order result; returns the listed orders that were not already the barista's |
| BaristaService.Update | src/main/java/com/example/rest/service/imp/BaristaService.java:76-99 | writes name and tip; listed orders point at the barista, its other orders at 0, the rest are unchanged; the returned list holds the newly attached orders |
| BaristaService.Delete | src/main/java/com/example/rest/service/imp/BaristaService.java:111-123 | IdError; every order of the barista is re-pointed to 0, then the row is removed, BaristaNotFound when absent; id 0 is not rejected |
| BaristaService.DeleteAsWritten | src/main/java/com/example/rest/service/imp/BaristaService.java:111-123 | delete over the as-written setBaristaDefault: a barista with no orders is deleted as by Delete; one with any order is kept, exactly one of its orders moves to barista 0, and the call fails with DataBase |
| BaristaService.FindById | src/main/java/com/example/rest/service/imp/BaristaService.java:135-147 | IdError, BaristaNotFound when absent; on success the stored barista with exactly its orders |
| BaristaService.WithOrders | src/main/java/com/example/rest/service/imp/BaristaService.java:157-159 | each barista is paired with exactly its orders, same length and order |
| BaristaService.FindAll | src/main/java/com/example/rest/service/imp/BaristaService.java:155-161 | every stored barista in scan order, each with exactly its orders |
| BaristaService.FindAllByPage | src/main/java/com/example/rest/service/imp/BaristaService.java:173-184 | page checked before limit; on success the page of baristas, each with exactly its orders |
| ControllerAdvice.Code | src/main/java/com/example/rest/servlet/GlobalControllerAdvice.java:30-51 | NOT_FOUND is 404 and BAD_REQUEST is 400, and no other status has those codes |
| ControllerAdvice.ErrorsBody | src/main/java/com/example/rest/servlet/GlobalControllerAdvice.java:73-77 | the body has the single key "errors", mapped to the message list |
| ControllerAdvice.Classify | src/main/java/com/example/rest/servlet/GlobalControllerAdvice.java:30-51 | 404 exactly for the three not-found kinds; 400 exactly for the nine listed kinds; no handler exactly for the other six |
| ControllerAdvice.Handle | src/main/java/com/example/rest/servlet/GlobalControllerAdvice.java:30-51 | a response exists exactly for a classified error, with its status and the one-element message list; a null message becomes "null" |
| ControllerAdvice.HandleValidation | src/main/java/com/example/rest/servlet/GlobalControllerAdvice.java:54-71 | 400 with every validation message, in order, under "errors" |
| ControllerAdvice.FinderFailuresHandled | src/main/java/com/example/rest/servlet/GlobalControllerAdvice.java:30-51 | every failure of the three services' findById has a handler (404 once the id is valid), and every paging failure is a 400 |

## Left out

* **Transport and plumbing.** Servlets, controllers, Spring configuration,
  JDBC connections and SQL text are not modelled. A `SQLException` other than
  the foreign-key violation and the one `setBaristaDefault` provokes (see
  Findings) is never raised: the in-memory store does not fail.
* **ResultSet decoding.** The repository-side mappers are not modelled; finders
  return rows. The decoder's barista lookup is modelled only in
  `completeOrder`, where a failed lookup decides the outcome. Elsewhere,
  orders' barista ids stay as stored.
* **Aliasing.** Cross-entity references are value snapshots: rows, not shared
  objects. The services' `removeAll` on the returned entity's own list is
  modelled by returning that list's new value. The finders return
  `OrderDetail`/`CoffeeDetail`/`BaristaDetail` views (a row plus its linked
  rows) rather than mutated entities.
* **JPA and MapStruct machinery.** Order's no-argument constructor
  (Order.java:63) is not modelled on its own: it leaves id and price null,
  and the model's fields cannot be null. The order mapper's create builds the
  order with the two-argument unsaved constructor (see the
  OrderMapper.CreateDtoToEntity line below). Its update is modelled as that
  constructor followed by the setters, which overwrite every field the
  no-argument constructor left unset. Annotations, `entityManager.merge` and
  `Hibernate.initialize` in BaristaMapper are left out.
* **Missing constructors.** `new Order(barista, coffees)` and the
  five-argument `new Order(...)` are called but not declared in Order.java.
  They are modelled with the defaults documented in Order.java's class
  comment (Order.java:21): id -1, price 0, created and completed null. The
  fields themselves (Order.java:33, 58) have no initializer.
* **Floating point.** Prices and tips are reals. The rounding of `Double` sums
  and products is not modelled, and NaN and the infinities are one `NotFinite`
  value.
* **Clock.** `LocalDateTime.now()` is the parameter `now`.
* **Messages and logging.** Exception message text is not modelled: the advice
  takes the message as a parameter. The advice's debug logging is left out.
* **Hashing.** The `hashCode` methods are modelled as the id they hash. The
  `Long.hashCode` fold is not modelled.
* **Transactions and concurrency.** Each service call is one sequential step.
* **Null elements.** Null elements inside id lists are not modelled: lists are
  `seq<int>`.
* **Unreachable code.** The `orElseThrow` in `findByOrderId`/`findByCoffeeId`
  cannot fire: those joins only return existing rows.
* OrderMapper.CreateDtoToEntity: requires a non-null coffee id list when the
  DTO is given. The MapStruct code would throw a NullPointerException there,
  and there is no error kind for it.
* OrderMapper.CreateDtoToEntity: the generated code calls `new Order()`
  (Order.java:63), which sets no field, and then sets only the barista and
  the coffee list. Its id and price therefore stay null (Order.java:33, 58),
  and a later `getId()` would throw a NullPointerException (Order.java:108).
  The model has no null id or price. It gives the new order id -1 and price
  0.0, the defaults documented in Order.java:21, so its success clause
  `id == UNASSIGNED_ID` and `price == 0.0` describes that convention, not the
  code's null fields.
* OrderMapper.UpdateDtoToEntity: requires a non-null coffee id list when the
  DTO is given, for the same reason.
* CoffeeMapper.UpdateDtoToEntity: requires a non-null order id list when the
  DTO is given, for the same reason.
* OrderMapper.CreateResolution, OrderMapper.CreateDtoToEntity,
  OrderMapper.UpdateError and OrderMapper.UpdateDtoToEntity: built on the
  corrected ParseCoffees. The code as written (ParseCoffeesAsWritten) differs
  only when none of the listed coffees is stored: it then reports the count
  of distinct ids as the one missing coffee id (see Findings).
* CoffeeMapper.UpdateError and CoffeeMapper.UpdateDtoToEntity: built on the
  corrected ParseOrders. The code as written (ParseOrdersAsWritten) differs
  only when none of the listed orders is stored, in the same way.
* BaristaService.Delete, BaristaService.Update, BaristaService.ReassignOrders
  and BaristaService.DetachOrders: built on the corrected SetBaristaDefault. As
  written, the first order to re-point makes the call fail with DataBase after
  that one order has moved (DeleteAsWritten, see Findings).
* OrderEntity.Order.Equals, BaristaEntity.Barista.Equals and
  CoffeeEntity.Coffee.Equals: the argument is typed as the same class.
  Comparing with an object of another class (which Java answers with false) is
  not expressible.
* OrderService.Update, CoffeeService.Update: the pair set ends up exactly the
  supplied ids only when every stored pair names existing rows. The store's
  foreign keys guarantee this, and the model carries it as `Db.PairsResolve`.
  Without it, the contract states only that every supplied id is paired and
  that other entities' pairs are unchanged.

## Behaviour worth knowing

* **Deleting barista 0.** `BaristaService.delete` accepts id 0 like any other
  id. It re-points that barista's orders to 0 and then deletes the row.
  Order.java:35-36 maps the barista column as non-null but no schema is part
  of the repository, so whether a foreign key guards it is not known. The
  model assumes there is none: the delete then succeeds and those orders name
  a missing barista. If the database had such a key, the row's DELETE would
  fail instead and the service would report a database error.
* **Queue ties.** The queue sorts by `created` only. Orders created at the
  same instant keep their scan order, because the sort is stable.
* **Pages.** Pages have no `ORDER BY`. A page is a slice of the same scan that
  `findAll` returns.
* **Argument-free Coffee and Barista.** Coffee.java and Barista.java declare no
  argument-free constructor, while their tests and the MapStruct mappers need
  one (CoffeeTest.java:81). The mappers are modelled as the tests expect: an
  empty entity (id -1) filled by the setters in declaration order, so the
  first setter to throw decides the error (CoffeeMapperTest.java:155-167
  expects NoValidPrice although no listed order exists).
* **Conflict statuses.** The advice has no handler for `CreatedNotDefined`,
  `CompletedBeforeCreated`, `KeyNotPresent`, `OrderHasReferences`,
  `CoffeeHasReference` and `DataBase`. `ControllerAdvice.Classify` returns
  `None` for them: the advice gives them no status of its own.

## Findings

| source | as written | input that shows it | evidently intended | confidence | as-written member | corrected member |
|---|---|---|---|---|---|---|
| src/main/java/com/example/rest/service/mapper/OrderMapper.java:60-62 | when no requested coffee exists, `CoffeeNotFoundException` is built from the distinct count of the ids | empty coffee table, ids [7, 9]: the exception names coffee 2 | report the ids that were not found, [7, 9], as the partial-miss branch does | not executed | OrderMapper.ParseCoffeesAsWritten, OrderMapper.CountReportedAsCoffeeId | OrderMapper.ParseCoffees |
| src/main/java/com/example/rest/service/mapper/CoffeeMapper.java:52-54 | when no requested order exists, `OrderNotFoundException` is built from the distinct count of the ids | empty order table, ids [7, 9]: the exception names order 2 | report the ids that were not found, [7, 9] | not executed | CoffeeMapper.ParseOrdersAsWritten, CoffeeMapper.CountReportedAsOrderId | CoffeeMapper.ParseOrders |
| src/main/java/com/example/rest/repository/imp/OrderRepositoryImp.java:301 | the UPDATE of `setBaristaDefault` is sent with `executeQuery`; the PostgreSQL driver runs it, then throws because no result set comes back, and the `SQLException` becomes `DataBaseException` | deleting a barista that has one order: that order moves to barista 0, then the delete fails and the barista stays | send the statement with `executeUpdate`, as every other write does, so the call returns normally | not executed | OrderRepository.SetBaristaDefaultAsWritten, BaristaService.DeleteAsWritten | OrderRepository.SetBaristaDefault |
