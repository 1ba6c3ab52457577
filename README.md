# Bookstore inventory and orders, modelled in Dafny

This project models the order and stock engine of a small bookstore
service. It has three parts.

- **Stock ledger** (`stock.dfy`, module `StockService`). The book stock
  service keeps a table of stock rows `(id, name, quantity)` keyed by book
  id. It offers three operations:
  - a point lookup (`getStockById`);
  - an availability check (`existsEnoughQuantityInStock`), which tests each
    order line on its own against the current table;
  - the stock commit (`updateStock`), which walks the order lines in turn and
    decrements each book's quantity. It stops with an error at the first line
    whose book is missing or whose quantity would go below zero. Rows written
    before that line stay written.
- **Order log** (`orders.dfy`, module `OrderService`). Creating an order
  stores one row `(orderId, bookId, quantity)` per request line, all under
  one fresh id. Reading the orders scans every stored row and groups the rows
  by order id into `orderId -> [(bookId, quantity)]`. A failed scan becomes
  the fixed error "There was an error retrieving the orders."
- **Order endpoint** (`resource.dfy`, module `OrderResource`). `createOrder`
  is a decision chain:
  - an empty order gets BAD_REQUEST;
  - a failing availability check gets INTERNAL_SERVER_ERROR;
  - insufficient stock gets BAD_REQUEST;
  - a failing save gets INTERNAL_SERVER_ERROR;
  - otherwise the stock commit is scheduled and the answer is OK with the
    order id.

  The commit runs later, and its outcome is only logged. `getOrders` passes
  the service's map through with OK, or the exception message with
  INTERNAL_SERVER_ERROR.

`entities.dfy` (module `Entities`) holds the record shapes: `BookStock`,
`BookOrderItem`, `OrderItem`, and `Option`/`Result`.

How the model is shaped:

- The services are classes whose fields stand in for their repositories. The
  stock table is a `map<string, BookStock>` and the order log a
  `seq<BookOrderItem>`.
- `updateStock`, `createOrder` and the grouping loop are methods with loops.
  Each one is proved against a function:
  - `Commit` specifies the stock commit, one line after another;
  - `Stamp` specifies the rows an order creates;
  - `Group` is the map the grouping loop builds.
- Lemmas prove what those functions mean. The reference definition `ItemsOf`
  gives each order's group.
- Inputs stand in for things the model cannot see:
  - the boolean inputs `checkThrows`, `persistThrows` and `scanFails` say
    whether a repository call raises an exception, and the `fault` input of
    the stock commit says at which line, if any, its lookup or save raises;
  - the `scan` input is the list `findAll` returns: the stored rows in an
    order the repository does not fix (any permutation of the log);
  - the random order id is the parameter `freshId`, which must not already
    occur in the log.
- The asynchronous commit is a `pending` list on the endpoint.
  `CreateOrder` adds an accepted order to it. `RunDeferredCommit` runs any
  pending entry, in any order, and its result reaches no response.

## Model

| member | source | states |
|---|---|---|
| `StockService.Available` | src/main/java/com/adobe/bookstore/service/impl/BookStockService.java:22-29 | true exactly when every line names a stored book whose quantity is at least the line's quantity, each line judged alone against the same table; a missing book makes it false |
| `StockService.BookStockService.ExistsEnoughQuantityInStock` | src/main/java/com/adobe/bookstore/service/impl/BookStockService.java:22-29 | the check through `GetStockById` lookups: true exactly when every line's lookup finds a row with enough quantity; being a function, it leaves the table unchanged |
| `StockService.BookStockService.GetStockById` | src/main/java/com/adobe/bookstore/service/impl/BookStockService.java:86-89 | `Some` of the stored row, whose id is the requested id, when the id is stored, and `None` otherwise |
| `StockService.Commit` | src/main/java/com/adobe/bookstore/service/impl/BookStockService.java:48-63 | the commit keeps every key, id and name, and every row it changes holds a non-negative quantity |
| `StockService.UpdateResult.Message` | src/main/java/com/adobe/bookstore/service/impl/BookStockService.java:52-61 | the text logged for each commit outcome: "Stock updated successfully." on success (BookOrderResource.java line 60), "Book with ID " + id + " not found. ..." for a missing book, "Not enough stock for book with ID " + id + ". ..." for a short one, with the book id recoverable from its position; a repository exception logs its own message |
| `StockService.MessageIdentifiesOutcome` | src/main/java/com/adobe/bookstore/service/impl/BookStockService.java:52-61 | two outcomes of the commit's own checks that log the same text are the same outcome, book id included |
| `StockService.CommitWithFault` | src/main/java/com/adobe/bookstore/service/impl/BookStockService.java:48-63 | the commit when the lookup or save of line k raises: if the commit reaches line k it stops there with the exception's message, the lines before k stay written (each book at its old quantity minus what they requested) and line k writes nothing; otherwise, or with no fault, it is exactly `Commit` |
| `StockService.BookStockService.UpdateStock` | src/main/java/com/adobe/bookstore/service/impl/BookStockService.java:48-63 | the result and the new table are those of `CommitWithFault` on the old table, partial writes included (so `Commit` when no repository call raises); a table with no negative quantity keeps none |
| `StockService.FailureIsFinal` | src/main/java/com/adobe/bookstore/service/impl/BookStockService.java:49-63 | once a line has failed, the lines after it change neither the outcome nor the table |
| `StockService.SuccessfulCommit` | src/main/java/com/adobe/bookstore/service/impl/BookStockService.java:48-57 | after a successful commit every line's book was stored, and each book holds its old quantity minus the sum of the quantities its lines requested |
| `StockService.UntouchedBook` | src/main/java/com/adobe/bookstore/service/impl/BookStockService.java:48-63 | a book that no line names keeps its row, whether the commit succeeds or fails |
| `StockService.PartialCommit` | src/main/java/com/adobe/bookstore/service/impl/BookStockService.java:49-63 | a failed commit failed at some line k: lines before k are all applied, line k names a missing book (`UnknownBook` of its id) or asks for more than remains (`InsufficientStock` of its id), and nothing after k is applied |
| `StockService.SucceedsOnlyIfCovered` | src/main/java/com/adobe/bookstore/service/impl/BookStockService.java:51-56 | a successful commit had every ordered book stored with at least the total its lines request |
| `StockService.CoveredSucceeds` | src/main/java/com/adobe/bookstore/service/impl/BookStockService.java:51-56 | with no negative request, an order whose books all cover their totals commits successfully |
| `StockService.CommitSucceedsIff` | src/main/java/com/adobe/bookstore/service/impl/BookStockService.java:48-63 | with no negative request, the commit succeeds exactly when every ordered book is stored with at least the summed quantity the order requests for it |
| `StockService.CommitImpliesAvailable` | src/main/java/com/adobe/bookstore/service/impl/BookStockService.java:22-57 | with no negative request, an order that commits also passes the availability check on the same table |
| `StockService.CheckIsPerLine` | src/main/java/com/adobe/bookstore/service/impl/BookStockService.java:22-57 | the check is per line, not summed per book: two lines of n copies of a book with n to 2n-1 in stock pass the check, yet the commit fails with `InsufficientStock` of that book |
| `OrderService.Stamp` | src/main/java/com/adobe/bookstore/service/impl/BookOrderService.java:29-35 | one row per request line, in request order, each carrying the given order id and the line's book id and quantity unchanged |
| `OrderService.BookOrderService.CreateOrder` | src/main/java/com/adobe/bookstore/service/impl/BookOrderService.java:26-37 | returns the supplied fresh id, and the new log is the old log followed by exactly the stamped rows of the order |
| `OrderService.GroupByOrder` | src/main/java/com/adobe/bookstore/service/impl/BookOrderService.java:68-87 | the grouped keys are exactly the order ids of the scan (so an empty scan gives the empty map), and each group is that order's rows projected to `(bookId, quantity)` in scan order, duplicates kept |
| `OrderService.GroupSizesSum` | src/main/java/com/adobe/bookstore/service/impl/BookOrderService.java:78-83 | summed over a duplicate-free list of the order ids, the group sizes add up to the number of scanned rows, so every row lands in exactly one group |
| `OrderService.BookOrderService.GroupRows` | src/main/java/com/adobe/bookstore/service/impl/BookOrderService.java:68-87 | the loop builds `Group` of the scan, whose keys are the scan's order ids and whose groups are the reference groups `ItemsOf` |
| `OrderService.CreatedOrderReadBack` | src/main/java/com/adobe/bookstore/service/impl/BookOrderService.java:26-37 | after appending an order's rows under an unused id, grouping the log gives that id exactly the request lines, and leaves every other order's group as it was; an empty order leaves the grouping unchanged |
| `OrderService.ItemsOfPermutation` | src/main/java/com/adobe/bookstore/service/impl/BookOrderService.java:58-87 | two scans holding the same rows in different orders give every order id the same lines, counted with repetition |
| `OrderService.ScannedReadBack` | src/main/java/com/adobe/bookstore/service/impl/BookOrderService.java:55-87 | after an order is created under an unused id, grouping a scan that returns the log's rows in any order gives that id exactly the request lines, up to their order |
| `OrderService.BookOrderService.GetOrders` | src/main/java/com/adobe/bookstore/service/impl/BookOrderService.java:55-66 | a failed scan gives the single error "There was an error retrieving the orders."; otherwise the grouping of the scan, whose keys are the log's order ids and whose groups hold each order's logged lines, in scan order, up to reordering |
| `OrderResource.Decide` | src/main/java/com/adobe/bookstore/resource/BookOrderResource.java:29-67 | the calls made are a prefix of check, persist, schedule, in that order. Empty order: BAD_REQUEST with no call. The check throws: 500, nothing persisted. The check says no: BAD_REQUEST, nothing persisted. Persist throws: 500, no commit scheduled. Otherwise OK with the created message and id. The commit is scheduled exactly when the answer is OK |
| `OrderResource.StaleCheckRace` | src/main/java/com/adobe/bookstore/resource/BookOrderResource.java:35-64 | on a fresh endpoint, two orders for one book accepted through `CreateOrder` before either deferred commit runs are both answered OK (one takes the book's whole stock, one takes more of it); the first `RunDeferredCommit` empties the book and the second then logs `InsufficientStock`, though both callers were told OK |
| `OrderResource.BookOrderResource.CreateOrder` | src/main/java/com/adobe/bookstore/resource/BookOrderResource.java:29-67 | the response is `Decide` of what the check and the save do. The log grows by the stamped rows only when the save is reached and succeeds. The commit is queued only on OK. The stock is untouched. On OK, grouping the log in insertion order gives the new id exactly the request lines (`ScannedReadBack` gives the same up to order for a scan in any order) |
| `OrderResource.BookOrderResource.RunDeferredCommit` | src/main/java/com/adobe/bookstore/resource/BookOrderResource.java:57-64 | removes one scheduled commit, in any order, and applies `CommitWithFault` to the current table, so a repository exception stops it with the earlier writes kept. The outcome is only the logged value. The order log is unchanged. A table with no negative quantity keeps none |
| `OrderResource.BookOrderResource.GetOrders` | src/main/java/com/adobe/bookstore/resource/BookOrderResource.java:70-76 | OK with the service's grouped map of the scan unchanged, or INTERNAL_SERVER_ERROR with the service's error message |

## Design vs code

Three points where one could expect more than the code does. The model
follows the code.

- One might expect the stock commit to be atomic per book (a
  compare-and-swap or a lock). The code does a plain read, subtract, check
  and save for each line.
- `Group` keeps the scan's order within each group, as the loop does. The
  scan itself has no fixed order, so the lines of one order are promised
  back only up to reordering (`ScannedReadBack`).
- Order lines are not required to have positive quantities. The code
  validates no quantity, so the model takes any integer. Where a property
  needs non-negative requests, it says so in its `requires`.

## Left out

- Concurrency. `CompletableFuture.runAsync` is modelled as the `pending`
  list. Each `RunDeferredCommit` runs one whole commit as a single step.
  Different orders' commits may run in any order, but the lines of two
  commits never interleave. The lost-update race between concurrent
  `updateStock` calls on the same book is therefore not modelled.
- Spring and JPA wiring, HTTP routing, and the repositories are left out. The
  repositories become the `stock` map and the `log` sequence.
- A save that fails partway through `createOrder` is not modelled row by row.
  The `@Transactional` rollback is taken as all-or-nothing: a failed save
  leaves the log unchanged.
- `UUID.randomUUID()` is not modelled. The id is the `freshId` parameter, and
  its freshness is a precondition.
- The exceptions that the availability check, the save, the scan and the
  stock commit's lookups and saves can raise are not modelled as such. They
  become inputs: booleans for the first three, and a `RepositoryFault`
  naming the failing line and its message for the commit.
- Logging (`Log.info` and `Log.error`) is a side effect only and is left out.
  `UpdateResult.Message` gives the text the deferred commit would log.
- `BookStockResource.getStockById`, the 200/404 pass-through over
  `GetStockById`, is left out. It contains no logic of its own.
- The database's composite key on `(order_id, book_id)` is not modelled. An
  order that names a book twice gets two rows in the model's log. JPA's
  `save` would merge them into one row.
- Java `Integer` overflow is not modelled: quantities are unbounded integers.
  Null fields are left out too.
