/** The order endpoint: the intake decision chain for creating an order,
    the deferred stock commit it schedules, and the read of all orders. */
module OrderResource {
  import opened Entities
  import opened StockService
  import opened OrderService

  const EMPTY_ORDER: string := "The order has been rejected because it was empty."
  const NOT_ENOUGH_STOCK: string :=
    "The order has been rejected because at least one item does not have the required quantity available on stock."
  const CHECK_FAILED: string := "An unexpected error occurred checking if there was enough stock."
  const CREATE_FAILED: string := "An unexpected error occurred creating the Order."
  const CREATED: string := "Order created successfully. Order ID: "

  datatype Status = Ok | BadRequest | InternalServerError

  datatype Body = Text(text: string) | Orders(orders: OrderMap)

  datatype Response = Response(status: Status, body: Body)

  /** What the availability check did: raised an exception, or answered. */
  datatype CheckOutcome = CheckThrew | Checked(enough: bool)

  /** What saving the order did: raised an exception, or returned its id. */
  datatype PersistOutcome = PersistThrew | Persisted(orderId: string)

  /** The collaborator calls the intake can make. */
  datatype Step = CheckStock | PersistOrder | ScheduleCommit

  /** The response of one intake and the calls it made, in order. */
  datatype Intake = Intake(response: Response, steps: seq<Step>)

  const ALL_STEPS: seq<Step> := [CheckStock, PersistOrder, ScheduleCommit]

  /** The createOrder decision chain, given what its collaborators do. The
      calls are always a prefix of check, persist, schedule; the commit is
      scheduled exactly when the caller is told the order was created; no
      input describes the commit's own outcome, so the response cannot
      depend on it. */
  function Decide(order: seq<OrderItem>, check: CheckOutcome, persist: PersistOutcome): (r: Intake)
    ensures |r.steps| <= |ALL_STEPS| && r.steps == ALL_STEPS[..|r.steps|]
    ensures CheckStock in r.steps <==> |order| > 0
    ensures PersistOrder in r.steps <==> |order| > 0 && check == Checked(true)
    ensures ScheduleCommit in r.steps <==> r.response.status == Ok
    ensures r.response.status == Ok <==> |order| > 0 && check == Checked(true) && persist.Persisted?
    ensures r.response.status == Ok ==> r.response.body == Text(CREATED + persist.orderId)
    ensures |order| == 0 ==> r.response == Response(BadRequest, Text(EMPTY_ORDER))
    ensures |order| > 0 && check == CheckThrew ==>
              r.response == Response(InternalServerError, Text(CHECK_FAILED))
    ensures |order| > 0 && check == Checked(false) ==>
              r.response == Response(BadRequest, Text(NOT_ENOUGH_STOCK))
    ensures |order| > 0 && check == Checked(true) && persist == PersistThrew ==>
              r.response == Response(InternalServerError, Text(CREATE_FAILED))
  {
    if |order| == 0 then
      Intake(Response(BadRequest, Text(EMPTY_ORDER)), [])
    else
      match check
      case CheckThrew =>
        Intake(Response(InternalServerError, Text(CHECK_FAILED)), [CheckStock])
      case Checked(enough) =>
        if !enough then
          Intake(Response(BadRequest, Text(NOT_ENOUGH_STOCK)), [CheckStock])
        else
          match persist
          case PersistThrew =>
            Intake(Response(InternalServerError, Text(CREATE_FAILED)), [CheckStock, PersistOrder])
          case Persisted(orderId) =>
            Intake(Response(Ok, Text(CREATED + orderId)), [CheckStock, PersistOrder, ScheduleCommit])
  }

  /** The order endpoint with its two services, and the stock commits that
      accepted orders have scheduled but that have not run yet. */
  class BookOrderResource {
    const stockService: BookStockService
    const orderService: BookOrderService
    var pending: seq<seq<OrderItem>>

    ghost predicate Valid()
      reads this, stockService
    {
      stockService.Valid()
    }

    constructor (stockService: BookStockService, orderService: BookOrderService)
      requires stockService.Valid()
      ensures Valid()
      ensures this.stockService == stockService && this.orderService == orderService
      ensures pending == []
    {
      this.stockService := stockService;
      this.orderService := orderService;
      pending := [];
    }

    /** createOrder. `checkThrows` and `persistThrows` say whether the
        availability check or the saving of the order raises an exception;
        a failed save is rolled back, so it leaves the log as it was.
        `freshId` is the identifier the random generator supplies. The
        stock is never touched here: an accepted order only schedules its
        commit. */
    method CreateOrder(order: seq<OrderItem>, checkThrows: bool, persistThrows: bool, freshId: string)
      returns (response: Response)
      requires Valid()
      requires Unused(orderService.log, freshId)
      modifies this, orderService
      ensures Valid()
      ensures stockService.stock == old(stockService.stock)
      ensures var d := Decide(order,
                              if checkThrows then CheckThrew else Checked(Available(stockService.stock, order)),
                              if persistThrows then PersistThrew else Persisted(freshId));
              && response == d.response
              && orderService.log == (if PersistOrder in d.steps && !persistThrows
                                      then old(orderService.log) + Stamp(freshId, order)
                                      else old(orderService.log))
              && pending == (if ScheduleCommit in d.steps then old(pending) + [order] else old(pending))
      ensures response.status == Ok ==>
                freshId in Group(orderService.log) && Group(orderService.log)[freshId] == order
    {
      if |order| == 0 {
        return Response(BadRequest, Text(EMPTY_ORDER));
      }
      if checkThrows {
        return Response(InternalServerError, Text(CHECK_FAILED));
      }
      var enough := stockService.ExistsEnoughQuantityInStock(order);
      if !enough {
        return Response(BadRequest, Text(NOT_ENOUGH_STOCK));
      }
      if persistThrows {
        return Response(InternalServerError, Text(CREATE_FAILED));
      }
      var orderId := orderService.CreateOrder(order, freshId);
      CreatedOrderReadBack(old(orderService.log), orderId, order);
      pending := pending + [order];
      response := Response(Ok, Text(CREATED + orderId));
    }

    /** The deferred commit of the `k`-th scheduled order, run whenever the
        worker gets to it and in any order; `fault` says whether one of its
        repository calls raises. Its outcome is only logged: it is returned
        here as the logged value and reaches no response, and the accepted
        order stays in the log whatever it is. */
    method RunDeferredCommit(k: nat, fault: RepositoryFault) returns (logged: UpdateResult)
      requires Valid()
      requires k < |pending|
      modifies this, stockService
      ensures Valid()
      ensures pending == old(pending[..k] + pending[k + 1..])
      ensures CommitState(logged, stockService.stock)
              == CommitWithFault(old(stockService.stock), old(pending[k]), fault)
      ensures NonNegative(old(stockService.stock)) ==> NonNegative(stockService.stock)
      ensures orderService.log == old(orderService.log)
    {
      var order := pending[k];
      pending := pending[..k] + pending[k + 1..];
      logged := stockService.UpdateStock(order, fault);
    }

    /** getOrders: the service's grouped map with OK, or the service's
        exception message with INTERNAL_SERVER_ERROR. `scan` is the order in
        which the repository returns the stored rows. */
    method GetOrders(scan: seq<BookOrderItem>, scanFails: bool) returns (response: Response)
      requires multiset(scan) == multiset(orderService.log)
      ensures scanFails ==> response == Response(InternalServerError, Text(READ_ERROR))
      ensures !scanFails ==> response == Response(Ok, Orders(Group(scan)))
      ensures !scanFails ==> response.body.orders.Keys == OrderIdSet(orderService.log)
    {
      var r := orderService.GetOrders(scan, scanFails);
      match r
      case Success(orders) =>
        response := Response(Ok, Orders(orders));
      case Failure(message) =>
        response := Response(InternalServerError, Text(message));
    }
  }

  /** The two commits of the race, on the tables they meet: taking a book's
      whole stock empties it, and any further copy of it is refused. */
  lemma {:induction false} RaceCommits(s: StockTable, b: string, n: int)
    requires b in s && 0 < n <= s[b].quantity
    ensures Available(s, [OrderItem(b, s[b].quantity)]) && Available(s, [OrderItem(b, n)])
    ensures Commit(s, [OrderItem(b, s[b].quantity)]).status == Updated
    ensures Commit(s, [OrderItem(b, s[b].quantity)]).stock[b].quantity == 0
    ensures Commit(Commit(s, [OrderItem(b, s[b].quantity)]).stock, [OrderItem(b, n)]).status == InsufficientStock(b)
  {
  }

  /** One order that passes the check and saves is accepted: OK with its
      id, its rows appended to the log and its commit queued. */
  method AcceptOne(endpoint: BookOrderResource, order: seq<OrderItem>, id: string) returns (response: Response)
    requires endpoint.Valid() && |order| > 0
    requires Unused(endpoint.orderService.log, id)
    requires Available(endpoint.stockService.stock, order)
    modifies endpoint, endpoint.orderService
    ensures endpoint.Valid()
    ensures endpoint.pending == old(endpoint.pending) + [order]
    ensures endpoint.orderService.log == old(endpoint.orderService.log) + Stamp(id, order)
    ensures endpoint.stockService.stock == old(endpoint.stockService.stock)
    ensures response == Response(Ok, Text(CREATED + id))
  {
    var d := Decide(order, Checked(true), Persisted(id));
    assert d.steps == ALL_STEPS && d.response == Response(Ok, Text(CREATED + id));
    response := endpoint.CreateOrder(order, false, false, id);
  }

  /** The first half of the race: two orders for one book are both
      accepted by a fresh endpoint, before either commit runs. */
  method AcceptBoth(endpoint: BookOrderResource, take: seq<OrderItem>, more: seq<OrderItem>,
                    first: string, second: string)
    returns (firstResponse: Response, secondResponse: Response)
    requires endpoint.Valid() && endpoint.pending == [] && endpoint.orderService.log == []
    requires |take| == 1 && |more| == 1 && first != second
    requires Available(endpoint.stockService.stock, take) && Available(endpoint.stockService.stock, more)
    modifies endpoint, endpoint.orderService
    ensures endpoint.Valid() && endpoint.pending == [take, more]
    ensures endpoint.stockService.stock == old(endpoint.stockService.stock)
    ensures firstResponse == Response(Ok, Text(CREATED + first))
    ensures secondResponse == Response(Ok, Text(CREATED + second))
  {
    firstResponse := AcceptOne(endpoint, take, first);
    assert Unused(endpoint.orderService.log, second) by {
      assert endpoint.orderService.log == Stamp(first, take);
    }
    secondResponse := AcceptOne(endpoint, more, second);
  }

  /** The race the deferred commit leaves open, on the endpoint's own state:
      an order that takes a book's whole stock and a second order for the
      same book are both checked before either commit runs, so both callers
      are told OK; the first commit empties the book and the second then
      fails with `InsufficientStock`. */
  method StaleCheckRace(s: StockTable, b: string, n: int, first: string, second: string)
    returns (firstResponse: Response, secondResponse: Response,
             firstLogged: UpdateResult, secondLogged: UpdateResult, left: int)
    requires WellKeyed(s)
    requires b in s && 0 < n <= s[b].quantity
    requires first != second
    ensures firstResponse == Response(Ok, Text(CREATED + first))
    ensures secondResponse == Response(Ok, Text(CREATED + second))
    ensures firstLogged == Updated && left == 0
    ensures secondLogged == InsufficientStock(b)
  {
    var stock := new BookStockService(s);
    var orders := new BookOrderService([]);
    var endpoint := new BookOrderResource(stock, orders);
    var take, more := [OrderItem(b, s[b].quantity)], [OrderItem(b, n)];
    RaceCommits(s, b, n);
    firstResponse, secondResponse := AcceptBoth(endpoint, take, more, first, second);
    firstLogged := endpoint.RunDeferredCommit(0, NoFault);
    assert stock.stock == Commit(s, take).stock;
    left := stock.stock[b].quantity;
    secondLogged := endpoint.RunDeferredCommit(0, NoFault);
  }
}
