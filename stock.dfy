/** The stock ledger: the availability check, the sequential stock commit
    and the point lookup of the book stock service. */
module StockService {
  import opened Entities

  const STOCK_UPDATED: string := "Stock updated successfully."
  const NOT_FOUND_PREFIX: string := "Book with ID "
  const NOT_FOUND_SUFFIX: string := " not found. There was an error checking if existed enough stock."
  const NOT_ENOUGH_PREFIX: string := "Not enough stock for book with ID "
  const NOT_ENOUGH_SUFFIX: string := ". There was an error checking if existed enough stock."

  /** How a stock commit ends: every line applied; stopped at the first
      line whose book is missing or whose quantity would go negative; or
      stopped because a repository call raised an exception with the given
      message. */
  datatype UpdateResult =
    | Updated
    | UnknownBook(bookId: string)
    | InsufficientStock(bookId: string)
    | RepositoryError(message: string)
  {
    /** What the deferred commit writes to the log for this outcome: the
        success line, or the message of the exception the commit throws. */
    function Message(): (m: string)
      ensures Updated? ==> m == STOCK_UPDATED
      ensures UnknownBook? ==> |m| == |NOT_FOUND_PREFIX| + |bookId| + |NOT_FOUND_SUFFIX|
                               && m[..|NOT_FOUND_PREFIX|] == NOT_FOUND_PREFIX
                               && m[|m| - |NOT_FOUND_SUFFIX|..] == NOT_FOUND_SUFFIX
                               && m[|NOT_FOUND_PREFIX|..|m| - |NOT_FOUND_SUFFIX|] == bookId
      ensures InsufficientStock? ==> |m| == |NOT_ENOUGH_PREFIX| + |bookId| + |NOT_ENOUGH_SUFFIX|
                                     && m[..|NOT_ENOUGH_PREFIX|] == NOT_ENOUGH_PREFIX
                                     && m[|m| - |NOT_ENOUGH_SUFFIX|..] == NOT_ENOUGH_SUFFIX
                                     && m[|NOT_ENOUGH_PREFIX|..|m| - |NOT_ENOUGH_SUFFIX|] == bookId
      ensures RepositoryError? ==> m == message
    {
      match this
      case Updated => STOCK_UPDATED
      case UnknownBook(id) => NOT_FOUND_PREFIX + id + NOT_FOUND_SUFFIX
      case InsufficientStock(id) => NOT_ENOUGH_PREFIX + id + NOT_ENOUGH_SUFFIX
      case RepositoryError(message) => message
    }
  }

  /** The logged text tells the commit outcomes apart: two outcomes of the
      commit's own checks with the same message are the same outcome, book
      id included. */
  lemma {:induction false} MessageIdentifiesOutcome(a: UpdateResult, b: UpdateResult)
    requires !a.RepositoryError? && !b.RepositoryError?
    requires a.Message() == b.Message()
    ensures a == b
  {
    var m := a.Message();
    assert STOCK_UPDATED[0] == 'S' && NOT_FOUND_PREFIX[0] == 'B' && NOT_ENOUGH_PREFIX[0] == 'N';
    assert a.UnknownBook? ==> m[0] == m[..|NOT_FOUND_PREFIX|][0] == 'B';
    assert b.UnknownBook? ==> m[0] == m[..|NOT_FOUND_PREFIX|][0] == 'B';
    assert a.InsufficientStock? ==> m[0] == m[..|NOT_ENOUGH_PREFIX|][0] == 'N';
    assert b.InsufficientStock? ==> m[0] == m[..|NOT_ENOUGH_PREFIX|][0] == 'N';
  }

  /** Whether a repository call of the commit (the lookup or the save of a
      line) raises an exception: never, or at line `line` with `message`. */
  datatype RepositoryFault = NoFault | FaultAt(line: nat, message: string)

  /** The outcome of a commit together with the table it leaves behind. */
  datatype CommitState = CommitState(status: UpdateResult, stock: StockTable)

  /** The availability check: every line, looked up on its own in the one
      snapshot `s`, names a stored book with at least the requested
      quantity. Short-circuits on the first line that fails, as allMatch does. */
  function Available(s: StockTable, order: seq<OrderItem>): (r: bool)
    ensures r <==> forall i :: 0 <= i < |order| ==>
                      order[i].bookId in s && s[order[i].bookId].quantity >= order[i].quantity
  {
    if order == [] then true
    else
      var found := if order[0].bookId in s then Some(s[order[0].bookId]) else None;
      found.Some? && found.value.quantity >= order[0].quantity && Available(s, order[1..])
  }

  /** Total quantity the lines of `order` request for book `bookId`. */
  function Requested(order: seq<OrderItem>, bookId: string): int
  {
    if order == [] then 0
    else
      var last := order[|order| - 1];
      Requested(order[..|order| - 1], bookId) + (if last.bookId == bookId then last.quantity else 0)
  }

  /** One step of the commit loop: look the line's book up, refuse a missing
      book or a negative result, otherwise store the decremented quantity.
      Once a line has failed, later lines are not looked at. */
  function ApplyLine(c: CommitState, item: OrderItem): CommitState
  {
    if !c.status.Updated? then c
    else if item.bookId !in c.stock then CommitState(UnknownBook(item.bookId), c.stock)
    else
      var newQuantity := c.stock[item.bookId].quantity - item.quantity;
      if newQuantity < 0 then CommitState(InsufficientStock(item.bookId), c.stock)
      else CommitState(Updated, c.stock[item.bookId := c.stock[item.bookId].(quantity := newQuantity)])
  }

  /** The commit of `order` against table `s`, line by line in order. The
      table keeps its keys, ids and names, and any row that differs from
      the original holds a non-negative quantity. The commit's own checks
      never report a repository error. */
  function Commit(s: StockTable, order: seq<OrderItem>): (c: CommitState)
    ensures c.stock.Keys == s.Keys
    ensures forall b :: b in s ==> c.stock[b].id == s[b].id && c.stock[b].name == s[b].name
    ensures forall b :: b in s ==> c.stock[b] == s[b] || c.stock[b].quantity >= 0
    ensures !c.status.RepositoryError?
    decreases |order|
  {
    if order == [] then CommitState(Updated, s)
    else ApplyLine(Commit(s, order[..|order| - 1]), order[|order| - 1])
  }

  /** Committing one more line is one more step. */
  lemma {:induction false} CommitStep(s: StockTable, order: seq<OrderItem>, i: nat)
    requires i < |order|
    ensures Commit(s, order[..i + 1]) == ApplyLine(Commit(s, order[..i]), order[i])
  {
    assert order[..i + 1][..i] == order[..i];
  }

  /** A failed commit stays failed: lines after the failing one change nothing. */
  lemma {:induction false} FailureIsFinal(s: StockTable, done: seq<OrderItem>, rest: seq<OrderItem>)
    requires !Commit(s, done).status.Updated?
    ensures Commit(s, done + rest) == Commit(s, done)
    decreases |rest|
  {
    if rest == [] {
      assert done + rest == done;
    } else {
      var front := rest[..|rest| - 1];
      assert (done + rest)[..|done + rest| - 1] == done + front;
      assert (done + rest)[|done + rest| - 1] == rest[|rest| - 1];
      FailureIsFinal(s, done, front);
      assert Commit(s, done + rest) == ApplyLine(Commit(s, done + front), rest[|rest| - 1]);
    }
  }

  /** After a successful commit every line's book was stored, and every book
      holds its old quantity minus the quantity its lines requested, summed
      over repeated lines. */
  lemma {:induction false} SuccessfulCommit(s: StockTable, order: seq<OrderItem>)
    requires Commit(s, order).status == Updated
    ensures forall i :: 0 <= i < |order| ==> order[i].bookId in s
    ensures forall b :: b in s ==>
              Commit(s, order).stock[b] == s[b].(quantity := s[b].quantity - Requested(order, b))
    decreases |order|
  {
    if order != [] {
      var front, last := order[..|order| - 1], order[|order| - 1];
      SuccessfulCommit(s, front);
      forall i | 0 <= i < |order| ensures order[i].bookId in s {
        if i < |front| { assert order[i] == front[i]; }
      }
    }
  }

  /** A book that no line names keeps its row, whatever the outcome. */
  lemma {:induction false} UntouchedBook(s: StockTable, order: seq<OrderItem>, b: string)
    requires b in s
    requires forall i :: 0 <= i < |order| ==> order[i].bookId != b
    ensures Commit(s, order).stock[b] == s[b]
    decreases |order|
  {
    if order != [] {
      var front := order[..|order| - 1];
      forall i | 0 <= i < |front| ensures front[i].bookId != b {
        assert front[i] == order[i];
      }
      UntouchedBook(s, front, b);
    }
  }

  /** Line `k` of `order` is the one the commit stopped at: lines before it
      were all applied (each book holds its old quantity minus what those
      lines requested), line `k` names a missing book or asks for more than
      is left, and nothing after it was applied. */
  ghost predicate FailsAt(s: StockTable, order: seq<OrderItem>, k: nat)
    requires k < |order|
  {
    var before := Commit(s, order[..k]);
    var after := Commit(s, order);
    var id := order[k].bookId;
    && before.status == Updated
    && after.stock == before.stock
    && (forall b :: b in s ==> after.stock[b].quantity == s[b].quantity - Requested(order[..k], b))
    && (if id !in before.stock then after.status == UnknownBook(id)
        else before.stock[id].quantity < order[k].quantity && after.status == InsufficientStock(id))
  }

  /** The line that breaks an otherwise successful commit is where it fails. */
  lemma {:induction false} FailsAtLast(s: StockTable, order: seq<OrderItem>)
    requires order != []
    requires Commit(s, order[..|order| - 1]).status == Updated
    requires !Commit(s, order).status.Updated?
    ensures FailsAt(s, order, |order| - 1)
  {
    SuccessfulCommit(s, order[..|order| - 1]);
  }

  /** A failure within a prefix stays the failure of the whole order. */
  lemma {:induction false} FailsAtExtend(s: StockTable, order: seq<OrderItem>, k: nat)
    requires order != [] && k < |order| - 1
    requires !Commit(s, order[..|order| - 1]).status.Updated?
    requires FailsAt(s, order[..|order| - 1], k)
    ensures FailsAt(s, order, k)
  {
    var front := order[..|order| - 1];
    assert order[..k] == front[..k];
    assert order[k] == front[k];
  }

  /** Partial commit: a failed commit failed at some line, with the earlier
      lines applied and the later ones not. */
  lemma {:induction false} PartialCommit(s: StockTable, order: seq<OrderItem>)
    requires !Commit(s, order).status.Updated?
    ensures exists k :: 0 <= k < |order| && FailsAt(s, order, k)
    decreases |order|
  {
    var front := order[..|order| - 1];
    if !Commit(s, front).status.Updated? {
      PartialCommit(s, front);
      var k :| 0 <= k < |front| && FailsAt(s, front, k);
      FailsAtExtend(s, order, k);
    } else {
      FailsAtLast(s, order);
    }
  }

  /** Every ordered book is stored with at least the total quantity the
      order requests for it. */
  ghost predicate Covered(s: StockTable, order: seq<OrderItem>)
  {
    forall i :: 0 <= i < |order| ==>
      order[i].bookId in s && Requested(order, order[i].bookId) <= s[order[i].bookId].quantity
  }

  /** A commit that succeeds had every ordered book covered. */
  lemma {:induction false} SucceedsOnlyIfCovered(s: StockTable, order: seq<OrderItem>)
    requires Commit(s, order).status == Updated
    ensures Covered(s, order)
    decreases |order|
  {
    if order != [] {
      var front, last := order[..|order| - 1], order[|order| - 1];
      SucceedsOnlyIfCovered(s, front);
      SuccessfulCommit(s, front);
      var before := Commit(s, front);
      assert last.bookId in before.stock;
      assert before.stock[last.bookId].quantity - last.quantity >= 0;
      forall i | 0 <= i < |order|
        ensures order[i].bookId in s && Requested(order, order[i].bookId) <= s[order[i].bookId].quantity
      {
        if i < |front| {
          assert order[i] == front[i];
        }
      }
    }
  }

  /** With no negative request quantities, a covered order commits. */
  lemma {:induction false} CoveredSucceeds(s: StockTable, order: seq<OrderItem>)
    requires forall i :: 0 <= i < |order| ==> order[i].quantity >= 0
    requires Covered(s, order)
    ensures Commit(s, order).status == Updated
    decreases |order|
  {
    if order != [] {
      var front, last := order[..|order| - 1], order[|order| - 1];
      forall i | 0 <= i < |front|
        ensures front[i].quantity >= 0
        ensures front[i].bookId in s && Requested(front, front[i].bookId) <= s[front[i].bookId].quantity
      {
        assert front[i] == order[i];
      }
      CoveredSucceeds(s, front);
      SuccessfulCommit(s, front);
      assert last == order[|order| - 1];
    }
  }

  /** With no negative request quantities, the commit succeeds exactly when
      every ordered book is stored with at least the total quantity the
      order requests for it. */
  lemma {:induction false} CommitSucceedsIff(s: StockTable, order: seq<OrderItem>)
    requires forall i :: 0 <= i < |order| ==> order[i].quantity >= 0
    ensures Commit(s, order).status == Updated <==>
              forall i :: 0 <= i < |order| ==>
                order[i].bookId in s && Requested(order, order[i].bookId) <= s[order[i].bookId].quantity
  {
    if Commit(s, order).status == Updated {
      SucceedsOnlyIfCovered(s, order);
    } else if Covered(s, order) {
      CoveredSucceeds(s, order);
    }
  }

  /** Each line alone asks for no more than its book's total request. */
  lemma {:induction false} LineWithinRequested(order: seq<OrderItem>, i: nat)
    requires i < |order|
    requires forall j :: 0 <= j < |order| ==> order[j].quantity >= 0
    ensures order[i].quantity <= Requested(order, order[i].bookId)
    decreases |order|
  {
    var front := order[..|order| - 1];
    if i < |front| {
      assert front[i] == order[i];
      forall j | 0 <= j < |front| ensures front[j].quantity >= 0 {
        assert front[j] == order[j];
      }
      LineWithinRequested(front, i);
    } else {
      RequestedNonNegative(front, order[i].bookId);
    }
  }

  lemma {:induction false} RequestedNonNegative(order: seq<OrderItem>, bookId: string)
    requires forall j :: 0 <= j < |order| ==> order[j].quantity >= 0
    ensures Requested(order, bookId) >= 0
    decreases |order|
  {
    if order != [] {
      var front := order[..|order| - 1];
      forall j | 0 <= j < |front| ensures front[j].quantity >= 0 {
        assert front[j] == order[j];
      }
      RequestedNonNegative(front, bookId);
    }
  }

  /** With no negative request quantities, an order that commits would have
      passed the availability check against the same table. */
  lemma {:induction false} CommitImpliesAvailable(s: StockTable, order: seq<OrderItem>)
    requires forall i :: 0 <= i < |order| ==> order[i].quantity >= 0
    requires Commit(s, order).status == Updated
    ensures Available(s, order)
  {
    CommitSucceedsIff(s, order);
    forall i | 0 <= i < |order|
      ensures order[i].bookId in s && s[order[i].bookId].quantity >= order[i].quantity
    {
      LineWithinRequested(order, i);
    }
  }

  /** The converse fails: the check treats each line on its own, so an order
      that repeats a book can pass it and still fail to commit. */
  lemma {:induction false} CheckIsPerLine(s: StockTable, b: string, n: int)
    requires b in s && n <= s[b].quantity < 2 * n
    ensures Available(s, [OrderItem(b, n), OrderItem(b, n)])
    ensures Commit(s, [OrderItem(b, n), OrderItem(b, n)]).status == InsufficientStock(b)
  {
    var order := [OrderItem(b, n), OrderItem(b, n)];
    var one := Commit(s, [OrderItem(b, n)]);
    assert [OrderItem(b, n)][..0] == [];
    assert Commit(s, []) == CommitState(Updated, s);
    assert one == ApplyLine(CommitState(Updated, s), OrderItem(b, n));
    assert order[..1] == [OrderItem(b, n)];
    assert Commit(s, order) == ApplyLine(one, OrderItem(b, n));
  }

  /** The commit when a repository call may raise an exception. A fault at
      a line the commit reaches stops it there with `RepositoryError`: the
      lines before it stay written (each book holds its old quantity minus
      what they requested) and that line writes nothing. A fault at a line
      the commit never reaches, or no fault, leaves the plain commit. */
  function CommitWithFault(s: StockTable, order: seq<OrderItem>, fault: RepositoryFault): (c: CommitState)
    ensures c.stock.Keys == s.Keys
    ensures forall b :: b in s ==> c.stock[b] == s[b] || c.stock[b].quantity >= 0
    ensures fault.NoFault? ==> c == Commit(s, order)
    ensures !c.status.RepositoryError? ==> c == Commit(s, order)
    ensures c.status.RepositoryError? ==>
              && fault.FaultAt? && fault.line < |order| && c.status.message == fault.message
              && Commit(s, order[..fault.line]).status == Updated
              && forall b :: b in s ==>
                   c.stock[b] == s[b].(quantity := s[b].quantity - Requested(order[..fault.line], b))
  {
    if fault.FaultAt? && fault.line < |order| && Commit(s, order[..fault.line]).status == Updated then
      SuccessfulCommit(s, order[..fault.line]);
      CommitState(RepositoryError(fault.message), Commit(s, order[..fault.line]).stock)
    else
      Commit(s, order)
  }

  /** One pass of the commit loop when repository calls may raise: a line
      whose lookup or save raises stops the commit with `RepositoryError`
      and writes nothing; otherwise the line is applied as in `ApplyLine`. */
  function FaultyStep(c: CommitState, item: OrderItem, raises: bool, message: string): CommitState
  {
    if !c.status.Updated? then c
    else if raises then CommitState(RepositoryError(message), c.stock)
    else ApplyLine(c, item)
  }

  /** The state after the loop has handled the first `n` lines of `order`. */
  function Run(s: StockTable, order: seq<OrderItem>, fault: RepositoryFault, n: nat): CommitState
    requires n <= |order|
  {
    if n == 0 then CommitState(Updated, s)
    else
      var message := if fault.FaultAt? then fault.message else "";
      FaultyStep(Run(s, order, fault, n - 1), order[n - 1], fault.FaultAt? && fault.line == n - 1, message)
  }

  /** After `n` lines, the loop holds the commit-with-fault of those lines. */
  lemma {:induction false} RunIsCommitWithFault(s: StockTable, order: seq<OrderItem>, fault: RepositoryFault, n: nat)
    requires n <= |order|
    ensures Run(s, order, fault, n) == CommitWithFault(s, order[..n], fault)
  {
    if n == 0 {
      assert order[..0] == [];
    } else {
      var m := n - 1;
      RunIsCommitWithFault(s, order, fault, m);
      CommitStep(s, order, m);
      if fault.FaultAt? && fault.line < m {
        assert order[..n][..fault.line] == order[..fault.line] == order[..m][..fault.line];
        if !Commit(s, order[..fault.line]).status.Updated? {
          FailureIsFinal(s, order[..fault.line], order[fault.line..m]);
          assert order[..fault.line] + order[fault.line..m] == order[..m];
        }
      } else if fault.FaultAt? && fault.line == m {
        assert order[..n][..m] == order[..m];
      }
    }
  }

  /** Once the loop has stopped at a failing line, later lines change nothing. */
  lemma {:induction false} RunStays(s: StockTable, order: seq<OrderItem>, fault: RepositoryFault, i: nat, n: nat)
    requires i <= n <= |order|
    requires !Run(s, order, fault, i).status.Updated?
    ensures Run(s, order, fault, n) == Run(s, order, fault, i)
    decreases n
  {
    if n > i {
      RunStays(s, order, fault, i, n - 1);
    }
  }

  /** The book stock service over its repository, held as the stock table. */
  class BookStockService {
    var stock: StockTable

    ghost predicate Valid()
      reads this
    {
      WellKeyed(stock)
    }

    constructor (initial: StockTable)
      requires WellKeyed(initial)
      ensures Valid() && stock == initial
    {
      stock := initial;
    }

    /** getStockById: the stored row for `bookId`, if there is one. */
    function GetStockById(bookId: string): (r: Option<BookStock>)
      reads this
      requires Valid()
      ensures r.Some? <==> bookId in stock
      ensures r.Some? ==> r.value == stock[bookId] && r.value.id == bookId
    {
      if bookId in stock then Some(stock[bookId]) else None
    }

    /** existsEnoughQuantityInStock: the availability check against the
        current table; being a function, it changes nothing. */
    function ExistsEnoughQuantityInStock(order: seq<OrderItem>): (r: bool)
      reads this
      requires Valid()
      ensures r <==> forall i :: 0 <= i < |order| ==>
                        GetStockById(order[i].bookId).Some? && GetStockById(order[i].bookId).value.quantity >= order[i].quantity
    {
      Available(stock, order)
    }

    /** updateStock: decrement each line's book in turn, stopping at the
        first missing book or insufficient quantity, or at the line whose
        repository call raises (`fault`); rows written before the line it
        stops at stay written. */
    method UpdateStock(order: seq<OrderItem>, fault: RepositoryFault) returns (r: UpdateResult)
      requires Valid()
      modifies this
      ensures Valid()
      ensures CommitState(r, stock) == CommitWithFault(old(stock), order, fault)
      ensures NonNegative(old(stock)) ==> NonNegative(stock)
    {
      r := Updated;
      var i := 0;
      while i < |order| && r == Updated
        invariant 0 <= i <= |order|
        invariant CommitState(r, stock) == Run(old(stock), order, fault, i)
      {
        var item := order[i];
        if fault.FaultAt? && fault.line == i {
          r := RepositoryError(fault.message);
        } else if item.bookId in stock {
          var newQuantity := stock[item.bookId].quantity - item.quantity;
          if newQuantity < 0 {
            r := InsufficientStock(item.bookId);
          } else {
            stock := stock[item.bookId := stock[item.bookId].(quantity := newQuantity)];
          }
        } else {
          r := UnknownBook(item.bookId);
        }
        i := i + 1;
      }
      if i < |order| {
        RunStays(old(stock), order, fault, i, |order|);
      }
      RunIsCommitWithFault(old(stock), order, fault, |order|);
      assert order[..|order|] == order;
    }
  }
}
