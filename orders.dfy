/** The order log: creating an order appends its lines under one fresh id,
    and reading the orders groups the stored lines by order id. */
module OrderService {
  import opened Entities

  /** The message of the exception raised when the log cannot be scanned. */
  const READ_ERROR: string := "There was an error retrieving the orders."

  /** No stored line carries `orderId`. */
  predicate Unused(log: seq<BookOrderItem>, orderId: string)
  {
    forall i :: 0 <= i < |log| ==> log[i].orderId != orderId
  }

  /** The rows createOrder builds for `order`: one per request line, in
      request order, each under `orderId` with the book and quantity
      copied unchanged. */
  function Stamp(orderId: string, order: seq<OrderItem>): (rows: seq<BookOrderItem>)
    ensures |rows| == |order|
    ensures forall i :: 0 <= i < |order| ==>
              rows[i] == BookOrderItem(orderId, order[i].bookId, order[i].quantity)
    decreases |order|
  {
    if order == [] then []
    else
      var last := order[|order| - 1];
      Stamp(orderId, order[..|order| - 1]) + [BookOrderItem(orderId, last.bookId, last.quantity)]
  }

  /** A stored row as it is reported back: its book and quantity. */
  function Project(row: BookOrderItem): OrderItem
  {
    OrderItem(row.bookId, row.quantity)
  }

  /** Reference definition of an order's group: the rows of the scan that
      carry `orderId`, projected, in scan order, duplicates kept. */
  function ItemsOf(rows: seq<BookOrderItem>, orderId: string): seq<OrderItem>
    decreases |rows|
  {
    if rows == [] then []
    else
      var last := rows[|rows| - 1];
      ItemsOf(rows[..|rows| - 1], orderId) + (if last.orderId == orderId then [Project(last)] else [])
  }

  /** The order ids that occur in the scan. */
  function OrderIdSet(rows: seq<BookOrderItem>): set<string>
  {
    set i | 0 <= i < |rows| :: rows[i].orderId
  }

  /** One pass of the grouping loop: open an empty group for a new order id,
      then append the row's projection to its group. */
  function AddRow(m: OrderMap, row: BookOrderItem): OrderMap
  {
    var withGroup := if row.orderId in m then m else m[row.orderId := []];
    withGroup[row.orderId := withGroup[row.orderId] + [Project(row)]]
  }

  /** The map createMapFromBookOrderItemsList builds from a scan. */
  function Group(rows: seq<BookOrderItem>): OrderMap
    decreases |rows|
  {
    if rows == [] then map[] else AddRow(Group(rows[..|rows| - 1]), rows[|rows| - 1])
  }

  /** An order id absent from the scan has no lines. */
  lemma {:induction false} ItemsOfAbsent(rows: seq<BookOrderItem>, orderId: string)
    requires orderId !in OrderIdSet(rows)
    ensures ItemsOf(rows, orderId) == []
    decreases |rows|
  {
    if rows != [] {
      var front := rows[..|rows| - 1];
      assert rows[|rows| - 1].orderId in OrderIdSet(rows);
      assert OrderIdSet(front) <= OrderIdSet(rows) by {
        forall o | o in OrderIdSet(front) ensures o in OrderIdSet(rows) {
          var i :| 0 <= i < |front| && front[i].orderId == o;
          assert rows[i] == front[i];
        }
      }
      ItemsOfAbsent(front, orderId);
    }
  }

  /** Grouping is correct: the keys are exactly the order ids of the scan
      (so an empty scan gives the empty map), and each group is that order's
      rows, projected, in scan order, duplicates kept. */
  lemma {:induction false} GroupByOrder(rows: seq<BookOrderItem>)
    ensures Group(rows).Keys == OrderIdSet(rows)
    ensures forall o :: o in Group(rows) ==> Group(rows)[o] == ItemsOf(rows, o)
    decreases |rows|
  {
    if rows != [] {
      var front, last := rows[..|rows| - 1], rows[|rows| - 1];
      GroupByOrder(front);
      assert OrderIdSet(rows) == OrderIdSet(front) + {last.orderId} by {
        forall o | o in OrderIdSet(rows) ensures o in OrderIdSet(front) + {last.orderId} {
          var i :| 0 <= i < |rows| && rows[i].orderId == o;
          if i < |front| { assert front[i] == rows[i]; }
        }
        forall o | o in OrderIdSet(front) ensures o in OrderIdSet(rows) {
          var i :| 0 <= i < |front| && front[i].orderId == o;
          assert rows[i] == front[i];
        }
        assert rows[|rows| - 1].orderId in OrderIdSet(rows);
      }
      if last.orderId !in Group(front) {
        ItemsOfAbsent(front, last.orderId);
      }
    }
  }

  /** The lines of a scan split over order ids. */
  lemma {:induction false} ItemsOfAppend(a: seq<BookOrderItem>, b: seq<BookOrderItem>, orderId: string)
    ensures ItemsOf(a + b, orderId) == ItemsOf(a, orderId) + ItemsOf(b, orderId)
    decreases |b|
  {
    if b == [] {
      assert a + b == a;
    } else {
      var front := b[..|b| - 1];
      assert (a + b)[..|a + b| - 1] == a + front;
      assert (a + b)[|a + b| - 1] == b[|b| - 1];
      ItemsOfAppend(a, front, orderId);
    }
  }

  /** The rows stamped for one order, grouped under that order's id, give the
      request lines back; under any other id they give nothing. */
  lemma {:induction false} ItemsOfStamp(orderId: string, order: seq<OrderItem>, other: string)
    ensures ItemsOf(Stamp(orderId, order), orderId) == order
    ensures other != orderId ==> ItemsOf(Stamp(orderId, order), other) == []
    decreases |order|
  {
    if order != [] {
      var front := order[..|order| - 1];
      var rows := Stamp(orderId, order);
      assert rows[..|rows| - 1] == Stamp(orderId, front);
      ItemsOfStamp(orderId, front, other);
      assert front + [order[|order| - 1]] == order;
    }
  }

  /** The new order's own group after the append. */
  lemma {:induction false} OwnGroupAfterAppend(log: seq<BookOrderItem>, orderId: string, order: seq<OrderItem>)
    requires Unused(log, orderId)
    requires |order| > 0
    ensures orderId in Group(log + Stamp(orderId, order))
    ensures Group(log + Stamp(orderId, order))[orderId] == order
  {
    var after := log + Stamp(orderId, order);
    GroupByOrder(after);
    assert orderId !in OrderIdSet(log);
    ItemsOfAbsent(log, orderId);
    ItemsOfAppend(log, Stamp(orderId, order), orderId);
    ItemsOfStamp(orderId, order, orderId);
    assert after[|log|].orderId == orderId;
    assert orderId in OrderIdSet(after);
  }

  /** Another order's group after the append. */
  lemma {:induction false} OtherGroupAfterAppend(log: seq<BookOrderItem>, orderId: string, order: seq<OrderItem>, other: string)
    requires other != orderId
    ensures other in Group(log + Stamp(orderId, order)) <==> other in Group(log)
    ensures other in Group(log) ==> Group(log + Stamp(orderId, order))[other] == Group(log)[other]
  {
    var after := log + Stamp(orderId, order);
    GroupByOrder(log);
    GroupByOrder(after);
    ItemsOfAppend(log, Stamp(orderId, order), other);
    ItemsOfStamp(orderId, order, other);
    if other in OrderIdSet(after) {
      var i :| 0 <= i < |after| && after[i].orderId == other;
      assert i < |log|;
      assert log[i] == after[i];
    }
    if other in OrderIdSet(log) {
      var i :| 0 <= i < |log| && log[i].orderId == other;
      assert after[i] == log[i];
    }
  }

  /** Read-back of a created order: after appending the stamped rows of
      `order` under an unused id, grouping the log gives that id exactly the
      request lines (when there are any) and leaves every other order's
      group as it was. */
  lemma {:induction false} CreatedOrderReadBack(log: seq<BookOrderItem>, orderId: string, order: seq<OrderItem>)
    requires Unused(log, orderId)
    ensures |order| > 0 ==> orderId in Group(log + Stamp(orderId, order))
                            && Group(log + Stamp(orderId, order))[orderId] == order
    ensures |order| == 0 ==> Group(log + Stamp(orderId, order)) == Group(log)
    ensures forall o :: o != orderId ==>
              (o in Group(log + Stamp(orderId, order)) <==> o in Group(log))
              && (o in Group(log) ==> Group(log + Stamp(orderId, order))[o] == Group(log)[o])
  {
    if |order| > 0 {
      OwnGroupAfterAppend(log, orderId, order);
    } else {
      assert log + Stamp(orderId, order) == log;
    }
    forall o | o != orderId
      ensures o in Group(log + Stamp(orderId, order)) <==> o in Group(log)
      ensures o in Group(log) ==> Group(log + Stamp(orderId, order))[o] == Group(log)[o]
    {
      OtherGroupAfterAppend(log, orderId, order, o);
    }
  }

  /** Sum of the group sizes of `m` over the ids listed in `ids`. */
  function SizeSum(m: OrderMap, ids: seq<string>): int
    decreases |ids|
  {
    if ids == [] then 0 else (if ids[0] in m then |m[ids[0]]| else 0) + SizeSum(m, ids[1..])
  }

  /** Sum of the reference group sizes over the ids listed in `ids`. */
  function Total(rows: seq<BookOrderItem>, ids: seq<string>): int
    decreases |ids|
  {
    if ids == [] then 0 else |ItemsOf(rows, ids[0])| + Total(rows, ids[1..])
  }

  /** How often `orderId` occurs in `ids`. */
  function Occurrences(ids: seq<string>, orderId: string): nat
    decreases |ids|
  {
    if ids == [] then 0 else (if ids[0] == orderId then 1 else 0) + Occurrences(ids[1..], orderId)
  }

  ghost predicate Distinct(ids: seq<string>)
  {
    forall i, j :: 0 <= i < j < |ids| ==> ids[i] != ids[j]
  }

  lemma {:induction false} OccurrencesOfDistinct(ids: seq<string>, orderId: string)
    requires Distinct(ids)
    ensures Occurrences(ids, orderId) == if orderId in ids then 1 else 0
    decreases |ids|
  {
    if ids != [] {
      assert Distinct(ids[1..]) by {
        forall i, j | 0 <= i < j < |ids[1..]| ensures ids[1..][i] != ids[1..][j] {
          assert ids[1..][i] == ids[i + 1] && ids[1..][j] == ids[j + 1];
        }
      }
      OccurrencesOfDistinct(ids[1..], orderId);
      if ids[0] == orderId {
        assert orderId !in ids[1..] by {
          forall k | 0 <= k < |ids[1..]| ensures ids[1..][k] != orderId {
            assert ids[1..][k] == ids[k + 1];
          }
        }
      } else {
        assert (orderId in ids) == (orderId in ids[1..]) by {
          if orderId in ids {
            var k :| 0 <= k < |ids| && ids[k] == orderId;
            assert ids[1..][k - 1] == orderId;
          }
        }
      }
    }
  }

  lemma {:induction false} TotalSnoc(front: seq<BookOrderItem>, last: BookOrderItem, ids: seq<string>)
    ensures Total(front + [last], ids) == Total(front, ids) + Occurrences(ids, last.orderId)
    decreases |ids|
  {
    if ids != [] {
      assert (front + [last])[..|front + [last]| - 1] == front;
      TotalSnoc(front, last, ids[1..]);
    }
  }

  lemma {:induction false} TotalIsLength(rows: seq<BookOrderItem>, ids: seq<string>)
    requires Distinct(ids)
    requires forall i :: 0 <= i < |rows| ==> rows[i].orderId in ids
    ensures Total(rows, ids) == |rows|
    decreases |rows|
  {
    if rows == [] {
      TotalOfEmpty(ids);
    } else {
      var front, last := rows[..|rows| - 1], rows[|rows| - 1];
      assert front + [last] == rows;
      forall i | 0 <= i < |front| ensures front[i].orderId in ids {
        assert front[i] == rows[i];
      }
      TotalIsLength(front, ids);
      TotalSnoc(front, last, ids);
      OccurrencesOfDistinct(ids, last.orderId);
    }
  }

  lemma {:induction false} TotalOfEmpty(ids: seq<string>)
    ensures Total([], ids) == 0
    decreases |ids|
  {
    if ids != [] {
      TotalOfEmpty(ids[1..]);
    }
  }

  lemma {:induction false} SizeSumIsTotal(rows: seq<BookOrderItem>, ids: seq<string>)
    ensures SizeSum(Group(rows), ids) == Total(rows, ids)
    decreases |ids|
  {
    if ids != [] {
      GroupByOrder(rows);
      if ids[0] !in Group(rows) {
        ItemsOfAbsent(rows, ids[0]);
      }
      SizeSumIsTotal(rows, ids[1..]);
    }
  }

  /** Every line of the scan lands in exactly one group: summed over a
      duplicate-free listing of the order ids, the group sizes add up to the
      length of the scan. */
  lemma {:induction false} GroupSizesSum(rows: seq<BookOrderItem>, ids: seq<string>)
    requires Distinct(ids)
    requires forall o :: o in Group(rows) ==> o in ids
    ensures SizeSum(Group(rows), ids) == |rows|
  {
    GroupByOrder(rows);
    forall i | 0 <= i < |rows| ensures rows[i].orderId in ids {
      assert rows[i].orderId in OrderIdSet(rows);
    }
    TotalIsLength(rows, ids);
    SizeSumIsTotal(rows, ids);
  }

  /** The order ids of a scan depend only on which rows it holds, not on
      their order. */
  lemma {:induction false} OrderIdSetOfPermutation(a: seq<BookOrderItem>, b: seq<BookOrderItem>)
    requires multiset(a) == multiset(b)
    ensures OrderIdSet(a) == OrderIdSet(b)
  {
    forall o | o in OrderIdSet(a) ensures o in OrderIdSet(b) {
      var i :| 0 <= i < |a| && a[i].orderId == o;
      assert a[i] in multiset(b);
      var j :| 0 <= j < |b| && b[j] == a[i];
    }
    forall o | o in OrderIdSet(b) ensures o in OrderIdSet(a) {
      var j :| 0 <= j < |b| && b[j].orderId == o;
      assert b[j] in multiset(a);
      var i :| 0 <= i < |a| && a[i] == b[j];
    }
  }

  /** Taking row `j` out of a scan: the rest holds the other rows. */
  lemma {:induction false} RemoveRow(b: seq<BookOrderItem>, j: nat)
    requires j < |b|
    ensures multiset(b[..j] + b[j + 1..]) + multiset{b[j]} == multiset(b)
  {
    assert b == b[..j] + [b[j]] + b[j + 1..];
  }

  /** Row `j`'s line, if any, splits off the group of a scan. */
  lemma {:induction false} ItemsOfRemoveRow(b: seq<BookOrderItem>, j: nat, orderId: string)
    requires j < |b|
    ensures multiset(ItemsOf(b, orderId))
            == multiset(ItemsOf(b[..j] + b[j + 1..], orderId)) + multiset(ItemsOf([b[j]], orderId))
  {
    var left, right := b[..j], b[j + 1..];
    assert b == left + [b[j]] + right;
    ItemsOfAppend(left + [b[j]], right, orderId);
    ItemsOfAppend(left, [b[j]], orderId);
    ItemsOfAppend(left, right, orderId);
  }

  /** Whatever order a scan returns the rows in, each order's group holds
      the same lines, counted with repetition. */
  lemma {:induction false} ItemsOfPermutation(a: seq<BookOrderItem>, b: seq<BookOrderItem>, orderId: string)
    requires multiset(a) == multiset(b)
    ensures multiset(ItemsOf(a, orderId)) == multiset(ItemsOf(b, orderId))
    decreases |a|
  {
    if a == [] {
      assert |b| == |multiset(b)| == 0;
    } else {
      var front, last := a[..|a| - 1], a[|a| - 1];
      assert a == front + [last];
      assert last in multiset(b);
      var j :| 0 <= j < |b| && b[j] == last;
      var rest := b[..j] + b[j + 1..];
      RemoveRow(b, j);
      assert multiset(rest) + multiset{last} == multiset(front) + multiset{last};
      assert multiset(rest) == multiset(front) by {
        forall x ensures multiset(rest)[x] == multiset(front)[x] {
          assert (multiset(rest) + multiset{last})[x] == (multiset(front) + multiset{last})[x];
        }
      }
      ItemsOfPermutation(front, rest, orderId);
      ItemsOfRemoveRow(b, j, orderId);
      ItemsOfAppend(front, [last], orderId);
    }
  }

  /** Read-back through a scan in any order: after an order is created under
      an unused id, a scan holding the log's rows in some order groups that
      id with exactly the request lines, up to their order. */
  lemma {:induction false} ScannedReadBack(log: seq<BookOrderItem>, orderId: string, order: seq<OrderItem>,
                                           scan: seq<BookOrderItem>)
    requires Unused(log, orderId)
    requires |order| > 0
    requires multiset(scan) == multiset(log + Stamp(orderId, order))
    ensures orderId in Group(scan)
    ensures multiset(Group(scan)[orderId]) == multiset(order)
  {
    var after := log + Stamp(orderId, order);
    OwnGroupAfterAppend(log, orderId, order);
    GroupByOrder(after);
    GroupByOrder(scan);
    OrderIdSetOfPermutation(scan, after);
    ItemsOfPermutation(scan, after, orderId);
  }

  /** The book order service over its repository, held as the sequence of
      stored rows in insertion order. */
  class BookOrderService {
    var log: seq<BookOrderItem>

    constructor (rows: seq<BookOrderItem>)
      ensures log == rows
    {
      log := rows;
    }

    /** createOrder: save one row per request line under `freshId`, the
        identifier the random generator supplies, and return it. */
    method CreateOrder(order: seq<OrderItem>, freshId: string) returns (orderId: string)
      requires Unused(log, freshId)
      modifies this
      ensures orderId == freshId
      ensures log == old(log) + Stamp(orderId, order)
    {
      orderId := freshId;
      var i := 0;
      while i < |order|
        invariant 0 <= i <= |order|
        invariant log == old(log) + Stamp(orderId, order[..i])
      {
        assert order[..i + 1][..i] == order[..i];
        log := log + [BookOrderItem(orderId, order[i].bookId, order[i].quantity)];
        i := i + 1;
      }
      assert order[..i] == order;
    }

    /** getOrders: scan the log and group it, or fail with the fixed message
        when the scan fails. `scan` is what findAll returns: every stored
        row, in an order the repository does not fix. */
    method GetOrders(scan: seq<BookOrderItem>, scanFails: bool) returns (r: Result<OrderMap, string>)
      requires multiset(scan) == multiset(log)
      ensures scanFails ==> r == Failure(READ_ERROR)
      ensures !scanFails ==> r == Success(Group(scan)) && r.value.Keys == OrderIdSet(log)
      ensures !scanFails ==> forall o :: o in r.value ==>
                r.value[o] == ItemsOf(scan, o) && multiset(r.value[o]) == multiset(ItemsOf(log, o))
    {
      if scanFails {
        return Failure(READ_ERROR);
      }
      var m := GroupRows(scan);
      OrderIdSetOfPermutation(scan, log);
      forall o | o in m ensures multiset(m[o]) == multiset(ItemsOf(log, o)) {
        ItemsOfPermutation(scan, log, o);
      }
      return Success(m);
    }

    /** createMapFromBookOrderItemsList: one pass over the scan, opening a
        group the first time an order id is seen and appending each row's
        projection to its group. */
    static method GroupRows(rows: seq<BookOrderItem>) returns (m: OrderMap)
      ensures m == Group(rows)
      ensures m.Keys == OrderIdSet(rows)
      ensures forall o :: o in m ==> m[o] == ItemsOf(rows, o)
    {
      m := map[];
      for i := 0 to |rows|
        invariant m == Group(rows[..i])
      {
        var row := rows[i];
        assert rows[..i + 1][..i] == rows[..i];
        if row.orderId !in m {
          m := m[row.orderId := []];
        }
        m := m[row.orderId := m[row.orderId] + [Project(row)]];
      }
      assert rows[..|rows|] == rows;
      GroupByOrder(rows);
    }
  }
}
