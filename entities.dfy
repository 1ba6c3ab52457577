/** Record shapes of the bookstore: a stock row, an order line as stored,
    and an order line as requested or reported. */
module Entities {

  datatype Option<+T> = None | Some(value: T)

  datatype Result<+T, +E> = Success(value: T) | Failure(error: E)

  /** A row of the book_stock table: the book's id, its title and the
      quantity on hand. Quantities are unbounded integers. */
  datatype BookStock = BookStock(id: string, name: string, quantity: int)

  /** A request line, and the shape in which an order's lines are reported
      back: which book and how many copies. */
  datatype OrderItem = OrderItem(bookId: string, quantity: int)

  /** A row of the order_item table: one line of one order. */
  datatype BookOrderItem = BookOrderItem(orderId: string, bookId: string, quantity: int)

  /** The stock table, keyed by book id. */
  type StockTable = map<string, BookStock>

  /** The view returned for reading orders: order id to its lines. */
  type OrderMap = map<string, seq<OrderItem>>

  /** Every row is stored under its own id, as a primary-key table is. */
  ghost predicate WellKeyed(s: StockTable)
  {
    forall b :: b in s ==> s[b].id == b
  }

  /** No row holds a negative quantity. */
  ghost predicate NonNegative(s: StockTable)
  {
    forall b :: b in s ==> s[b].quantity >= 0
  }
}
