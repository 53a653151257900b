/** Request bodies and responses of the HTTP endpoints, reduced to what the
    service computes: a status code or a body. */
module Api {
  import opened Wrappers
  import opened Schema

  /** Request body of the customer endpoints. */
  datatype Customer = Customer(name: string, phone: string)
  /** Request body of the item endpoints, and one submitted line of an order. */
  datatype Item = Item(name: string, price: Price)
  /** Request body of the order endpoints. */
  datatype Order = Order(customerId: int, items: seq<Item>, notes: Option<string>)

  /** A submitted price that differed from the catalogue price. */
  datatype Adjustment = Adjustment(name: string, submitted: Price, catalogue: Price)

  /** One `{name, price}` entry of a fetched order. */
  datatype LineView = LineView(name: string, price: Price)

  /** The HTTP error statuses the endpoints produce. `InternalError` stands
      for an `IntegrityError` no handler catches. */
  datatype Status = BadRequest | NotFound | InternalError {
    function Code(): int {
      match this
      case BadRequest => 400
      case NotFound => 404
      case InternalError => 500
    }
  }

  datatype Reply =
    | Created(id: int)
    | Done
    | CustomerBody(id: int, name: string, phone: string)
    | ItemBody(id: int, name: string, price: Price)
    | OrderBody(id: int, customerId: int, notes: string, items: seq<LineView>)
      /** `adjustments` is `None` when the response has no
          `price_adjustments` key. */
    | OrderAck(id: int, adjustments: Option<seq<Adjustment>>)
    | Error(status: Status)

  /** The committed database after a request, and the response. An error
      response still comes with whatever the request committed before it
      failed. */
  datatype Outcome = Outcome(db: Db, reply: Reply)

  /** `order.notes or ""`: an omitted note is stored as the empty string. */
  function StoredNotes(notes: Option<string>): (s: string)
    ensures notes.Some? ==> s == notes.value
    ensures notes.None? ==> s == ""
  {
    match notes
    case Some(n) => n
    case None => ""
  }
}
