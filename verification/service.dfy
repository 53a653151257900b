/** The whole API as a state machine: one request, one committed database
    and one response. The lemmas here are about every request alike. */
module Service {
  import opened Tables
  import opened Schema
  import opened Api
  import Customers
  import Items
  import Orders

  datatype Request =
    | PostCustomer(customer: Customer)
    | GetCustomer(id: int)
    | PutCustomer(id: int, customer: Customer)
    | DeleteCustomer(id: int)
    | PostItem(item: Item)
    | GetItem(id: int)
    | PutItem(id: int, item: Item)
    | DeleteItem(id: int)
      /** `now` is the clock reading `strftime('%s', 'now')` returns. */
    | PostOrder(order: Order, now: int)
    | GetOrder(id: int)
    | PutOrder(id: int, order: Order)
    | DeleteOrder(id: int)

  function Step(db: Db, req: Request): Outcome {
    match req
    case PostCustomer(c) => Customers.CreateCustomer(db, c)
    case GetCustomer(id) => Customers.GetCustomer(db, id)
    case PutCustomer(id, c) => Customers.UpdateCustomer(db, id, c)
    case DeleteCustomer(id) => Customers.DeleteCustomer(db, id)
    case PostItem(it) => Items.CreateItem(db, it)
    case GetItem(id) => Items.GetItem(db, id)
    case PutItem(id, it) => Items.UpdateItem(db, id, it)
    case DeleteItem(id) => Items.DeleteItem(db, id)
    case PostOrder(o, now) => Orders.CreateOrder(db, o, now)
    case GetOrder(id) => Orders.GetOrder(db, id)
    case PutOrder(id, o) => Orders.UpdateOrder(db, id, o)
    case DeleteOrder(id) => Orders.DeleteOrder(db, id)
  }

  /** The database after serving `reqs` one after another. */
  function Run(db: Db, reqs: seq<Request>): Db
    decreases |reqs|
  {
    if reqs == [] then db else Run(Step(db, reqs[0]).db, reqs[1..])
  }

  /** The UNIQUE phone and name columns hold after every request, whatever
      its response. */
  lemma StepPreservesValid(db: Db, req: Request)
    requires Valid(db)
    ensures Valid(Step(db, req).db)
  {
  }

  lemma {:induction false} RunPreservesValid(db: Db, reqs: seq<Request>)
    requires Valid(db)
    ensures Valid(Run(db, reqs))
    decreases |reqs|
  {
    if reqs != [] {
      StepPreservesValid(db, reqs[0]);
      RunPreservesValid(Step(db, reqs[0]).db, reqs[1..]);
    }
  }

  /** Every request leaves each table's high-water mark where it was or
      higher, and every row it adds gets an id above that mark. */
  lemma StepGrows(db: Db, req: Request)
    ensures DbGrows(db, Step(db, req).db)
  {
  }

  /** AUTOINCREMENT never reuses an id: any row present after a run of
      requests but absent before it carries an id above every id the table
      had handed out before the run, including ids of rows deleted since. */
  lemma {:induction false} RunGrows(db: Db, reqs: seq<Request>)
    ensures DbGrows(db, Run(db, reqs))
    decreases |reqs|
  {
    if reqs != [] {
      var next := Step(db, reqs[0]).db;
      StepGrows(db, reqs[0]);
      RunGrows(next, reqs[1..]);
      GrowsTransitive(db.customers, next.customers, Run(db, reqs).customers);
      GrowsTransitive(db.items, next.items, Run(db, reqs).items);
      GrowsTransitive(db.orders, next.orders, Run(db, reqs).orders);
      GrowsTransitive(db.orderItems, next.orderItems, Run(db, reqs).orderItems);
    }
  }
}
