/** The four tables `init_db` creates and the constraints their declarations
    carry. Foreign keys are declared but never switched on, so the only
    constraints that hold at all times are the two UNIQUE columns and the
    AUTOINCREMENT ids (the latter built into `Tables.Table`). */
module Schema {
  import opened Wrappers
  import opened Tables

  /** Prices are compared with exact equality only; an integer stands in for
      the REAL column. */
  type Price = int

  datatype CustomerRow = CustomerRow(phone: string, name: string)
  datatype ItemRow = ItemRow(name: string, price: Price)
  /** `timestamp` is whatever the clock said at insertion; the service always
      writes `notes` as a string, never NULL. */
  datatype OrderRow = OrderRow(customerId: int, timestamp: int, notes: string)
  datatype OrderItemRow = OrderItemRow(orderId: int, itemId: int)

  datatype Db = Db(
    customers: Table<CustomerRow>,
    items: Table<ItemRow>,
    orders: Table<OrderRow>,
    orderItems: Table<OrderItemRow>)

  /** The phone column is unique: no two customers share a phone. */
  ghost predicate UniquePhones(t: Table<CustomerRow>) {
    forall i, j :: i in t.rows && j in t.rows && t.rows[i].phone == t.rows[j].phone ==> i == j
  }

  /** The item name column is unique: no two items share a name. */
  ghost predicate UniqueNames(t: Table<ItemRow>) {
    forall i, j :: i in t.rows && j in t.rows && t.rows[i].name == t.rows[j].name ==> i == j
  }

  /** The constraints SQLite enforces on every committed state. */
  ghost predicate Valid(db: Db) {
    UniquePhones(db.customers) && UniqueNames(db.items)
  }

  /** Every table of `b` is a later state of the same table of `a`. */
  ghost predicate DbGrows(a: Db, b: Db) {
    && Grows(a.customers, b.customers)
    && Grows(a.items, b.items)
    && Grows(a.orders, b.orders)
    && Grows(a.orderItems, b.orderItems)
  }

  /** The database file before `init_db` has run: each table may or may not
      exist yet. */
  datatype DbFile = DbFile(
    customers: Option<Table<CustomerRow>>,
    items: Option<Table<ItemRow>>,
    orders: Option<Table<OrderRow>>,
    orderItems: Option<Table<OrderItemRow>>)

  function CreateIfNotExists<R>(t: Option<Table<R>>): (r: Table<R>)
    ensures t.Some? ==> r == t.value
    ensures t.None? ==> r.rows == map[] && r.last == 0
  {
    match t
    case Some(existing) => existing
    case None => Empty()
  }

  /** Database initialisation: each of the four tables is created only if
      it is missing. */
  function InitDb(f: DbFile): (db: Db)
    ensures f.customers.Some? ==> db.customers == f.customers.value
    ensures f.items.Some? ==> db.items == f.items.value
    ensures f.orders.Some? ==> db.orders == f.orders.value
    ensures f.orderItems.Some? ==> db.orderItems == f.orderItems.value
    ensures f.customers.None? ==> db.customers.rows == map[] && db.customers.last == 0
    ensures f.items.None? ==> db.items.rows == map[] && db.items.last == 0
    ensures f.orders.None? ==> db.orders.rows == map[] && db.orders.last == 0
    ensures f.orderItems.None? ==> db.orderItems.rows == map[] && db.orderItems.last == 0
  {
    Db(CreateIfNotExists(f.customers), CreateIfNotExists(f.items),
       CreateIfNotExists(f.orders), CreateIfNotExists(f.orderItems))
  }

  /** The file of a database whose four tables all exist. */
  function FileOf(db: Db): DbFile {
    DbFile(Some(db.customers), Some(db.items), Some(db.orders), Some(db.orderItems))
  }

  /** Running `init_db` on an initialised database changes nothing, and
      running it twice is the same as running it once. */
  lemma InitDbIdempotent(f: DbFile, db: Db)
    ensures InitDb(FileOf(db)) == db
    ensures InitDb(FileOf(InitDb(f))) == InitDb(f)
  {
  }

  /** A freshly created database satisfies the constraints. */
  lemma InitDbFreshValid()
    ensures Valid(InitDb(DbFile(None, None, None, None)))
  {
  }
}
