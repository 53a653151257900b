# Order-management API: the write path as a state machine

The modelled system is a small FastAPI service over SQLite. It keeps
customers, catalogue items, orders and order lines (`order_items`). Its
only business logic is the order write path. `create_order` and
`update_order` walk the submitted lines in order. Each name is looked up
in the catalogue. A submitted price that differs from the catalogue price
is recorded as an adjustment. One `order_items` row is inserted per line,
so a repeated name gives repeated rows. The first unknown name aborts the
request with a 404. There is no transaction: every statement commits on
its own, so what was written before the failure stays.

The model treats the database as an immutable value. It has four tables,
each a map from integer id to row plus the table's AUTOINCREMENT high-water
mark. Every endpoint is a pure function from a database and a request to
the committed database and a response. An error response still carries
whatever the request committed before failing.

Modules, one per component:

- `Tables` (`tables.dfy`): one AUTOINCREMENT table. Ids lie in `1..last` by
  construction. Insert hands out `last + 1`. Delete keeps `last`, so ids are
  never reused.
- `Schema` (`schema.dfy`): the rows, the database, the UNIQUE constraints
  (`Valid`) and `init_db`.
- `Api` (`api.dfy`): request bodies, responses, status codes, and the
  `notes or ""` rule.
- `Customers`, `Items` (`customers.dfy`, `items.dfy`): the CRUD endpoints and
  the catalogue lookup by name.
- `Orders` (`orders.dfy`): the line-placement loop as a recursive function,
  the adjustments, the four order endpoints, the join behind `get_order`,
  and the round-trip and partial-failure lemmas.
- `Service` (`service.dfy`): all endpoints behind one `Step` function. Also
  runs of requests, preservation of the UNIQUE constraints, and freshness
  of AUTOINCREMENT ids.

Behaviour the model keeps as the code has it:

- Foreign keys are never switched on. Deleting a customer, an item or an
  order removes that one row. Orders and lines that point at it stay
  (`DeleteCustomer`, `DeleteItem`, `DeleteOrder`). `Valid` does not demand
  referential integrity.
- `update_order` checks neither the order nor the customer. On an absent
  order id it still deletes and inserts lines for that id. If the id has not
  been handed out yet, the next `create_order` receives it and inherits those
  lines: an order created with no lines reads back with the earlier lines
  (`Orders.UpdateOfMissingOrderLeaks`). For this reason the create-then-get
  round trip (`Orders.CreateThenGetOrder`) assumes the new id has no lines yet.
- `get_order` has no ORDER BY. The model scans lines in id order, but its
  contract promises only the multiset of `(name, price)` entries. Each entry
  is read from the current catalogue, and lines whose item was deleted drop
  out.
- Three `IntegrityError`s are not caught by any handler: a duplicate name in
  `create_item` or `update_item`, and a phone held by another customer in
  `update_customer`. Each is a 500 response with the state unchanged.
  `create_customer` does catch its error and answers 400.

## Model

| member | source | states |
|---|---|---|
| Tables.Insert | init_db.py:11 | an AUTOINCREMENT insert gives the row an id above every id the table ever handed out, absent from the table, and adds only that row |
| Tables.Update | main.py:69-70 | rewriting a row by id replaces exactly that row when it exists and changes nothing when it does not; the id counter stays |
| Tables.Delete | main.py:82-83 | deleting a row by id removes exactly that key, keeps every other row as it was, and keeps the id counter, so the id is never handed out again |
| Schema.InitDb | init_db.py:3-48 | each table that already exists is kept as it is; each missing one is created empty with its id counter at 0 |
| Schema.InitDbIdempotent | init_db.py:9-46 | `CREATE TABLE IF NOT EXISTS` makes init_db a no-op on an initialised database, and running it twice equals running it once |
| Schema.InitDbFreshValid | init_db.py:9-24 | a freshly created database satisfies the UNIQUE phone and name constraints |
| Customers.CreateCustomer | main.py:42-49 | a phone held by any customer gives 400 and no change; otherwise exactly one row with a fresh id is added and nothing else changes; phone uniqueness is preserved |
| Customers.GetCustomer | main.py:52-58 | 404 iff the id is absent; otherwise the stored name and phone with the id; no change |
| Customers.UpdateCustomer | main.py:61-72 | 404 with no change iff the id is absent; a phone held by another customer fails with no change; otherwise only that row is rewritten |
| Customers.DeleteCustomer | main.py:75-85 | 404 with no change iff the id is absent; otherwise only that row goes and orders referencing it stay |
| Customers.CreateThenGetCustomer | main.py:42-58 | reading a created customer returns exactly the submitted name and phone with the assigned id |
| Customers.UpdateThenGetCustomer | main.py:52-72 | after a successful update, reading the customer returns the new name and phone |
| Customers.DeleteThenGetCustomer | main.py:52-85 | after a delete, both a read and a second delete of the id answer 404 |
| Items.FindByName | main.py:147-148 | the lookup by name answers an item carrying that name, and answers nothing iff no item has it |
| Items.FindByNameExact | init_db.py:21 | with names unique, the lookup returns exactly the one item with that name |
| Items.CreateItem | main.py:89-93 | a fresh name adds exactly one row with a fresh id; a taken name fails with no change; name uniqueness is preserved |
| Items.GetItem | main.py:96-102 | 404 iff the id is absent; otherwise the stored name and price with the id; no change |
| Items.UpdateItem | main.py:105-116 | 404 with no change iff absent; a name held by another item fails with no change; otherwise only that row is rewritten |
| Items.DeleteItem | main.py:119-130 | 404 with no change iff absent; otherwise only that row goes and order lines referencing it stay |
| Items.CreateThenGetItem | main.py:89-102 | reading a created item returns exactly the submitted name and price with the assigned id |
| Items.UpdateThenGetItem | main.py:96-116 | after a successful update, reading the item returns the new name and price |
| Items.DeleteThenGetItem | main.py:96-130 | after a delete, a read answers 404 and the deleted name no longer resolves by name lookup |
| Orders.AdjustmentOf | main.py:147-152 | a line earns at most one adjustment, and earns one iff its name is in the catalogue at a price different from the submitted one; it records the name, the submitted price and the catalogue price of the item the name resolves to |
| Api.StoredNotes | main.py:142 | an omitted note is stored as the empty string, a given note as itself |
| Orders.Mismatches | main.py:144-153 | the adjustment list is no longer than the submission and every entry records two different prices |
| Orders.MismatchesCount | main.py:144-153 | the list holds exactly one adjustment per submitted line whose name resolves to a catalogue item at a different price |
| Orders.MismatchesAppend | main.py:146-152 | the adjustments of consecutive parts of a submission are concatenated, so the list follows submission order |
| Orders.MismatchesEmpty | main.py:146-152 | the adjustment list is empty iff no submitted line names a catalogue item at a different price |
| Orders.AdjustmentsKey | main.py:164-165 | the response carries the adjustments key iff the list is non-empty |
| Orders.PlaceLines | main.py:146-158 | the loop changes only order lines; it stops at the first unknown name or the end; it has inserted one row per line before that point, in order, each linking the order to the item the line names; on reaching the end it returns the adjustments |
| Orders.CreateOrder | main.py:134-168 | an unknown customer gives 404 and no change; otherwise one order row with a fresh id, the clock value and the notes (empty when omitted) is committed; the lines follow as in the loop; 404 iff some name is unknown; success returns the new id and the adjustments |
| Orders.CreateOrderSucceeds | main.py:134-168 | with the customer present and every name known, the order succeeds and has exactly one line per submitted item |
| Orders.CreateOrderPartialFailure | main.py:139-158 | when line k is the first unknown name, the response is 404 yet the order row and the lines for items 0..k-1 remain |
| Orders.Detach | main.py:196-197 | deleting by order id removes exactly the lines of that order and leaves every other line as it was |
| Orders.UpdateOrder | main.py:189-221 | the header is rewritten only if the order exists, with its timestamp kept; all earlier lines of the id are removed; new lines are added as in the loop; 404 iff some name is unknown; there is no existence check |
| Orders.UpdateOrderSucceeds | main.py:189-221 | with every name known, the update succeeds even for an absent order id, and the id has exactly the submitted lines |
| Orders.UpdateOrderPartialFailure | main.py:189-211 | when line k is the first unknown name, the response is 404 yet the header update (new customer id and notes, original timestamp), the removal of all old lines and the lines for items 0..k-1 remain |
| Orders.UpdateReplacesLines | main.py:196-211 | after a successful update, the lines carrying the id are exactly the rows that request inserted |
| Orders.UpdateOfMissingOrderLeaks | main.py:189-197 | an update of a not-yet-assigned order id succeeds and leaves lines; the next create gets that id, and its order reads back with those lines although none were submitted |
| Orders.DeleteOrder | main.py:223-235 | 404 with no change iff absent; otherwise only the order row goes and its lines stay |
| Orders.GetOrder | main.py:171-185 | 404 iff absent; otherwise the stored customer and notes, and each (name, price) entry as many times as the order has lines whose item currently reads that way |
| Orders.JoinCounts | main.py:178-179 | the join lists each entry exactly as often as there are lines of the order joined to a current item with that name and price |
| Orders.JoinFrom | main.py:178-179 | every entry of the join is the name and price of a current item that some line of the order refers to |
| Orders.CreateThenGetOrder | main.py:134-185 | a created order reads back with its customer, its notes and the multiset of current catalogue entries of the submitted lines |
| Orders.DeleteThenGetOrder | main.py:171-235 | for every id, after a delete a read of the order answers 404 while the line rows are all still present |
| Orders.ExampleLines | main.py:146-165 | with A at 10 and B at 20 in the catalogue, lines A at 10 and B at 15 both resolve, only B is adjusted (15 to 20), and both read back at catalogue prices |
| Orders.PriceAdjustmentExample | main.py:134-185 | that order is acknowledged with id 1 and one adjustment for B, and reading it back shows A at 10 and B at 20 |
| Orders.UpdateThenGetOrder | main.py:171-221 | an updated order reads back with exactly the newly submitted lines at current prices; earlier lines are gone |
| Service.StepPreservesValid | init_db.py:10-24 | every request, successful or not, keeps phones and item names unique |
| Service.RunPreservesValid | init_db.py:10-24 | any run of requests keeps phones and item names unique |
| Service.StepGrows | init_db.py:9-46 | no request lowers an id counter, and every row a request adds has an id above its table's counter |
| Service.RunGrows | init_db.py:9-46 | ids are never reused: a row present after a run but not before it has an id above every id its table had handed out before the run |

## Left out

- HTTP routing, JSON shapes and pydantic validation. A response is a status
  or a body datatype. Success messages are dropped.
- SQL text, connections and cursors. `execute_query` appears only in the
  rule that each statement commits on its own.
- Prices are integers compared exactly. This covers the REAL column and the
  `!=` on floats, but not rounding or NaN.
- The adjustment message text. An adjustment is the record `(name,
  submitted, catalogue)`.
- The `strftime('%s','now')` timestamp is a parameter of `CreateOrder`.
- The NULL `notes` a database written by other code could hold. This
  service always stores a string.
- SQLite's id limit of 2^63-1, where AUTOINCREMENT fails with SQLITE_FULL.
  Ids are unbounded integers.
- Ids outside SQLite's signed 64-bit INTEGER range. The path `id` and the
  order's `customer_id` are assumed to fit. In the source, a larger Python
  int makes the sqlite3 binding raise OverflowError at the first statement
  that binds it. Nothing catches that error, so the answer is a 500 and that
  statement writes nothing. The model treats such an id like any other:
  lookups answer 404, and `UpdateOrder` acknowledges and inserts lines.
- `Tables.Insert` hands out `last + 1`. SQLite takes the larger of the
  sequence and the largest current id. Both agree here, because every key
  lies in `1..last` by construction.
- Items.FindByName: scans ids in ascending order and returns the first
  match. SQLite uses the index of the UNIQUE column. The two agree whenever
  names are unique (`Items.FindByNameExact`), which `Valid` guarantees.
- Orders.GetOrder: the model scans lines in id order, but the contract
  promises only the multiset of entries, because the query has no ORDER BY.
- Concurrent and interleaved requests. Each request is one atomic step.
- The transactional variant of the order write path. Only the code as
  written is modelled.
- The `__main__` block and `print` of `init_db.py`.
