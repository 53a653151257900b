/** The customer endpoints: create, get, update and delete by id. */
module Customers {
  import opened Tables
  import opened Schema
  import opened Api

  predicate PhoneInUse(t: Table<CustomerRow>, phone: string) {
    exists k | k in t.rows :: t.rows[k].phone == phone
  }

  /** Some customer other than `id` holds `phone`. */
  predicate PhoneHeldByOther(t: Table<CustomerRow>, id: int, phone: string) {
    exists k | k in t.rows :: k != id && t.rows[k].phone == phone
  }

  /** POST /customers. The UNIQUE phone column rejects a phone already held;
      the handler turns that into a 400. */
  function CreateCustomer(db: Db, c: Customer): (o: Outcome)
    ensures PhoneInUse(db.customers, c.phone) <==> o.reply == Error(BadRequest)
    ensures PhoneInUse(db.customers, c.phone) ==> o.db == db
    ensures !PhoneInUse(db.customers, c.phone) ==>
      && o.reply.Created?
      && o.reply.id !in db.customers.rows
      && o.reply.id > db.customers.last
      && o.db.customers.rows == db.customers.rows[o.reply.id := CustomerRow(c.phone, c.name)]
      && o.db == db.(customers := o.db.customers)
    ensures UniquePhones(db.customers) ==> UniquePhones(o.db.customers)
  {
    if PhoneInUse(db.customers, c.phone) then Outcome(db, Error(BadRequest))
    else
      var (customers, id) := Insert(db.customers, CustomerRow(c.phone, c.name));
      Outcome(db.(customers := customers), Created(id))
  }

  /** GET /customers/{id} */
  function GetCustomer(db: Db, id: int): (o: Outcome)
    ensures o.db == db
    ensures id !in db.customers.rows <==> o.reply == Error(NotFound)
    ensures id in db.customers.rows ==>
      o.reply == CustomerBody(id, db.customers.rows[id].name, db.customers.rows[id].phone)
  {
    if id in db.customers.rows then
      var row := db.customers.rows[id];
      Outcome(db, CustomerBody(id, row.name, row.phone))
    else Outcome(db, Error(NotFound))
  }

  /** PUT /customers/{id}. A phone held by another customer makes the UPDATE
      fail with an IntegrityError that nothing catches. */
  function UpdateCustomer(db: Db, id: int, c: Customer): (o: Outcome)
    ensures id !in db.customers.rows <==> o.reply == Error(NotFound)
    ensures id in db.customers.rows && PhoneHeldByOther(db.customers, id, c.phone) <==>
      o.reply == Error(InternalError)
    ensures o.reply.Error? ==> o.db == db
    ensures o.reply.Error? || o.reply == Done
    ensures o.reply == Done ==>
      && o.db.customers.rows == db.customers.rows[id := CustomerRow(c.phone, c.name)]
      && o.db.customers.last == db.customers.last
      && o.db == db.(customers := o.db.customers)
    ensures UniquePhones(db.customers) ==> UniquePhones(o.db.customers)
  {
    if id !in db.customers.rows then Outcome(db, Error(NotFound))
    else if PhoneHeldByOther(db.customers, id, c.phone) then Outcome(db, Error(InternalError))
    else Outcome(db.(customers := Update(db.customers, id, CustomerRow(c.phone, c.name))), Done)
  }

  /** DELETE /customers/{id}. Only the customer row goes: the orders that
      reference it stay, pointing at nothing. */
  function DeleteCustomer(db: Db, id: int): (o: Outcome)
    ensures id !in db.customers.rows <==> o.reply == Error(NotFound)
    ensures id !in db.customers.rows ==> o.db == db
    ensures id in db.customers.rows ==>
      && o.reply == Done
      && o.db.customers.rows.Keys == db.customers.rows.Keys - {id}
      && (forall k :: k in o.db.customers.rows ==> o.db.customers.rows[k] == db.customers.rows[k])
      && o.db.customers.last == db.customers.last
      && o.db == db.(customers := o.db.customers)
  {
    if id !in db.customers.rows then Outcome(db, Error(NotFound))
    else Outcome(db.(customers := Delete(db.customers, id)), Done)
  }

  /** What POST returns, GET gives back: the submitted fields and the
      assigned id. */
  lemma CreateThenGetCustomer(db: Db, c: Customer)
    requires !PhoneInUse(db.customers, c.phone)
    ensures var o := CreateCustomer(db, c);
      GetCustomer(o.db, o.reply.id).reply == CustomerBody(o.reply.id, c.name, c.phone)
  {
  }

  /** A successful PUT is what GET reads back afterwards. */
  lemma UpdateThenGetCustomer(db: Db, id: int, c: Customer)
    requires id in db.customers.rows && !PhoneHeldByOther(db.customers, id, c.phone)
    ensures GetCustomer(UpdateCustomer(db, id, c).db, id).reply == CustomerBody(id, c.name, c.phone)
  {
  }

  /** After DELETE, GET and a second DELETE of the same id both answer 404. */
  lemma DeleteThenGetCustomer(db: Db, id: int)
    ensures var after := DeleteCustomer(db, id).db;
      && GetCustomer(after, id).reply == Error(NotFound)
      && DeleteCustomer(after, id).reply == Error(NotFound)
  {
  }
}
