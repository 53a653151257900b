/** The catalogue endpoints, and the lookup by name that orders use. */
module Items {
  import opened Wrappers
  import opened Tables
  import opened Schema
  import opened Api

  predicate NameInUse(t: Table<ItemRow>, name: string) {
    exists k | k in t.rows :: t.rows[k].name == name
  }

  /** Some item other than `id` is called `name`. */
  predicate NameHeldByOther(t: Table<ItemRow>, id: int, name: string) {
    exists k | k in t.rows :: k != id && t.rows[k].name == name
  }

  /** The first item, scanning ids from `from` upwards, called `name`. */
  function FindNameFrom(t: Table<ItemRow>, name: string, from: int): (r: Option<int>)
    ensures r.Some? ==> r.value in t.rows && t.rows[r.value].name == name
    ensures r.None? ==> forall k :: k in t.rows && from <= k ==> t.rows[k].name != name
    decreases t.last + 1 - from
  {
    if from > t.last then None
    else if from in t.rows && t.rows[from].name == name then Some(from)
    else FindNameFrom(t, name, from + 1)
  }

  /** The lookup of an item by its name, keeping the first row found. */
  function FindByName(t: Table<ItemRow>, name: string): (r: Option<int>)
    ensures r.Some? ==> r.value in t.rows && t.rows[r.value].name == name
    ensures r.None? <==> !NameInUse(t, name)
  {
    var r := FindNameFrom(t, name, 1);
    assert r.Some? ==> var k := r.value; k in t.rows && t.rows[k].name == name;
    assert r.None? ==> forall k :: k in t.rows ==> 1 <= k && t.rows[k].name != name;
    r
  }

  /** With names unique, the lookup finds exactly the item carrying the
      name, whichever it is. */
  lemma FindByNameExact(t: Table<ItemRow>, name: string, k: int)
    requires UniqueNames(t)
    ensures FindByName(t, name) == Some(k) <==> k in t.rows && t.rows[k].name == name
  {
    if k in t.rows && t.rows[k].name == name {
      assert NameInUse(t, name);
      var r := FindByName(t, name);
      assert r.Some? && t.rows[r.value].name == t.rows[k].name;
      assert r.value == k;
      assert r == Some(k);
    } else {
      var r := FindByName(t, name);
      assert r.Some? ==> r.value in t.rows && t.rows[r.value].name == name;
    }
  }

  /** POST /items. The handler catches nothing, so a duplicate name surfaces
      as an uncaught IntegrityError. */
  function CreateItem(db: Db, it: Item): (o: Outcome)
    ensures NameInUse(db.items, it.name) <==> o.reply == Error(InternalError)
    ensures NameInUse(db.items, it.name) ==> o.db == db
    ensures !NameInUse(db.items, it.name) ==>
      && o.reply.Created?
      && o.reply.id !in db.items.rows
      && o.reply.id > db.items.last
      && o.db.items.rows == db.items.rows[o.reply.id := ItemRow(it.name, it.price)]
      && o.db == db.(items := o.db.items)
    ensures UniqueNames(db.items) ==> UniqueNames(o.db.items)
  {
    if NameInUse(db.items, it.name) then Outcome(db, Error(InternalError))
    else
      var (items, id) := Insert(db.items, ItemRow(it.name, it.price));
      Outcome(db.(items := items), Created(id))
  }

  /** GET /items/{id} */
  function GetItem(db: Db, id: int): (o: Outcome)
    ensures o.db == db
    ensures id !in db.items.rows <==> o.reply == Error(NotFound)
    ensures id in db.items.rows ==>
      o.reply == ItemBody(id, db.items.rows[id].name, db.items.rows[id].price)
  {
    if id in db.items.rows then
      var row := db.items.rows[id];
      Outcome(db, ItemBody(id, row.name, row.price))
    else Outcome(db, Error(NotFound))
  }

  /** PUT /items/{id}. Renaming onto another item's name fails in the UPDATE
      with an uncaught IntegrityError. */
  function UpdateItem(db: Db, id: int, it: Item): (o: Outcome)
    ensures id !in db.items.rows <==> o.reply == Error(NotFound)
    ensures id in db.items.rows && NameHeldByOther(db.items, id, it.name) <==>
      o.reply == Error(InternalError)
    ensures o.reply.Error? ==> o.db == db
    ensures o.reply.Error? || o.reply == Done
    ensures o.reply == Done ==>
      && o.db.items.rows == db.items.rows[id := ItemRow(it.name, it.price)]
      && o.db.items.last == db.items.last
      && o.db == db.(items := o.db.items)
    ensures UniqueNames(db.items) ==> UniqueNames(o.db.items)
  {
    if id !in db.items.rows then Outcome(db, Error(NotFound))
    else if NameHeldByOther(db.items, id, it.name) then Outcome(db, Error(InternalError))
    else Outcome(db.(items := Update(db.items, id, ItemRow(it.name, it.price))), Done)
  }

  /** DELETE /items/{id}. Order lines that reference the item stay. */
  function DeleteItem(db: Db, id: int): (o: Outcome)
    ensures id !in db.items.rows <==> o.reply == Error(NotFound)
    ensures id !in db.items.rows ==> o.db == db
    ensures id in db.items.rows ==>
      && o.reply == Done
      && o.db.items.rows.Keys == db.items.rows.Keys - {id}
      && (forall k :: k in o.db.items.rows ==> o.db.items.rows[k] == db.items.rows[k])
      && o.db.items.last == db.items.last
      && o.db == db.(items := o.db.items)
  {
    if id !in db.items.rows then Outcome(db, Error(NotFound))
    else Outcome(db.(items := Delete(db.items, id)), Done)
  }

  lemma CreateThenGetItem(db: Db, it: Item)
    requires !NameInUse(db.items, it.name)
    ensures var o := CreateItem(db, it);
      GetItem(o.db, o.reply.id).reply == ItemBody(o.reply.id, it.name, it.price)
  {
  }

  lemma UpdateThenGetItem(db: Db, id: int, it: Item)
    requires id in db.items.rows && !NameHeldByOther(db.items, id, it.name)
    ensures GetItem(UpdateItem(db, id, it).db, id).reply == ItemBody(id, it.name, it.price)
  {
  }

  /** After DELETE the id is gone for good: GET answers 404 and the name
      lookup no longer finds the item. */
  lemma DeleteThenGetItem(db: Db, id: int)
    requires UniqueNames(db.items) && id in db.items.rows
    ensures var after := DeleteItem(db, id).db;
      && GetItem(after, id).reply == Error(NotFound)
      && FindByName(after.items, db.items.rows[id].name).None?
  {
  }
}
