/** One SQLite table declared `id INTEGER PRIMARY KEY AUTOINCREMENT`, as an
    immutable value: the rows keyed by id, and `last`, the largest id the
    table has ever handed out (SQLite keeps it in `sqlite_sequence`). Every
    statement the service issues commits on its own, so each function here is
    one committed statement. */
module Tables {

  datatype RawTable<R> = RawTable(rows: map<int, R>, last: int)

  /** AUTOINCREMENT ids start at 1 and never exceed the high-water mark. */
  predicate Bounded<R>(t: RawTable<R>) {
    t.last >= 0 && forall k :: k in t.rows ==> 1 <= k <= t.last
  }

  type Table<R> = t: RawTable<R> | Bounded(t) witness RawTable(map[], 0)

  /** A newly created table: no rows, and no id handed out yet. */
  function Empty<R>(): (t: Table<R>)
    ensures t.rows == map[] && t.last == 0
  {
    RawTable(map[], 0)
  }

  /** `INSERT`: the new row receives an id above every id ever assigned. */
  function Insert<R>(t: Table<R>, row: R): (r: (Table<R>, int))
    ensures r.1 !in t.rows
    ensures forall k :: k in t.rows ==> k < r.1
    ensures t.last < r.1 == r.0.last
    ensures r.0.rows == t.rows[r.1 := row]
  {
    var id := t.last + 1;
    (RawTable(t.rows[id := row], id), id)
  }

  /** Rewriting the row with a given id; a missing id matches no row. */
  function Update<R>(t: Table<R>, id: int, row: R): (r: Table<R>)
    ensures r.last == t.last
    ensures id in t.rows ==> r.rows == t.rows[id := row]
    ensures id !in t.rows ==> r == t
  {
    if id in t.rows then RawTable(t.rows[id := row], t.last) else t
  }

  /** Deleting the row with a given id; the high-water mark
      stays, so the id is never handed out again. */
  function Delete<R>(t: Table<R>, id: int): (r: Table<R>)
    ensures r.last == t.last
    ensures r.rows.Keys == t.rows.Keys - {id}
    ensures forall k :: k in r.rows ==> r.rows[k] == t.rows[k]
  {
    RawTable(t.rows - {id}, t.last)
  }

  /** Deleting every row a condition holds of. */
  function DeleteWhere<R>(t: Table<R>, doomed: R -> bool): (r: Table<R>)
    ensures r.last == t.last
    ensures forall k :: k in r.rows <==> k in t.rows && !doomed(t.rows[k])
    ensures forall k :: k in r.rows ==> r.rows[k] == t.rows[k]
  {
    RawTable(map k | k in t.rows && !doomed(t.rows[k]) :: t.rows[k], t.last)
  }

  /** `b` is a later state of the table `a`: the high-water mark has not gone
      down, and every row of `b` that `a` lacks carries an id above every id
      `a` had ever handed out. */
  ghost predicate Grows<R>(a: Table<R>, b: Table<R>) {
    && a.last <= b.last
    && forall k :: k in b.rows && k !in a.rows ==> a.last < k
  }

  lemma GrowsTransitive<R>(a: Table<R>, b: Table<R>, c: Table<R>)
    requires Grows(a, b) && Grows(b, c)
    ensures Grows(a, c)
  {
  }
}
