/** The order endpoints. Create and update walk the submitted lines in
    order: each name is looked up in the catalogue, a differing price is
    recorded as an adjustment, and one `order_items` row is inserted per
    line. The first unknown name ends the request with a 404, but every
    statement before it has already committed. */
module Orders {
  import opened Wrappers
  import opened Tables
  import opened Schema
  import opened Api
  import opened Items

  predicate Resolves(items: Table<ItemRow>, line: Item) {
    FindByName(items, line.name).Some?
  }

  /** The line names a catalogue item whose price is not the submitted one. */
  predicate Differs(items: Table<ItemRow>, line: Item) {
    var k := FindByName(items, line.name);
    k.Some? && items.rows[k.value].price != line.price
  }

  /** The adjustment recorded for one submitted line, if any. */
  function AdjustmentOf(items: Table<ItemRow>, line: Item): (a: seq<Adjustment>)
    ensures |a| <= 1
    ensures a != [] <==> Differs(items, line)
    ensures a != [] ==> a[0].name == line.name && a[0].submitted == line.price != a[0].catalogue
    ensures a != [] ==> a[0].catalogue == items.rows[FindByName(items, line.name).value].price
  {
    match FindByName(items, line.name)
    case Some(k) =>
      if line.price != items.rows[k].price
      then [Adjustment(line.name, line.price, items.rows[k].price)]
      else []
    case None => []
  }

  /** The adjustments a fully resolvable submission earns, in submission
      order. */
  function Mismatches(items: Table<ItemRow>, s: seq<Item>): (a: seq<Adjustment>)
    ensures |a| <= |s|
    ensures forall j :: 0 <= j < |a| ==> a[j].submitted != a[j].catalogue
  {
    if s == [] then [] else AdjustmentOf(items, s[0]) + Mismatches(items, s[1..])
  }

  /** The `price_adjustments` key is present exactly when the list is not
      empty. */
  function AdjustmentsKey(a: seq<Adjustment>): (r: Option<seq<Adjustment>>)
    ensures r.Some? <==> a != []
    ensures r.Some? ==> r.value == a
  {
    if a == [] then None else Some(a)
  }

  /** The first `w` submitted lines resolve and, unless all do, line `w`
      does not: the loop stops at line `w`. */
  ghost predicate StopsAt(items: Table<ItemRow>, s: seq<Item>, w: int) {
    && 0 <= w <= |s|
    && (forall i :: 0 <= i < w ==> Resolves(items, s[i]))
    && (w < |s| ==> !Resolves(items, s[w]))
  }

  /** `after` is `before` plus one later row per line of `s`, in order, each
      linking `orderId` to the catalogue item the line names. */
  ghost predicate Appended(before: Table<OrderItemRow>, after: Table<OrderItemRow>,
                           orderId: int, items: Table<ItemRow>, s: seq<Item>) {
    && after.last == before.last + |s|
    && (forall j :: j in after.rows <==> j in before.rows || before.last < j <= after.last)
    && (forall j :: j in before.rows ==> after.rows[j] == before.rows[j])
    && forall j :: before.last < j <= after.last ==>
         && j in after.rows
         && after.rows[j].orderId == orderId
         && FindByName(items, s[j - before.last - 1].name) == Some(after.rows[j].itemId)
  }

  /** A line table that gained the rows `Appended` describes has grown. */
  lemma AppendedGrows(before: Table<OrderItemRow>, after: Table<OrderItemRow>,
                      orderId: int, items: Table<ItemRow>, s: seq<Item>)
    requires Appended(before, after, orderId, items, s)
    ensures Grows(before, after)
  {
  }

  /** One loop iteration followed by the rest of the loop. */
  lemma AppendedCons(t0: Table<OrderItemRow>, t1: Table<OrderItemRow>, t2: Table<OrderItemRow>,
                     orderId: int, items: Table<ItemRow>, line: Item, rest: seq<Item>)
    requires FindByName(items, line.name).Some?
    requires t1 == Insert(t0, OrderItemRow(orderId, FindByName(items, line.name).value)).0
    requires Appended(t1, t2, orderId, items, rest)
    ensures Appended(t0, t2, orderId, items, [line] + rest)
  {
  }

  datatype Placement = Placement(db: Db, adjustments: seq<Adjustment>, missing: Option<string>)

  /** What the loop promises: nothing but `order_items` changes; it stops at
      the first unknown name (or runs to the end) having inserted one row per
      line before it; on reaching the end it has collected the adjustments. */
  ghost predicate Placed(db: Db, orderId: int, s: seq<Item>, p: Placement) {
    && p.db == db.(orderItems := p.db.orderItems)
    && var w := p.db.orderItems.last - db.orderItems.last;
      && StopsAt(db.items, s, w)
      && Appended(db.orderItems, p.db.orderItems, orderId, db.items, s[..w])
      && (p.missing.None? <==> w == |s|)
      && (p.missing.Some? ==> w < |s| && p.missing.value == s[w].name)
      && (p.missing.None? ==> p.adjustments == Mismatches(db.items, s))
  }

  /** The iteration that inserts the row for a known first line, followed by
      a loop over the remaining lines, behaves as the loop over all lines. */
  lemma PlacedCons(db: Db, orderId: int, s: seq<Item>, db1: Db, rest: Placement)
    requires s != [] && FindByName(db.items, s[0].name).Some?
    requires db1 == db.(orderItems := Insert(db.orderItems,
                          OrderItemRow(orderId, FindByName(db.items, s[0].name).value)).0)
    requires Placed(db1, orderId, s[1..], rest)
    ensures Placed(db, orderId, s,
                   Placement(rest.db, AdjustmentOf(db.items, s[0]) + rest.adjustments, rest.missing))
  {
    var w := rest.db.orderItems.last - db.orderItems.last;
    assert s[..w] == [s[0]] + s[1..][..w - 1];
    AppendedCons(db.orderItems, db1.orderItems, rest.db.orderItems, orderId, db.items, s[0], s[1..][..w - 1]);
    forall i | 0 <= i < w
      ensures Resolves(db.items, s[i])
    {
      if i > 0 {
        assert s[i] == s[1..][i - 1];
      }
    }
  }

  /** The `for item in order.items` loop of create and update. `missing` is
      the unknown name the loop stopped at; `db` is what has been committed
      either way. */
  function PlaceLines(db: Db, orderId: int, s: seq<Item>): (p: Placement)
    ensures Placed(db, orderId, s, p)
    decreases |s|
  {
    if s == [] then Placement(db, [], None)
    else
      match FindByName(db.items, s[0].name)
      case None => Placement(db, [], Some(s[0].name))
      case Some(itemId) =>
        var db1 := db.(orderItems := Insert(db.orderItems, OrderItemRow(orderId, itemId)).0);
        var rest := PlaceLines(db1, orderId, s[1..]);
        PlacedCons(db, orderId, s, db1, rest);
        Placement(rest.db, AdjustmentOf(db.items, s[0]) + rest.adjustments, rest.missing)
  }

  /** Adjustments of a concatenation are the adjustments of each part, one
      after the other: the list follows submission order. */
  lemma {:induction false} MismatchesAppend(items: Table<ItemRow>, a: seq<Item>, b: seq<Item>)
    ensures Mismatches(items, a + b) == Mismatches(items, a) + Mismatches(items, b)
    decreases |a|
  {
    if a == [] {
      assert a + b == b;
    } else {
      assert (a + b)[0] == a[0];
      assert (a + b)[1..] == a[1..] + b;
      MismatchesAppend(items, a[1..], b);
    }
  }

  /** No adjustment is recorded exactly when no submitted line names a
      catalogue item at a different price. */
  lemma {:induction false} MismatchesEmpty(items: Table<ItemRow>, s: seq<Item>)
    ensures Mismatches(items, s) == [] <==> forall i :: 0 <= i < |s| ==> !Differs(items, s[i])
    decreases |s|
  {
    if s != [] {
      MismatchesEmpty(items, s[1..]);
      if Differs(items, s[0]) {
        assert |Mismatches(items, s)| > 0;
      } else {
        forall i | 0 < i < |s| ensures s[i] == s[1..][i - 1] { }
      }
    }
  }

  /** The positions at or after `from` of submitted lines whose price
      differs from the catalogue. */
  ghost function Differing(items: Table<ItemRow>, s: seq<Item>, from: int): set<int> {
    set i | 0 <= from <= i < |s| && Differs(items, s[i])
  }

  lemma {:induction false} MismatchesCountFrom(items: Table<ItemRow>, s: seq<Item>, from: int)
    requires 0 <= from <= |s|
    ensures |Mismatches(items, s[from..])| == |Differing(items, s, from)|
    decreases |s| - from
  {
    if from == |s| {
      assert Differing(items, s, from) == {};
    } else {
      MismatchesCountFrom(items, s, from + 1);
      assert s[from..][1..] == s[from + 1..];
      assert s[from..][0] == s[from];
      if Differs(items, s[from]) {
        assert Differing(items, s, from) == {from} + Differing(items, s, from + 1);
      } else {
        assert Differing(items, s, from) == Differing(items, s, from + 1);
      }
    }
  }

  /** One adjustment per submitted line whose price differs: the list is as
      long as the number of such positions. */
  lemma MismatchesCount(items: Table<ItemRow>, s: seq<Item>)
    ensures |Mismatches(items, s)| == |set i | 0 <= i < |s| && Differs(items, s[i])|
  {
    MismatchesCountFrom(items, s, 0);
    assert s[0..] == s;
    assert Differing(items, s, 0) == set i | 0 <= i < |s| && Differs(items, s[i]);
  }

  /** Deleting every line of an order: the rows carrying the order id go,
      all others stay. */
  function Detach(t: Table<OrderItemRow>, orderId: int): (r: Table<OrderItemRow>)
    ensures r.last == t.last
    ensures forall j :: j in r.rows <==> j in t.rows && t.rows[j].orderId != orderId
    ensures forall j :: j in r.rows ==> r.rows[j] == t.rows[j]
  {
    DeleteWhere(t, (row: OrderItemRow) => row.orderId == orderId)
  }

  /** POST /orders, at clock reading `now`. */
  function CreateOrder(db: Db, order: Order, now: int): (o: Outcome)
    ensures order.customerId !in db.customers.rows ==> o == Outcome(db, Error(NotFound))
    ensures order.customerId in db.customers.rows ==>
      var orderId := o.db.orders.last;
      && orderId == db.orders.last + 1
      && orderId !in db.orders.rows
      && o.db.orders.rows == db.orders.rows[orderId := OrderRow(order.customerId, now, StoredNotes(order.notes))]
      && o.db.customers == db.customers
      && o.db.items == db.items
      && var w := o.db.orderItems.last - db.orderItems.last;
        && StopsAt(db.items, order.items, w)
        && Appended(db.orderItems, o.db.orderItems, orderId, db.items, order.items[..w])
        && (w < |order.items| <==> o.reply == Error(NotFound))
        && (w == |order.items| ==>
              o.reply == OrderAck(orderId, AdjustmentsKey(Mismatches(db.items, order.items))))
  {
    if order.customerId !in db.customers.rows then Outcome(db, Error(NotFound))
    else
      var (orders, orderId) := Insert(db.orders, OrderRow(order.customerId, now, StoredNotes(order.notes)));
      var p := PlaceLines(db.(orders := orders), orderId, order.items);
      if p.missing.Some? then Outcome(p.db, Error(NotFound))
      else Outcome(p.db, OrderAck(orderId, AdjustmentsKey(p.adjustments)))
  }

  /** PUT /orders/{id}. Neither the order nor the customer is looked up: an
      absent order id matches zero rows in the UPDATE, and the new lines are
      inserted all the same. */
  function UpdateOrder(db: Db, id: int, order: Order): (o: Outcome)
    ensures o.db.customers == db.customers
    ensures o.db.items == db.items
    ensures o.db.orders.last == db.orders.last
    ensures id in db.orders.rows ==>
      o.db.orders.rows == db.orders.rows[id := OrderRow(order.customerId, db.orders.rows[id].timestamp,
                                                        StoredNotes(order.notes))]
    ensures id !in db.orders.rows ==> o.db.orders == db.orders
    ensures var w := o.db.orderItems.last - db.orderItems.last;
      && StopsAt(db.items, order.items, w)
      && Appended(Detach(db.orderItems, id), o.db.orderItems, id, db.items, order.items[..w])
      && (w < |order.items| <==> o.reply == Error(NotFound))
      && (w == |order.items| ==>
            o.reply == OrderAck(id, AdjustmentsKey(Mismatches(db.items, order.items))))
  {
    var orders :=
      if id in db.orders.rows
      then Update(db.orders, id, db.orders.rows[id].(customerId := order.customerId,
                                                     notes := StoredNotes(order.notes)))
      else db.orders;
    var cleared := db.(orders := orders, orderItems := Detach(db.orderItems, id));
    var p := PlaceLines(cleared, id, order.items);
    if p.missing.Some? then Outcome(p.db, Error(NotFound))
    else Outcome(p.db, OrderAck(id, AdjustmentsKey(p.adjustments)))
  }

  /** DELETE /orders/{id}. Its `order_items` rows stay behind. */
  function DeleteOrder(db: Db, id: int): (o: Outcome)
    ensures id !in db.orders.rows <==> o.reply == Error(NotFound)
    ensures id !in db.orders.rows ==> o.db == db
    ensures id in db.orders.rows ==>
      && o.reply == Done
      && o.db.orders.rows.Keys == db.orders.rows.Keys - {id}
      && (forall k :: k in o.db.orders.rows ==> o.db.orders.rows[k] == db.orders.rows[k])
      && o.db.orders.last == db.orders.last
      && o.db == db.(orders := o.db.orders)
  {
    if id !in db.orders.rows then Outcome(db, Error(NotFound))
    else Outcome(db.(orders := Delete(db.orders, id)), Done)
  }

  /** Line `j` belongs to order `orderId`, its item still exists, and the
      item currently reads as `v`. */
  ghost predicate Joins(db: Db, orderId: int, j: int, v: LineView) {
    && j in db.orderItems.rows
    && db.orderItems.rows[j].orderId == orderId
    && db.orderItems.rows[j].itemId in db.items.rows
    && var row := db.items.rows[db.orderItems.rows[j].itemId];
      LineView(row.name, row.price) == v
  }

  /** The lines of the order that the join turns into the entry `v`. */
  ghost function JoinedLines(db: Db, orderId: int, v: LineView): set<int> {
    set j | j in db.orderItems.rows && Joins(db, orderId, j, v)
  }

  /** The join's entry for line `j`, if the line belongs to the order and
      its item still exists. */
  function LineAt(db: Db, orderId: int, j: int): (r: seq<LineView>)
    ensures forall v :: multiset(r)[v] == if Joins(db, orderId, j, v) then 1 else 0
  {
    if j in db.orderItems.rows && db.orderItems.rows[j].orderId == orderId
       && db.orderItems.rows[j].itemId in db.items.rows
    then
      var row := db.items.rows[db.orderItems.rows[j].itemId];
      [LineView(row.name, row.price)]
    else []
  }

  /** Some line of the order at or above `from` joins to the entry `v`. */
  ghost predicate JoinedAbove(db: Db, orderId: int, from: int, v: LineView) {
    exists j :: from <= j && Joins(db, orderId, j, v)
  }

  /** The join of `order_items` with `items` for one order, scanning line ids
      from `from` upwards: every entry comes from a line of that order at or
      above `from` whose item still exists. */
  function JoinFrom(db: Db, orderId: int, from: int): (r: seq<LineView>)
    ensures forall i :: 0 <= i < |r| ==> JoinedAbove(db, orderId, from, r[i])
    decreases db.orderItems.last + 1 - from
  {
    if from > db.orderItems.last then []
    else
      var h := LineAt(db, orderId, from);
      var t := JoinFrom(db, orderId, from + 1);
      assert forall i :: 0 <= i < |h| ==> JoinedAbove(db, orderId, from, h[i]) by {
        forall i | 0 <= i < |h| ensures JoinedAbove(db, orderId, from, h[i]) {
          assert h[i] in multiset(h);
          assert Joins(db, orderId, from, h[i]);
        }
      }
      assert forall i :: 0 <= i < |t| ==> JoinedAbove(db, orderId, from, t[i]) by {
        forall i | 0 <= i < |t| ensures JoinedAbove(db, orderId, from, t[i]) {
          assert JoinedAbove(db, orderId, from + 1, t[i]);
          var j :| from + 1 <= j && Joins(db, orderId, j, t[i]);
          assert from <= j;
        }
      }
      h + t
  }

  /** The lines at or above `from` that read as `v`. */
  ghost function JoinedFrom(db: Db, orderId: int, from: int, v: LineView): set<int> {
    set j | j in db.orderItems.rows && from <= j && Joins(db, orderId, j, v)
  }

  /** No line lies above the high-water mark. */
  lemma JoinedFromBeyond(db: Db, orderId: int, from: int, v: LineView)
    requires from > db.orderItems.last
    ensures JoinedFrom(db, orderId, from, v) == {}
  {
  }

  lemma JoinedFromSplit(db: Db, orderId: int, from: int, v: LineView)
    ensures JoinedFrom(db, orderId, from, v)
         == JoinedFrom(db, orderId, from + 1, v) + (if Joins(db, orderId, from, v) then {from} else {})
  {
  }

  lemma {:induction false} JoinFromCount(db: Db, orderId: int, from: int, v: LineView)
    ensures multiset(JoinFrom(db, orderId, from))[v] == |JoinedFrom(db, orderId, from, v)|
    decreases db.orderItems.last + 1 - from
  {
    if from > db.orderItems.last {
      JoinedFromBeyond(db, orderId, from, v);
    } else {
      JoinFromCount(db, orderId, from + 1, v);
      JoinedFromSplit(db, orderId, from, v);
      assert multiset(JoinFrom(db, orderId, from))[v]
          == multiset(LineAt(db, orderId, from))[v] + multiset(JoinFrom(db, orderId, from + 1))[v];
    }
  }

  /** Each entry occurs in the join as often as there are lines of the order
      that currently read as it. */
  lemma JoinCounts(db: Db, orderId: int)
    ensures forall v :: multiset(JoinFrom(db, orderId, 1))[v] == |JoinedLines(db, orderId, v)|
  {
    forall v ensures multiset(JoinFrom(db, orderId, 1))[v] == |JoinedLines(db, orderId, v)| {
      JoinFromCount(db, orderId, 1, v);
      assert JoinedLines(db, orderId, v) == JoinedFrom(db, orderId, 1, v);
    }
  }

  /** GET /orders/{id}. The query has no ORDER BY, so only the multiset of
      entries is promised: each line of the order whose item still exists,
      at the item's current name and price. */
  function GetOrder(db: Db, id: int): (o: Outcome)
    ensures o.db == db
    ensures id !in db.orders.rows <==> o.reply == Error(NotFound)
    ensures id in db.orders.rows ==>
      && o.reply.OrderBody?
      && o.reply.id == id
      && o.reply.customerId == db.orders.rows[id].customerId
      && o.reply.notes == db.orders.rows[id].notes
      && forall v :: multiset(o.reply.items)[v] == |JoinedLines(db, id, v)|
  {
    if id !in db.orders.rows then Outcome(db, Error(NotFound))
    else
      var row := db.orders.rows[id];
      JoinCounts(db, id);
      Outcome(db, OrderBody(id, row.customerId, row.notes, JoinFrom(db, id, 1)))
  }

  /** How a read shows a submitted line: the catalogue item it names, at the
      item's current name and price. */
  function Entry(items: Table<ItemRow>, line: Item): (v: LineView)
    requires Resolves(items, line)
    ensures v.name == line.name
    ensures !Differs(items, line) ==> v.price == line.price
  {
    var row := items.rows[FindByName(items, line.name).value];
    LineView(row.name, row.price)
  }

  /** The entries a read of the order should show for the submitted lines. */
  function Catalogued(items: Table<ItemRow>, s: seq<Item>): (r: seq<LineView>)
    requires forall i :: 0 <= i < |s| ==> Resolves(items, s[i])
    ensures |r| == |s|
    ensures forall i :: 0 <= i < |s| ==> r[i] == Entry(items, s[i])
    decreases |s|
  {
    if s == [] then []
    else
      assert Resolves(items, s[0]);
      [Entry(items, s[0])] + Catalogued(items, s[1..])
  }

  /** Entry `j` of `c` when positions are numbered from `base + 1`. */
  function Nth(c: seq<LineView>, base: int, j: int): LineView
    requires base < j <= base + |c|
  {
    c[j - base - 1]
  }

  /** The positions of `v` in `c`, numbered from `base + 1`. */
  ghost function Positions(c: seq<LineView>, base: int, v: LineView): set<int> {
    set j | base < j <= base + |c| && Nth(c, base, j) == v
  }

  /** Counting the positions of `v` in `c` gives the multiplicity of `v`. */
  lemma {:induction false} CountPositions(c: seq<LineView>, base: int, v: LineView)
    ensures |Positions(c, base, v)| == multiset(c)[v]
    decreases |c|
  {
    if c != [] {
      var front := c[..|c| - 1];
      CountPositions(front, base, v);
      var all := Positions(c, base, v);
      var prior := Positions(front, base, v);
      assert c == front + [c[|c| - 1]];
      if c[|c| - 1] == v {
        assert all == prior + {base + |c|};
      } else {
        assert all == prior;
      }
    }
  }

  /** Every line the join turns into `v` is one of the appended rows, at
      a position whose catalogue entry is `v`. */
  lemma JoinedWithinAppended(db: Db, before: Table<OrderItemRow>, orderId: int, s: seq<Item>, v: LineView, j: int)
    requires forall i :: 0 <= i < |s| ==> Resolves(db.items, s[i])
    requires forall k :: k in before.rows ==> before.rows[k].orderId != orderId
    requires Appended(before, db.orderItems, orderId, db.items, s)
    requires j in JoinedLines(db, orderId, v)
    ensures before.last < j <= before.last + |s|
    ensures Catalogued(db.items, s)[j - before.last - 1] == v
  {
  }

  /** The row appended for line `i` is joined as that line's catalogue
      entry. */
  lemma AppendedWithinJoined(db: Db, before: Table<OrderItemRow>, orderId: int, s: seq<Item>, i: int)
    requires forall i :: 0 <= i < |s| ==> Resolves(db.items, s[i])
    requires Appended(before, db.orderItems, orderId, db.items, s)
    requires 0 <= i < |s|
    ensures before.last + 1 + i in JoinedLines(db, orderId, Catalogued(db.items, s)[i])
  {
  }

  /** The lines the join turns into `v` are exactly the appended rows
      whose catalogue entry is `v`. */
  lemma JoinedLinesArePositions(db: Db, before: Table<OrderItemRow>, orderId: int, s: seq<Item>, v: LineView)
    requires forall i :: 0 <= i < |s| ==> Resolves(db.items, s[i])
    requires forall j :: j in before.rows ==> before.rows[j].orderId != orderId
    requires Appended(before, db.orderItems, orderId, db.items, s)
    ensures JoinedLines(db, orderId, v) == Positions(Catalogued(db.items, s), before.last, v)
  {
    var positions := Positions(Catalogued(db.items, s), before.last, v);
    forall j | j in JoinedLines(db, orderId, v) ensures j in positions {
      JoinedWithinAppended(db, before, orderId, s, v, j);
    }
    forall j | j in positions ensures j in JoinedLines(db, orderId, v) {
      AppendedWithinJoined(db, before, orderId, s, j - before.last - 1);
    }
  }

  /** Reading an order whose only lines are the ones just appended for `s`
      gives exactly the current catalogue entries of `s`. */
  lemma JoinAfterAppend(db: Db, before: Table<OrderItemRow>, orderId: int, s: seq<Item>, v: LineView)
    requires forall i :: 0 <= i < |s| ==> Resolves(db.items, s[i])
    requires forall j :: j in before.rows ==> before.rows[j].orderId != orderId
    requires Appended(before, db.orderItems, orderId, db.items, s)
    ensures |JoinedLines(db, orderId, v)| == multiset(Catalogued(db.items, s))[v]
  {
    JoinedLinesArePositions(db, before, orderId, s, v);
    CountPositions(Catalogued(db.items, s), before.last, v);
  }

  /** A POST whose customer exists and whose names all resolve succeeds
      and appends one line per submitted item to the new order. */
  lemma CreateOrderSucceeds(db: Db, order: Order, now: int)
    requires order.customerId in db.customers.rows
    requires forall i :: 0 <= i < |order.items| ==> Resolves(db.items, order.items[i])
    ensures var o := CreateOrder(db, order, now);
      && o.reply == OrderAck(db.orders.last + 1, AdjustmentsKey(Mismatches(db.items, order.items)))
      && o.db.items == db.items
      && o.db.orders.rows[db.orders.last + 1] == OrderRow(order.customerId, now, StoredNotes(order.notes))
      && Appended(db.orderItems, o.db.orderItems, db.orders.last + 1, db.items, order.items)
  {
  }

  /** POST then GET: the order reads back with its customer, its notes and
      one entry per submitted line, at the catalogue's current price. This
      needs the new id to have no `order_items` rows yet; see
      `UpdateOfMissingOrderLeaks` for how it can. */
  lemma CreateThenGetOrder(db: Db, order: Order, now: int)
    requires order.customerId in db.customers.rows
    requires forall i :: 0 <= i < |order.items| ==> Resolves(db.items, order.items[i])
    requires forall j :: j in db.orderItems.rows ==> db.orderItems.rows[j].orderId != db.orders.last + 1
    ensures var o := CreateOrder(db, order, now);
      && o.reply.OrderAck?
      && var g := GetOrder(o.db, o.reply.id).reply;
        && g.OrderBody?
        && g.customerId == order.customerId
        && g.notes == StoredNotes(order.notes)
        && multiset(g.items) == multiset(Catalogued(db.items, order.items))
  {
    var o := CreateOrder(db, order, now);
    CreateOrderSucceeds(db, order, now);
    var g := GetOrder(o.db, o.reply.id).reply;
    forall v ensures multiset(g.items)[v] == multiset(Catalogued(db.items, order.items))[v] {
      JoinAfterAppend(o.db, db.orderItems, o.reply.id, order.items, v);
    }
  }

  /** A PUT whose names all resolve succeeds and leaves the order id with
      one line per submitted item, whatever lines it had before. */
  lemma UpdateOrderSucceeds(db: Db, id: int, order: Order)
    requires forall i :: 0 <= i < |order.items| ==> Resolves(db.items, order.items[i])
    ensures var o := UpdateOrder(db, id, order);
      && o.reply == OrderAck(id, AdjustmentsKey(Mismatches(db.items, order.items)))
      && o.db.items == db.items
      && o.db.orders.last == db.orders.last
      && (id !in db.orders.rows ==> o.db.orders == db.orders)
      && Appended(Detach(db.orderItems, id), o.db.orderItems, id, db.items, order.items)
  {
  }

  /** PUT then GET: an existing order reads back with exactly the newly
      submitted lines; every earlier line of it is gone. */
  lemma UpdateThenGetOrder(db: Db, id: int, order: Order)
    requires id in db.orders.rows
    requires forall i :: 0 <= i < |order.items| ==> Resolves(db.items, order.items[i])
    ensures var o := UpdateOrder(db, id, order);
      && o.reply.OrderAck?
      && var g := GetOrder(o.db, id).reply;
        && g.OrderBody?
        && g.customerId == order.customerId
        && g.notes == StoredNotes(order.notes)
        && multiset(g.items) == multiset(Catalogued(db.items, order.items))
  {
    var o := UpdateOrder(db, id, order);
    UpdateOrderSucceeds(db, id, order);
    var g := GetOrder(o.db, id).reply;
    forall v ensures multiset(g.items)[v] == multiset(Catalogued(db.items, order.items))[v] {
      JoinAfterAppend(o.db, Detach(db.orderItems, id), id, order.items, v);
    }
  }

  /** After a successful PUT the lines carrying the order id are exactly the
      rows the request inserted, even when no such order exists. */
  lemma UpdateReplacesLines(db: Db, id: int, order: Order)
    requires UpdateOrder(db, id, order).reply.OrderAck?
    ensures var after := UpdateOrder(db, id, order).db.orderItems;
      && after.last == db.orderItems.last + |order.items|
      && forall j :: j in after.rows && after.rows[j].orderId == id <==> db.orderItems.last < j <= after.last
  {
  }

  /** A failed POST keeps what it committed: the order row and one line for
      each name before the first unknown one. */
  lemma CreateOrderPartialFailure(db: Db, order: Order, now: int, k: int)
    requires order.customerId in db.customers.rows
    requires 0 <= k < |order.items|
    requires forall i :: 0 <= i < k ==> Resolves(db.items, order.items[i])
    requires !Resolves(db.items, order.items[k])
    ensures var o := CreateOrder(db, order, now);
      && o.reply == Error(NotFound)
      && db.orders.last + 1 in o.db.orders.rows
      && o.db.orderItems.last == db.orderItems.last + k
      && Appended(db.orderItems, o.db.orderItems, db.orders.last + 1, db.items, order.items[..k])
  {
  }

  /** A failed PUT keeps what it committed: the new customer and notes, the
      removal of every earlier line, and the lines before the first unknown
      name. */
  lemma UpdateOrderPartialFailure(db: Db, id: int, order: Order, k: int)
    requires 0 <= k < |order.items|
    requires forall i :: 0 <= i < k ==> Resolves(db.items, order.items[i])
    requires !Resolves(db.items, order.items[k])
    ensures var o := UpdateOrder(db, id, order);
      && o.reply == Error(NotFound)
      && (id in db.orders.rows ==>
            o.db.orders.rows[id] == OrderRow(order.customerId, db.orders.rows[id].timestamp, StoredNotes(order.notes)))
      && o.db.orderItems.last == db.orderItems.last + k
      && Appended(Detach(db.orderItems, id), o.db.orderItems, id, db.items, order.items[..k])
  {
  }

  /** PUT on an order id not yet handed out succeeds and leaves lines for
      that id; the next POST is handed that very id, so an order created
      with no lines at all reads back with the lines of the earlier PUT. */
  lemma UpdateOfMissingOrderLeaks(db: Db, stale: Order, later: Order, now: int)
    requires forall i :: 0 <= i < |stale.items| ==> Resolves(db.items, stale.items[i])
    requires later.customerId in db.customers.rows && later.items == []
    ensures var u := UpdateOrder(db, db.orders.last + 1, stale);
      var c := CreateOrder(u.db, later, now);
      && u.reply.OrderAck?
      && c.reply == OrderAck(db.orders.last + 1, None)
      && var g := GetOrder(c.db, db.orders.last + 1).reply;
        g.OrderBody? && multiset(g.items) == multiset(Catalogued(db.items, stale.items))
  {
    var id := db.orders.last + 1;
    var u := UpdateOrder(db, id, stale);
    UpdateOrderSucceeds(db, id, stale);
    var c := CreateOrder(u.db, later, now);
    assert c.db.orderItems == u.db.orderItems;
    assert c.db.items == db.items;
    var g := GetOrder(c.db, id).reply;
    forall v ensures multiset(g.items)[v] == multiset(Catalogued(db.items, stale.items))[v] {
      JoinAfterAppend(c.db, Detach(db.orderItems, id), id, stale.items, v);
    }
  }

  /** After DELETE, GET answers 404 even though the order's lines remain. */
  lemma DeleteThenGetOrder(db: Db, id: int)
    ensures var after := DeleteOrder(db, id).db;
      && GetOrder(after, id).reply == Error(NotFound)
      && after.orderItems == db.orderItems
  {
  }

  /** The catalogue of the worked example below: A at 10 and B at 20. */
  function ExampleItems(): (t: Table<ItemRow>)
    ensures UniqueNames(t)
    ensures FindByName(t, "A") == Some(1) && FindByName(t, "B") == Some(2)
  {
    var t: Table<ItemRow> := RawTable(map[1 := ItemRow("A", 10), 2 := ItemRow("B", 20)], 2);
    assert UniqueNames(t);
    FindByNameExact(t, "A", 1);
    FindByNameExact(t, "B", 2);
    t
  }

  /** Submitting A at 10 and B at 15 against that catalogue: only B is
      adjusted, and a read shows both lines at catalogue prices. */
  lemma ExampleLines(s: seq<Item>)
    requires s == [Item("A", 10), Item("B", 15)]
    ensures forall i :: 0 <= i < |s| ==> Resolves(ExampleItems(), s[i])
    ensures Mismatches(ExampleItems(), s) == [Adjustment("B", 15, 20)]
    ensures Catalogued(ExampleItems(), s) == [LineView("A", 10), LineView("B", 20)]
  {
    var items := ExampleItems();
    assert Resolves(items, s[0]) && Resolves(items, s[1]);
    assert Mismatches(items, s[1..]) == [Adjustment("B", 15, 20)];
  }

  /** An order submitting A at 10 and B at 15 is accepted with one adjustment
      for B, and reading it back shows the catalogue prices. */
  lemma PriceAdjustmentExample(now: int)
    ensures
      var db := Db(RawTable(map[1 := CustomerRow("555", "Ann")], 1), ExampleItems(), Empty(), Empty());
      var o := CreateOrder(db, Order(1, [Item("A", 10), Item("B", 15)], None), now);
      && o.reply == OrderAck(1, Some([Adjustment("B", 15, 20)]))
      && multiset(GetOrder(o.db, 1).reply.items) == multiset{LineView("A", 10), LineView("B", 20)}
  {
    var db := Db(RawTable(map[1 := CustomerRow("555", "Ann")], 1), ExampleItems(), Empty(), Empty());
    var order := Order(1, [Item("A", 10), Item("B", 15)], None);
    ExampleLines(order.items);
    CreateOrderSucceeds(db, order, now);
    CreateThenGetOrder(db, order, now);
  }
}
