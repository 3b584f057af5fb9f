/** Orders: creation of a header and its items with compensating deletes, the newest-first
    listing with items attached, and the status overwrite (database.ts:569-661). */
module Orders {
  import opened Tables
  import opened Records
  import opened Text

  /** The four customer fields createOrder copies into the header. */
  datatype Customer = Customer(name: string, phone: string, email: string, address: string)

  /** The `reduce` of createOrder: Σ productPrice × quantity over the cart lines, 0 for none. */
  function Total(lines: seq<Row<CartLine>>): (r: int)
    ensures (forall i :: 0 <= i < |lines| ==> lines[i].val.productPrice >= 0 && lines[i].val.quantity >= 0) ==>
              r >= 0
  {
    if lines == [] then 0
    else
      var last := lines[|lines| - 1].val;
      Total(lines[..|lines| - 1]) + last.productPrice * last.quantity
  }

  /** Σ productPrice × quantity over stored order items. */
  function ItemsTotal(items: seq<Row<OrderItem>>): int
  {
    if items == [] then 0
    else
      var last := items[|items| - 1].val;
      ItemsTotal(items[..|items| - 1]) + last.productPrice * last.quantity
  }

  /** The orderItems values inserted for one cart line: its product id, name, price and quantity. */
  function ItemFor(orderId: int, line: CartLine): OrderItem
  {
    OrderItem(orderId, line.productId, line.productName, line.productPrice, line.quantity)
  }

  /** The rows the item loop inserts, one per cart line and in cart order, with the consecutive
      ids AUTOINCREMENT hands out from `firstId` on. */
  function ItemRows(orderId: int, firstId: int, lines: seq<Row<CartLine>>): (r: seq<Row<OrderItem>>)
    ensures |r| == |lines|
  {
    seq(|lines|, k requires 0 <= k < |lines| => Row(firstId + k, ItemFor(orderId, lines[k].val)))
  }

  /** One more loop iteration appends the next line's item with the next id. */
  lemma ItemRowsSnoc(orderId: int, firstId: int, lines: seq<Row<CartLine>>, i: nat)
    requires i < |lines|
    ensures ItemRows(orderId, firstId, lines[..i + 1]) ==
            ItemRows(orderId, firstId, lines[..i]) + [Row(firstId + i, ItemFor(orderId, lines[i].val))]
  {
    var a := ItemRows(orderId, firstId, lines[..i + 1]);
    var b := ItemRows(orderId, firstId, lines[..i]) + [Row(firstId + i, ItemFor(orderId, lines[i].val))];
    assert |a| == |b|;
    forall k | 0 <= k < |a| ensures a[k] == b[k] {
      assert lines[..i + 1][k] == lines[k];
    }
  }

  /** The items created for a cart add up to the cart's total, so the header's totalPrice is
      the sum of its own items. */
  lemma {:induction false} ItemsTotalMatchesTotal(orderId: int, firstId: int, lines: seq<Row<CartLine>>)
    ensures ItemsTotal(ItemRows(orderId, firstId, lines)) == Total(lines)
  {
    if lines != [] {
      var n := |lines| - 1;
      ItemsTotalMatchesTotal(orderId, firstId, lines[..n]);
      assert ItemRows(orderId, firstId, lines)[..n] == ItemRows(orderId, firstId, lines[..n]);
    }
  }

  /** The header row createOrder inserts: the cart total, the customer fields, status 'pending'. */
  function Header(orderCode: string, c: Customer, lines: seq<Row<CartLine>>, createdAt: string): (r: Order)
    ensures r.orderCode == orderCode && r.createdAt == createdAt && r.status == "pending"
    ensures r.totalPrice == Total(lines)
    ensures r.customerName == c.name && r.customerPhone == c.phone && r.customerEmail == c.email &&
            r.shippingAddress == c.address
  {
    Order(orderCode, Total(lines), c.name, c.phone, c.email, c.address, "pending", createdAt)
  }

  predicate CodeInUse(rows: seq<Row<Order>>, orderCode: string)
  {
    exists i :: 0 <= i < |rows| && rows[i].val.orderCode == orderCode
  }

  /** Every order item belongs to an order that exists. */
  predicate ItemsReferenceOrders(items: seq<Row<OrderItem>>, orders: seq<Row<Order>>)
  {
    forall i :: 0 <= i < |items| ==> HasId(orders, items[i].val.orderId)
  }

  predicate Consistent(orders: Table<Order>, items: Table<OrderItem>)
  {
    WellFormed(orders) && DistinctOrderCodes(orders.rows) &&
    WellFormed(items) && ItemsReferenceOrders(items.rows, orders.rows)
  }

  /** `SELECT * FROM orderItems WHERE orderId = ?`. */
  function ItemsOf(rows: seq<Row<OrderItem>>, orderId: int): (r: seq<Row<OrderItem>>)
    ensures forall i :: 0 <= i < |r| ==> r[i] in rows && r[i].val.orderId == orderId
    ensures forall i :: 0 <= i < |rows| && rows[i].val.orderId == orderId ==> rows[i] in r
  {
    if rows == [] then []
    else
      var last := rows[|rows| - 1];
      assert rows == rows[..|rows| - 1] + [last];
      var rest := ItemsOf(rows[..|rows| - 1], orderId);
      if last.val.orderId == orderId then rest + [last] else rest
  }

  /** `DELETE FROM orderItems WHERE orderId = ?`. */
  function DeleteItemsOf(rows: seq<Row<OrderItem>>, orderId: int): (r: seq<Row<OrderItem>>)
    ensures forall i :: 0 <= i < |r| ==> r[i] in rows && r[i].val.orderId != orderId
    ensures forall i :: 0 <= i < |rows| && rows[i].val.orderId != orderId ==> rows[i] in r
  {
    if rows == [] then []
    else
      var last := rows[|rows| - 1];
      assert rows == rows[..|rows| - 1] + [last];
      var rest := DeleteItemsOf(rows[..|rows| - 1], orderId);
      if last.val.orderId == orderId then rest else rest + [last]
  }

  /** Both statements return (or keep) each row once, in rowid order. This is a lemma of its own
      rather than an ensures clause of the two functions, where it would burden every proof that
      mentions them. */
  lemma {:induction false} ItemsInOrder(rows: seq<Row<OrderItem>>, orderId: int)
    ensures Ordered(rows) ==> Ordered(ItemsOf(rows, orderId)) && Ordered(DeleteItemsOf(rows, orderId))
  {
    if rows != [] && Ordered(rows) {
      var init := rows[..|rows| - 1];
      var last := rows[|rows| - 1];
      ItemsInOrder(init, orderId);
      var mine := ItemsOf(init, orderId);
      var others := DeleteItemsOf(init, orderId);
      assert ItemsOf(rows, orderId) == if last.val.orderId == orderId then mine + [last] else mine;
      assert DeleteItemsOf(rows, orderId) == if last.val.orderId == orderId then others else others + [last];
      forall i | 0 <= i < |init| ensures init[i].id < last.id {
        assert rows[i] == init[i];
      }
      forall i | 0 <= i < |mine| ensures mine[i].id < last.id {
        var j :| 0 <= j < |init| && init[j] == mine[i];
      }
      forall i | 0 <= i < |others| ensures others[i].id < last.id {
        var j :| 0 <= j < |init| && init[j] == others[i];
      }
      AppendOrdered(mine, last);
      AppendOrdered(others, last);
    }
  }

  /** The two item statements are the filter Where with the orderId test and its negation. */
  lemma {:induction false} ItemsOfIsWhere(rows: seq<Row<OrderItem>>, orderId: int)
    ensures ItemsOf(rows, orderId) == Where(rows, (x: Row<OrderItem>) => x.val.orderId == orderId)
    ensures DeleteItemsOf(rows, orderId) == Where(rows, (x: Row<OrderItem>) => x.val.orderId != orderId)
  {
    if rows != [] {
      ItemsOfIsWhere(rows[..|rows| - 1], orderId);
    }
  }

  /** Selecting from a table with one more row at the end. */
  lemma ItemsOfSnoc(rows: seq<Row<OrderItem>>, x: Row<OrderItem>, orderId: int)
    ensures ItemsOf(rows + [x], orderId) ==
            if x.val.orderId == orderId then ItemsOf(rows, orderId) + [x] else ItemsOf(rows, orderId)
  {
    var all := rows + [x];
    assert all[..|all| - 1] == rows;
  }

  /** Items of the new order sit after items of other orders: selecting the new order's items
      finds exactly them. */
  lemma {:induction false} SelectNewItems(before: seq<Row<OrderItem>>, added: seq<Row<OrderItem>>, orderId: int)
    requires forall i :: 0 <= i < |before| ==> before[i].val.orderId != orderId
    requires forall i :: 0 <= i < |added| ==> added[i].val.orderId == orderId
    ensures ItemsOf(before + added, orderId) == added
  {
    if added == [] {
      assert before + added == before;
      OtherItemsUntouched(before, orderId);
    } else {
      var n := |added| - 1;
      var init := added[..n];
      assert forall i :: 0 <= i < |init| ==> init[i] == added[i];
      SelectNewItems(before, init, orderId);
      assert added == init + [added[n]];
      AppendAssoc(before, init, added[n]);
      ItemsOfSnoc(before + init, added[n], orderId);
      assert added == init + [added[n]];
    }
  }

  /** ... and deleting the new order's items gives back the items that were there before. */
  lemma {:induction false} DeleteNewItems(before: seq<Row<OrderItem>>, added: seq<Row<OrderItem>>, orderId: int)
    requires forall i :: 0 <= i < |before| ==> before[i].val.orderId != orderId
    requires forall i :: 0 <= i < |added| ==> added[i].val.orderId == orderId
    ensures DeleteItemsOf(before + added, orderId) == before
  {
    if added == [] {
      assert before + added == before;
      OtherItemsUntouched(before, orderId);
    } else {
      var n := |added| - 1;
      var all := before + added;
      assert all[..|all| - 1] == before + added[..n];
      assert all[|all| - 1] == added[n];
      DeleteNewItems(before, added[..n], orderId);
    }
  }

  lemma {:induction false} OtherItemsUntouched(rows: seq<Row<OrderItem>>, orderId: int)
    requires forall i :: 0 <= i < |rows| ==> rows[i].val.orderId != orderId
    ensures ItemsOf(rows, orderId) == [] && DeleteItemsOf(rows, orderId) == rows
  {
    if rows != [] {
      var n := |rows| - 1;
      OtherItemsUntouched(rows[..n], orderId);
      assert rows == rows[..n] + [rows[n]];
    }
  }

  /** No item points at the id the next order will get. */
  lemma NoItemsForNextOrder(orders: Table<Order>, items: Table<OrderItem>)
    requires Consistent(orders, items)
    ensures forall i :: 0 <= i < |items.rows| ==> items.rows[i].val.orderId != orders.lastId + 1
  {
    forall i | 0 <= i < |items.rows| ensures items.rows[i].val.orderId != orders.lastId + 1 {
      var k :| 0 <= k < |orders.rows| && orders.rows[k].id == items.rows[i].val.orderId;
    }
  }

  /** Inserting a header with an unused orderCode keeps the tables consistent; no existing item
      points at the new order. */
  lemma PlaceHeaderConsistent(orders: Table<Order>, items: Table<OrderItem>, h: Order)
    requires Consistent(orders, items) && !CodeInUse(orders.rows, h.orderCode)
    ensures var placed := Insert(orders, h);
            Consistent(placed, items) && HasId(placed.rows, placed.lastId) &&
            forall i :: 0 <= i < |items.rows| ==> items.rows[i].val.orderId != placed.lastId
  {
    var placed := Insert(orders, h);
    assert placed.rows[|orders.rows|].id == placed.lastId;
    forall i | 0 <= i < |items.rows| ensures HasId(placed.rows, items.rows[i].val.orderId) {
      var k :| 0 <= k < |orders.rows| && orders.rows[k].id == items.rows[i].val.orderId;
      assert placed.rows[k] == orders.rows[k];
    }
  }

  /** Appending the item loop's rows keeps the item table well formed and its items pointing at
      existing orders. */
  lemma AppendItemsConsistent(orders: Table<Order>, items: Table<OrderItem>, orderId: int,
                              lines: seq<Row<CartLine>>)
    requires Consistent(orders, items) && HasId(orders.rows, orderId)
    ensures Consistent(orders, Table(items.rows + ItemRows(orderId, items.lastId + 1, lines),
                                     items.lastId + |lines|))
  {
    var added := ItemRows(orderId, items.lastId + 1, lines);
    var all := items.rows + added;
    forall i, j | 0 <= i < j < |all| ensures all[i].id < all[j].id {
      if j >= |items.rows| && i < |items.rows| {
        assert all[i].id <= items.lastId;
      }
    }
  }

  /** The outcome of createOrder: the two tables afterwards and the returned id (null as None). */
  datatype Placed = Placed(orders: Table<Order>, items: Table<OrderItem>, orderId: Option<int>)

  /** The item insert with index `failAt` fails, when there is such an item. */
  predicate ItemInsertFails(failAt: Option<nat>, count: nat)
  {
    failAt.Some? && failAt.value < count
  }

  /** Every item insert succeeds: the header `h`, which carries the cart's total, and one item
      per cart line stay, and the new order's items add up to the header's total. */
  function Complete(orders: Table<Order>, items: Table<OrderItem>, h: Order, lines: seq<Row<CartLine>>)
    : (r: Placed)
    requires Consistent(orders, items) && !CodeInUse(orders.rows, h.orderCode)
    requires h.totalPrice == Total(lines)
    ensures Consistent(r.orders, r.items)
    ensures r.orderId == Some(r.orders.lastId) && r.orders.lastId == orders.lastId + 1
    ensures r.items.lastId == items.lastId + |lines|
    ensures r.orders.rows == orders.rows + [Row(r.orders.lastId, h)]
    ensures r.items.rows == items.rows + ItemRows(r.orders.lastId, items.lastId + 1, lines)
    ensures ItemsOf(r.items.rows, r.orders.lastId) == ItemRows(r.orders.lastId, items.lastId + 1, lines)
    ensures ItemsTotal(ItemsOf(r.items.rows, r.orders.lastId)) == h.totalPrice
  {
    var placed := Insert(orders, h);
    var id := placed.lastId;
    PlaceHeaderConsistent(orders, items, h);
    var added := ItemRows(id, items.lastId + 1, lines);
    AppendItemsConsistent(placed, items, id, lines);
    SelectNewItems(items.rows, added, id);
    ItemsTotalMatchesTotal(id, items.lastId + 1, lines);
    Placed(placed, Table(items.rows + added, items.lastId + |lines|), Some(id))
  }

  /** The compensating deletes of createOrder undo the header insert and the item inserts. */
  lemma CompensationRestores(orders: Table<Order>, items: Table<OrderItem>, h: Order,
                             added: seq<Row<OrderItem>>)
    requires Consistent(orders, items) && !CodeInUse(orders.rows, h.orderCode)
    requires forall i :: 0 <= i < |added| ==> added[i].val.orderId == orders.lastId + 1
    ensures Delete(Insert(orders, h).rows, orders.lastId + 1) == orders.rows
    ensures DeleteItemsOf(items.rows + added, orders.lastId + 1) == items.rows
  {
    NoItemsForNextOrder(orders, items);
    DeleteNewItems(items.rows, added, orders.lastId + 1);
    DeleteAppended(orders.rows, Row(orders.lastId + 1, h));
  }

  /** Item insert number `done` fails after the header `h` and `done` items were written: the
      compensating deletes remove the new order's items and header, so both tables hold the rows
      they held before; the two AUTOINCREMENT counters stay advanced. */
  function Abandon(orders: Table<Order>, items: Table<OrderItem>, h: Order, lines: seq<Row<CartLine>>,
                   done: nat): (r: Placed)
    requires Consistent(orders, items) && !CodeInUse(orders.rows, h.orderCode) && done <= |lines|
    ensures Consistent(r.orders, r.items)
    ensures r.orderId == None
    ensures r.orders.rows == orders.rows && r.orders.lastId == orders.lastId + 1
    ensures r.items.rows == items.rows && r.items.lastId == items.lastId + done
  {
    var placed := Insert(orders, h);
    var id := placed.lastId;
    var added := ItemRows(id, items.lastId + 1, lines[..done]);
    CompensationRestores(orders, items, h, added);
    var kept := Table(Delete(placed.rows, id), id);
    var keptItems := Table(DeleteItemsOf(items.rows + added, id), items.lastId + done);
    assert kept == Table(orders.rows, id) && keptItems == Table(items.rows, items.lastId + done);
    RaiseLastId(orders, id);
    RaiseLastId(items, items.lastId + done);
    Placed(kept, keptItems, None)
  }

  /** createOrder: insert the header with the cart's total and status 'pending', then one item per
      cart line in order; when item `failAt` fails, delete the order's items and its header and
      return null. A used orderCode makes the header insert fail under `orderCode TEXT UNIQUE`. */
  function CreateOrder(orders: Table<Order>, items: Table<OrderItem>, c: Customer,
                       lines: seq<Row<CartLine>>, orderCode: string, createdAt: string,
                       failAt: Option<nat>): (r: Placed)
    requires Consistent(orders, items)
    ensures Consistent(r.orders, r.items)
    ensures CodeInUse(orders.rows, orderCode) ==> r == Placed(orders, items, None)
    ensures !CodeInUse(orders.rows, orderCode) && ItemInsertFails(failAt, |lines|) ==>
              r.orderId == None &&
              r.orders.rows == orders.rows && r.items.rows == items.rows &&
              r.orders.lastId == orders.lastId + 1 && r.items.lastId == items.lastId + failAt.value
    ensures !CodeInUse(orders.rows, orderCode) && !ItemInsertFails(failAt, |lines|) ==>
              r.orderId == Some(r.orders.lastId) && r.orders.lastId == orders.lastId + 1 &&
              r.orders.rows == orders.rows + [Row(r.orders.lastId, Header(orderCode, c, lines, createdAt))] &&
              r.items.rows == items.rows + ItemRows(r.orders.lastId, items.lastId + 1, lines) &&
              r.items.lastId == items.lastId + |lines|
  {
    if CodeInUse(orders.rows, orderCode) then Placed(orders, items, None)
    else if ItemInsertFails(failAt, |lines|) then
      Abandon(orders, items, Header(orderCode, c, lines, createdAt), lines, failAt.value)
    else Complete(orders, items, Header(orderCode, c, lines, createdAt), lines)
  }

  /** createOrder when item insert `failAt` fails, spelled out step by step: the header insert,
      the items written before the failure, then the two compensating deletes. */
  lemma AbandonSteps(orders: Table<Order>, items: Table<OrderItem>, c: Customer,
                     lines: seq<Row<CartLine>>, orderCode: string, createdAt: string, failAt: Option<nat>)
    requires Consistent(orders, items) && !CodeInUse(orders.rows, orderCode)
    requires ItemInsertFails(failAt, |lines|)
    ensures var placed := Insert(orders, Header(orderCode, c, lines, createdAt));
            var id := placed.lastId;
            var added := items.rows + ItemRows(id, items.lastId + 1, lines[..failAt.value]);
            CreateOrder(orders, items, c, lines, orderCode, createdAt, failAt) ==
            Placed(Table(Delete(placed.rows, id), id),
                   Table(DeleteItemsOf(added, id), items.lastId + failAt.value), None)
  {
    AbandonedCase(orders, items, c, lines, orderCode, createdAt, failAt);
    var id := orders.lastId + 1;
    CompensationRestores(orders, items, Header(orderCode, c, lines, createdAt),
                         ItemRows(id, items.lastId + 1, lines[..failAt.value]));
  }

  /** createOrder when every item insert succeeds, spelled out step by step. */
  lemma CompleteSteps(orders: Table<Order>, items: Table<OrderItem>, c: Customer,
                      lines: seq<Row<CartLine>>, orderCode: string, createdAt: string, failAt: Option<nat>)
    requires Consistent(orders, items) && !CodeInUse(orders.rows, orderCode)
    requires !ItemInsertFails(failAt, |lines|)
    ensures var placed := Insert(orders, Header(orderCode, c, lines, createdAt));
            var id := placed.lastId;
            CreateOrder(orders, items, c, lines, orderCode, createdAt, failAt) ==
            Placed(placed, Table(items.rows + ItemRows(id, items.lastId + 1, lines[..|lines|]),
                                 items.lastId + |lines|), Some(id))
  {
    CompletedCase(orders, items, c, lines, orderCode, createdAt, failAt);
    assert lines[..|lines|] == lines;
  }

  /** With a free orderCode, createOrder is Abandon when an item insert fails ... */
  lemma AbandonedCase(orders: Table<Order>, items: Table<OrderItem>, c: Customer,
                      lines: seq<Row<CartLine>>, orderCode: string, createdAt: string, failAt: Option<nat>)
    requires Consistent(orders, items) && !CodeInUse(orders.rows, orderCode)
    requires ItemInsertFails(failAt, |lines|)
    ensures CreateOrder(orders, items, c, lines, orderCode, createdAt, failAt) ==
            Abandon(orders, items, Header(orderCode, c, lines, createdAt), lines, failAt.value)
  {
  }

  /** ... and Complete when none does. */
  lemma CompletedCase(orders: Table<Order>, items: Table<OrderItem>, c: Customer,
                      lines: seq<Row<CartLine>>, orderCode: string, createdAt: string, failAt: Option<nat>)
    requires Consistent(orders, items) && !CodeInUse(orders.rows, orderCode)
    requires !ItemInsertFails(failAt, |lines|)
    ensures CreateOrder(orders, items, c, lines, orderCode, createdAt, failAt) ==
            Complete(orders, items, Header(orderCode, c, lines, createdAt), lines)
  {
  }

  /** `ORDER BY createdAt DESC`: every order is listed no earlier than the orders created
      after it (createdAt compared as text). */
  predicate NewestFirstOrder(s: seq<Row<Order>>)
  {
    forall i, j :: 0 <= i < j < |s| ==> Le(s[j].val.createdAt, s[i].val.createdAt)
  }

  function InsertByDate(x: Row<Order>, s: seq<Row<Order>>): (r: seq<Row<Order>>)
    ensures multiset(r) == multiset(s) + multiset{x}
  {
    if s == [] then [x]
    else if Le(s[0].val.createdAt, x.val.createdAt) then [x] + s
    else
      assert s == [s[0]] + s[1..];
      [s[0]] + InsertByDate(x, s[1..])
  }

  /** The order the engine returns the orders table in for `ORDER BY createdAt DESC`. */
  function NewestFirst(s: seq<Row<Order>>): (r: seq<Row<Order>>)
    ensures multiset(r) == multiset(s)
  {
    if s == [] then []
    else
      assert s == [s[0]] + s[1..];
      InsertByDate(s[0], NewestFirst(s[1..]))
  }

  /** An order at least as new as the newest of a sorted list can go in front of it. */
  lemma PrependNewest(x: Row<Order>, s: seq<Row<Order>>)
    requires NewestFirstOrder(s) && s != [] && Le(s[0].val.createdAt, x.val.createdAt)
    ensures NewestFirstOrder([x] + s)
  {
    var r := [x] + s;
    forall j | 1 <= j < |r| ensures Le(r[j].val.createdAt, x.val.createdAt) {
      if j > 1 {
        LeTransitive(s[j - 1].val.createdAt, s[0].val.createdAt, x.val.createdAt);
      }
    }
  }

  lemma {:induction false} InsertByDateSorted(x: Row<Order>, s: seq<Row<Order>>)
    requires NewestFirstOrder(s)
    ensures NewestFirstOrder(InsertByDate(x, s))
  {
    if s == [] {
    } else if Le(s[0].val.createdAt, x.val.createdAt) {
      PrependNewest(x, s);
    } else {
      InsertByDateSorted(x, s[1..]);
      LeTotal(s[0].val.createdAt, x.val.createdAt);
      var rest := InsertByDate(x, s[1..]);
      forall j | 0 <= j < |rest| ensures Le(rest[j].val.createdAt, s[0].val.createdAt) {
        assert rest[j] in multiset(rest);
        assert rest[j] == x || rest[j] in s[1..];
      }
      assert InsertByDate(x, s) == [s[0]] + rest;
    }
  }

  lemma {:induction false} NewestFirstSorted(s: seq<Row<Order>>)
    ensures NewestFirstOrder(NewestFirst(s))
  {
    if s != [] {
      NewestFirstSorted(s[1..]);
      InsertByDateSorted(s[0], NewestFirst(s[1..]));
    }
  }

  /** One entry of fetchOrders: the order row with its items attached. */
  datatype OrderView = OrderView(order: Row<Order>, items: seq<Row<OrderItem>>)

  function Views(sorted: seq<Row<Order>>, items: seq<Row<OrderItem>>): (r: seq<OrderView>)
    ensures |r| == |sorted|
  {
    seq(|sorted|, k requires 0 <= k < |sorted| => OrderView(sorted[k], ItemsOf(items, sorted[k].id)))
  }

  function Headers(views: seq<OrderView>): (r: seq<Row<Order>>)
    ensures |r| == |views|
  {
    seq(|views|, k requires 0 <= k < |views| => views[k].order)
  }

  /** fetchOrders: with a (truthy) user id the query names a column the orders table does not
      have, the error is caught and the list is empty; otherwise every order, newest first, each
      with its own items. */
  function FetchOrders(orders: seq<Row<Order>>, items: seq<Row<OrderItem>>, userId: Option<int>)
    : (r: seq<OrderView>)
    ensures Given(userId) ==> r == []
    ensures !Given(userId) ==>
              multiset(Headers(r)) == multiset(orders) && NewestFirstOrder(Headers(r)) &&
              forall k :: 0 <= k < |r| ==> r[k].items == ItemsOf(items, r[k].order.id)
  {
    if Given(userId) then []
    else
      var sorted := NewestFirst(orders);
      NewestFirstSorted(orders);
      var r := Views(sorted, items);
      assert Headers(r) == sorted;
      r
  }

  /** updateOrderStatus: `UPDATE orders SET status = ? WHERE id = ?`, any text accepted. */
  function SetStatus(rows: seq<Row<Order>>, id: int, status: string): (r: seq<Row<Order>>)
    ensures |r| == |rows|
    ensures forall i :: 0 <= i < |rows| ==> r[i].id == rows[i].id
    ensures forall i :: 0 <= i < |rows| ==>
              r[i].val == if rows[i].id == id then rows[i].val.(status := status) else rows[i].val
  {
    seq(|rows|, i requires 0 <= i < |rows| =>
      if rows[i].id == id then Row(id, rows[i].val.(status := status)) else rows[i])
  }

  /** A status change keeps the tables consistent (no transition is refused). */
  lemma SetStatusConsistent(orders: Table<Order>, items: Table<OrderItem>, id: int, status: string)
    requires Consistent(orders, items)
    ensures Consistent(Table(SetStatus(orders.rows, id, status), orders.lastId), items)
  {
    var r := SetStatus(orders.rows, id, status);
    forall i | 0 <= i < |items.rows| ensures HasId(r, items.rows[i].val.orderId) {
      assert HasId(orders.rows, items.rows[i].val.orderId);
      var k :| 0 <= k < |orders.rows| && orders.rows[k].id == items.rows[i].val.orderId;
      assert r[k].id == orders.rows[k].id;
    }
  }

  /** After updateOrderStatus(id, s) the listing shows order `id` with status s and every other
      column, totalPrice included, as before. */
  lemma StatusChangeListed(orders: seq<Row<Order>>, items: seq<Row<OrderItem>>, k: nat, status: string)
    requires k < |orders|
    ensures var updated := SetStatus(orders, orders[k].id, status);
            Row(orders[k].id, orders[k].val.(status := status)) in
              Headers(FetchOrders(updated, items, None))
  {
    var updated := SetStatus(orders, orders[k].id, status);
    assert updated[k] == Row(orders[k].id, orders[k].val.(status := status));
    assert updated[k] in multiset(updated);
  }

  /** Every order row is listed by fetchOrders (without a user id), with its own items. */
  lemma ListedWithItems(orders: seq<Row<Order>>, items: seq<Row<OrderItem>>, j: nat)
    requires j < |orders|
    ensures var listed := FetchOrders(orders, items, None);
            exists k :: 0 <= k < |listed| && listed[k].order == orders[j] &&
              listed[k].items == ItemsOf(items, orders[j].id)
  {
    var listed := FetchOrders(orders, items, None);
    var row := orders[j];
    assert row in multiset(orders);
    assert row in multiset(Headers(listed));
    var k :| 0 <= k < |listed| && Headers(listed)[k] == row;
  }

  /** An order createOrder reports as placed is listed by fetchOrders with exactly the items
      created for it, which add up to its totalPrice. */
  lemma PlacedOrderListed(orders: Table<Order>, items: Table<OrderItem>, c: Customer,
                          lines: seq<Row<CartLine>>, orderCode: string, createdAt: string,
                          failAt: Option<nat>)
    requires Consistent(orders, items)
    requires CreateOrder(orders, items, c, lines, orderCode, createdAt, failAt).orderId.Some?
    ensures var p := CreateOrder(orders, items, c, lines, orderCode, createdAt, failAt);
            var listed := FetchOrders(p.orders.rows, p.items.rows, None);
            exists k :: 0 <= k < |listed| &&
              listed[k].order == Row(p.orderId.value, Header(orderCode, c, lines, createdAt)) &&
              listed[k].items == ItemRows(p.orderId.value, items.lastId + 1, lines) &&
              ItemsTotal(listed[k].items) == listed[k].order.val.totalPrice
  {
    assert !CodeInUse(orders.rows, orderCode) && !ItemInsertFails(failAt, |lines|);
    CompletedCase(orders, items, c, lines, orderCode, createdAt, failAt);
    CompletedOrderListed(orders, items, Header(orderCode, c, lines, createdAt), lines);
  }

  /** The same for the tables Complete leaves: the new header is listed with its items. */
  lemma CompletedOrderListed(orders: Table<Order>, items: Table<OrderItem>, h: Order, lines: seq<Row<CartLine>>)
    requires Consistent(orders, items) && !CodeInUse(orders.rows, h.orderCode)
    requires h.totalPrice == Total(lines)
    ensures var p := Complete(orders, items, h, lines);
            var listed := FetchOrders(p.orders.rows, p.items.rows, None);
            exists k :: 0 <= k < |listed| &&
              listed[k].order == Row(p.orders.lastId, h) &&
              listed[k].items == ItemRows(p.orders.lastId, items.lastId + 1, lines) &&
              ItemsTotal(listed[k].items) == listed[k].order.val.totalPrice
  {
    var p := Complete(orders, items, h, lines);
    ListedWithItems(p.orders.rows, p.items.rows, |orders.rows|);
    CompletedItemsListed(orders, items, h, lines);
    ItemsTotalMatchesTotal(p.orders.lastId, items.lastId + 1, lines);
  }

  /** Wherever fetchOrders lists the new header, it lists exactly the items made for it. */
  lemma CompletedItemsListed(orders: Table<Order>, items: Table<OrderItem>, h: Order, lines: seq<Row<CartLine>>)
    requires Consistent(orders, items) && !CodeInUse(orders.rows, h.orderCode)
    requires h.totalPrice == Total(lines)
    ensures var p := Complete(orders, items, h, lines);
            var listed := FetchOrders(p.orders.rows, p.items.rows, None);
            forall k :: 0 <= k < |listed| && listed[k].order == Row(p.orders.lastId, h) ==>
              listed[k].items == ItemRows(p.orders.lastId, items.lastId + 1, lines)
  {
  }
}
