/** The cart: merge-or-insert, listing, quantity changes and removal (database.ts:460-565). */
module CartStore {
  import opened Tables
  import opened Records

  /** The WHERE clause `productId = ?`, with `AND userId = ?` only when a user id is given.
      A NULL userId column never equals a given id. */
  predicate Matches(line: CartLine, productId: int, userId: Option<int>)
  {
    line.productId == productId && (Given(userId) ==> line.userId == Some(userId.value))
  }

  predicate HasMatch(rows: seq<Row<CartLine>>, productId: int, userId: Option<int>)
  {
    exists i :: 0 <= i < |rows| && Matches(rows[i].val, productId, userId)
  }

  /** `UPDATE cart SET quantity = quantity + ? WHERE productId = ? [AND userId = ?]`. */
  function AddQuantity(rows: seq<Row<CartLine>>, productId: int, userId: Option<int>, quantity: int)
    : (r: seq<Row<CartLine>>)
    ensures |r| == |rows|
    ensures forall i :: 0 <= i < |rows| ==>
              r[i].id == rows[i].id &&
              r[i].val == if Matches(rows[i].val, productId, userId)
                          then rows[i].val.(quantity := rows[i].val.quantity + quantity)
                          else rows[i].val
  {
    seq(|rows|, i requires 0 <= i < |rows| =>
      if Matches(rows[i].val, productId, userId)
      then Row(rows[i].id, rows[i].val.(quantity := rows[i].val.quantity + quantity))
      else rows[i])
  }

  /** The line addToCart inserts: a snapshot of the product's name, price and image; the user
      column is left NULL when no user id is given. */
  function NewLine(product: Row<Product>, quantity: int, userId: Option<int>): (r: CartLine)
    ensures Matches(r, product.id, userId)
    ensures r.productName == product.val.name && r.productPrice == product.val.price &&
            r.productImg == product.val.img && r.quantity == quantity
    ensures !Given(userId) ==> r.userId == None
  {
    CartLine(product.id, product.val.name, product.val.price, product.val.img, quantity,
             if Given(userId) then Some(userId.value) else None)
  }

  /** addToCart: when some line matches, every matching line grows by `quantity` and no line is
      added; otherwise exactly one new line is inserted. */
  function AddToCart(t: Table<CartLine>, product: Row<Product>, quantity: int, userId: Option<int>)
    : (r: Table<CartLine>)
    requires WellFormed(t)
    ensures WellFormed(r)
    ensures HasMatch(t.rows, product.id, userId) ==>
              r.lastId == t.lastId && |r.rows| == |t.rows| &&
              forall i :: 0 <= i < |t.rows| ==>
                r.rows[i].id == t.rows[i].id &&
                r.rows[i].val == if Matches(t.rows[i].val, product.id, userId)
                                 then t.rows[i].val.(quantity := t.rows[i].val.quantity + quantity)
                                 else t.rows[i].val
    ensures !HasMatch(t.rows, product.id, userId) ==>
              r.rows == t.rows + [Row(r.lastId, NewLine(product, quantity, userId))] &&
              r.lastId == t.lastId + 1 && !HasId(t.rows, r.lastId)
  {
    if HasMatch(t.rows, product.id, userId)
    then Table(AddQuantity(t.rows, product.id, userId, quantity), t.lastId)
    else Insert(t, NewLine(product, quantity, userId))
  }

  /** Adding the same product twice in the same scope yields one line whose quantity is the sum:
      addItem(P, 2) then addItem(P, 3) leaves a single line of 5. */
  lemma AddTwiceMerges(t: Table<CartLine>, product: Row<Product>, q1: int, q2: int, userId: Option<int>)
    requires WellFormed(t)
    requires !HasMatch(t.rows, product.id, userId)
    ensures AddToCart(AddToCart(t, product, q1, userId), product, q2, userId).rows ==
            t.rows + [Row(t.lastId + 1, NewLine(product, q1 + q2, userId))]
  {
    var t1 := AddToCart(t, product, q1, userId);
    var n := |t.rows|;
    assert Matches(t1.rows[n].val, product.id, userId);
    var t2 := AddToCart(t1, product, q2, userId);
    assert t2.rows[n] == Row(t.lastId + 1, NewLine(product, q1 + q2, userId));
    assert t2.rows == t.rows + [t2.rows[n]];
  }

  /** Without a (truthy) user id, addToCart matches the product's lines of every owner: a signed-in
      user's line for that product is incremented by an anonymous add. */
  lemma AnonymousAddTouchesEveryOwner(t: Table<CartLine>, product: Row<Product>, quantity: int,
                                      userId: Option<int>, k: nat)
    requires WellFormed(t) && !Given(userId)
    requires k < |t.rows| && t.rows[k].val.productId == product.id
    ensures AddToCart(t, product, quantity, userId).rows[k].val.quantity ==
            t.rows[k].val.quantity + quantity
  {
    assert HasMatch(t.rows, product.id, userId);
  }

  /** updateCartQuantity: a quantity of zero or less deletes line `id`; a positive one overwrites
      its quantity. */
  function UpdateCartQuantity(rows: seq<Row<CartLine>>, id: int, quantity: int): (r: seq<Row<CartLine>>)
    ensures quantity <= 0 ==>
              (!HasId(r, id) &&
               (forall i :: 0 <= i < |r| ==> r[i] in rows) &&
               (forall i :: 0 <= i < |rows| && rows[i].id != id ==> rows[i] in r))
    ensures quantity > 0 ==>
              |r| == |rows| &&
              forall i :: 0 <= i < |rows| ==>
                r[i] == if rows[i].id == id then Row(id, rows[i].val.(quantity := quantity)) else rows[i]
    ensures Ordered(rows) ==> Ordered(r)
  {
    if quantity <= 0 then DeleteOrdered(rows, id); Delete(rows, id)
    else seq(|rows|, i requires 0 <= i < |rows| =>
           if rows[i].id == id then Row(id, rows[i].val.(quantity := quantity)) else rows[i])
  }

  predicate AllPositive(rows: seq<Row<CartLine>>)
  {
    forall i :: 0 <= i < |rows| ==> rows[i].val.quantity > 0
  }

  /** When every line's quantity is positive, it stays positive after updateCartQuantity, whatever
      quantity it is given. (A line addToCart stored with a quantity of 0 or less is not touched
      by an update of another line; see UpdatedLinePositive for what holds on any cart.) */
  lemma UpdateKeepsPositive(rows: seq<Row<CartLine>>, id: int, quantity: int)
    requires AllPositive(rows)
    ensures AllPositive(UpdateCartQuantity(rows, id, quantity))
  {
    var r := UpdateCartQuantity(rows, id, quantity);
    forall i | 0 <= i < |r| ensures r[i].val.quantity > 0 {
      if quantity <= 0 {
        var j :| 0 <= j < |rows| && rows[j] == r[i];
      }
    }
  }

  /** On any cart, updateCartQuantity leaves no line with id `id` at a quantity of 0 or less:
      it is either deleted or set to the positive quantity given. */
  lemma UpdatedLinePositive(rows: seq<Row<CartLine>>, id: int, quantity: int)
    ensures var r := UpdateCartQuantity(rows, id, quantity);
            forall i :: 0 <= i < |r| && r[i].id == id ==> r[i].val.quantity > 0
  {
    var r := UpdateCartQuantity(rows, id, quantity);
    if quantity > 0 {
      forall i | 0 <= i < |r| && r[i].id == id ensures r[i].val.quantity > 0 {
        assert r[i] == Row(id, rows[i].val.(quantity := quantity));
      }
    }
  }

  /** addToCart does not keep quantities positive: adding a quantity of 0 to an empty cart stores
      a line of quantity 0. */
  lemma AddToCartMayStoreNonPositive(t: Table<CartLine>, product: Row<Product>, userId: Option<int>)
    requires WellFormed(t) && t.rows == []
    ensures !AllPositive(AddToCart(t, product, 0, userId).rows)
  {
    assert AddToCart(t, product, 0, userId).rows[0].val.quantity == 0;
  }

  /** fetchCart: `SELECT * FROM cart`, filtered by `userId = ?` only when a user id is given. */
  function CartOf(rows: seq<Row<CartLine>>, userId: Option<int>): (r: seq<Row<CartLine>>)
    ensures !Given(userId) ==> r == rows
    ensures Given(userId) ==>
              (forall i :: 0 <= i < |r| ==> r[i] in rows && r[i].val.userId == Some(userId.value)) &&
              (forall i :: 0 <= i < |rows| && rows[i].val.userId == Some(userId.value) ==> rows[i] in r)
    ensures Ordered(rows) ==> Ordered(r)
  {
    if !Given(userId) then rows
    else
      var keep := (c: Row<CartLine>) => c.val.userId == Some(userId.value);
      WhereOrdered(rows, keep);
      Where(rows, keep)
  }
}
