/** The database module as a whole: one object holding the seven tables, whose methods are the
    exported functions of database.ts, each changing only the tables its statements touch. */
module Store {
  import opened Tables
  import opened Records
  import Catalog
  import Identity
  import CartStore
  import Orders
  import Profiles
  import Schema

  /** The contents of the seven tables. */
  datatype State = State(
    categories: seq<Row<Category>>,
    products: Table<Product>,
    users: Table<User>,
    cart: Table<CartLine>,
    orders: Table<Order>,
    orderItems: Table<OrderItem>,
    userProfiles: Table<Profile>)

  /** The schema's keys and UNIQUE constraints, and every order item pointing at an order. */
  predicate Invariant(s: State)
  {
    Ordered(s.categories) &&
    WellFormed(s.products) && DistinctNames(s.products.rows) &&
    WellFormed(s.users) && DistinctUsernames(s.users.rows) &&
    WellFormed(s.cart) &&
    Orders.Consistent(s.orders, s.orderItems) &&
    WellFormed(s.userProfiles) && DistinctProfileUsers(s.userProfiles.rows)
  }

  /** The `for (let i = 0; i < rows.length; i++) items.push(rows.item(i))` every query result
      goes through. */
  method Collect<T>(rows: seq<T>) returns (items: seq<T>)
    ensures items == rows
  {
    items := [];
    for i := 0 to |rows|
      invariant items == rows[..i]
    {
      items := items + [rows[i]];
    }
  }

  /** `initialCategories.forEach(...)`: one INSERT OR IGNORE per default category, in order. */
  method SeedCategoriesLoop(categories: seq<Row<Category>>) returns (r: seq<Row<Category>>)
    requires Ordered(categories)
    ensures r == Schema.SeedCategories(categories, Schema.InitialCategories)
  {
    var seeds := Schema.InitialCategories;
    r := categories;
    var i := 0;
    while i < |seeds|
      invariant 0 <= i <= |seeds| && Ordered(r)
      invariant Schema.SeedCategories(r, seeds[i..]) == Schema.SeedCategories(categories, seeds)
    {
      assert seeds[i..][1..] == seeds[i + 1..];
      r := Schema.InsertOrIgnore(r, seeds[i]);
      i := i + 1;
    }
  }

  /** The COUNT(*) check and, on an empty table, `initialProducts.forEach(...)` of INSERTs. */
  method SeedProductsLoop(products: Table<Product>) returns (r: Table<Product>)
    requires WellFormed(products)
    ensures r == Schema.SeedProducts(products)
  {
    r := products;
    if |products.rows| == 0 {
      var defaults := Schema.InitialProducts;
      var k := 0;
      while k < |defaults|
        invariant 0 <= k <= |defaults| && WellFormed(r)
        invariant Schema.InsertAll(r, defaults[k..]) == Schema.InsertAll(products, defaults)
      {
        assert defaults[k..][1..] == defaults[k + 1..];
        r := Insert(r, defaults[k]);
        k := k + 1;
      }
    }
  }

  /** The `for (const item of cartItems)` loop of createOrder: one orderItems INSERT per cart
      line, in order, stopping at insert number `failAt` when that one fails. */
  method InsertItems(items: Table<OrderItem>, orderId: int, lines: seq<Row<CartLine>>, failAt: Option<nat>)
    returns (r: Table<OrderItem>, inserted: nat)
    requires WellFormed(items)
    ensures inserted <= |lines|
    ensures Orders.ItemInsertFails(failAt, |lines|) ==> inserted == failAt.value
    ensures !Orders.ItemInsertFails(failAt, |lines|) ==> inserted == |lines|
    ensures r == Table(items.rows + Orders.ItemRows(orderId, items.lastId + 1, lines[..inserted]),
                       items.lastId + inserted)
  {
    r := items;
    inserted := 0;
    while inserted < |lines| && failAt != Some(inserted)
      invariant inserted <= |lines| && WellFormed(r)
      invariant !(failAt.Some? && failAt.value < inserted)
      invariant r == Table(items.rows + Orders.ItemRows(orderId, items.lastId + 1, lines[..inserted]),
                           items.lastId + inserted)
    {
      Orders.ItemRowsSnoc(orderId, items.lastId + 1, lines, inserted);
      r := Insert(r, Orders.ItemFor(orderId, lines[inserted].val));
      inserted := inserted + 1;
    }
  }

  /** The body of createOrder past the header's UNIQUE check: the header insert, the item loop
      and, when an item insert fails, the compensating deletes. */
  method PlaceOrder(orders: Table<Order>, items: Table<OrderItem>, c: Orders.Customer,
                    lines: seq<Row<CartLine>>, orderCode: string, createdAt: string, failAt: Option<nat>)
    returns (r: Orders.Placed)
    requires Orders.Consistent(orders, items) && !Orders.CodeInUse(orders.rows, orderCode)
    ensures r == Orders.CreateOrder(orders, items, c, lines, orderCode, createdAt, failAt)
  {
    var h := Orders.Header(orderCode, c, lines, createdAt);
    var placed := Insert(orders, h);
    var id := placed.lastId;
    var added, inserted := InsertItems(items, id, lines, failAt);
    if inserted < |lines| {
      Orders.AbandonSteps(orders, items, c, lines, orderCode, createdAt, failAt);
      r := Orders.Placed(Table(Delete(placed.rows, id), id),
                         Table(Orders.DeleteItemsOf(added.rows, id), added.lastId), None);
    } else {
      Orders.CompleteSteps(orders, items, c, lines, orderCode, createdAt, failAt);
      r := Orders.Placed(placed, added, Some(id));
    }
  }

  /** The loop of fetchOrders: for each order row in turn, the `SELECT * FROM orderItems WHERE
      orderId = ?` result copied out and attached to the order. */
  method AttachItems(sorted: seq<Row<Order>>, items: seq<Row<OrderItem>>) returns (r: seq<Orders.OrderView>)
    ensures r == Orders.Views(sorted, items)
  {
    r := [];
    for i := 0 to |sorted|
      invariant |r| == i
      invariant forall k :: 0 <= k < i ==> r[k] == Orders.OrderView(sorted[k], Orders.ItemsOf(items, sorted[k].id))
    {
      var attached := Collect(Orders.ItemsOf(items, sorted[i].id));
      r := r + [Orders.OrderView(sorted[i], attached)];
    }
  }

  /** Replacing the two order tables by consistent ones keeps the whole store valid. */
  lemma PlacedKeepsInvariant(s: State, p: Orders.Placed)
    requires Invariant(s) && Orders.Consistent(p.orders, p.items)
    ensures Invariant(s.(orders := p.orders, orderItems := p.items))
  {
  }

  class Database {
    var categories: seq<Row<Category>>
    var products: Table<Product>
    var users: Table<User>
    var cart: Table<CartLine>
    var orders: Table<Order>
    var orderItems: Table<OrderItem>
    var userProfiles: Table<Profile>

    function Snapshot(): State
      reads this
    {
      State(categories, products, users, cart, orders, orderItems, userProfiles)
    }

    predicate Valid()
      reads this
    {
      Invariant(Snapshot())
    }

    /** A database file with the seven tables created and nothing in them. */
    constructor ()
      ensures Valid()
      ensures Snapshot() == State([], Table([], 0), Table([], 0), Table([], 0), Table([], 0),
                                  Table([], 0), Table([], 0))
    {
      categories := [];
      products := Table([], 0);
      users := Table([], 0);
      cart := Table([], 0);
      orders := Table([], 0);
      orderItems := Table([], 0);
      userProfiles := Table([], 0);
    }

    /** initDatabase: the five categories by id with INSERT OR IGNORE, the five products when
        the product table is empty, the admin account when no account is called 'admin'. */
    method InitDatabase()
      requires Valid()
      modifies this
      ensures Valid()
      ensures Snapshot() == old(Snapshot()).(
                categories := Schema.SeedCategories(old(categories), Schema.InitialCategories),
                products := Schema.SeedProducts(old(products)),
                users := Schema.SeedAdmin(old(users)))
    {
      var cats := SeedCategoriesLoop(categories);
      var prods := SeedProductsLoop(products);
      Schema.SeedProductsEffect(products);
      Schema.SeedAdminIdempotent(users);
      var accounts := users;
      if !Identity.UsernameInUse(accounts.rows, Schema.Admin.username) {
        accounts := Insert(accounts, Schema.Admin);
      }
      categories, products, users := cats, prods, accounts;
    }

    method FetchCategories() returns (r: seq<Row<Category>>)
      ensures r == categories
    {
      r := Collect(categories);
    }

    method AddCategory(name: string)
      requires Valid()
      modifies this
      ensures Valid()
      ensures Snapshot() == old(Snapshot()).(categories := Catalog.AddCategory(old(categories), name))
    {
      categories := Catalog.AddCategory(categories, name);
    }

    /** updateCategory: `UPDATE categories SET name = ? WHERE id = ?`. */
    method UpdateCategory(id: int, name: string)
      requires Valid()
      modifies this
      ensures Valid()
      ensures Snapshot() == old(Snapshot()).(categories := Replace(old(categories), id, Category(name)))
    {
      categories := Replace(categories, id, Category(name));
    }

    /** deleteCategory: the row goes; the products referring to it stay. */
    method DeleteCategory(id: int)
      requires Valid()
      modifies this
      ensures Valid()
      ensures Snapshot() == old(Snapshot()).(categories := Delete(old(categories), id))
    {
      DeleteOrdered(categories, id);
      categories := Delete(categories, id);
    }

    method FetchProducts() returns (r: seq<Row<Product>>)
      ensures r == products.rows
    {
      r := Collect(products.rows);
    }

    method AddProduct(p: Product)
      requires Valid()
      modifies this
      ensures Valid()
      ensures Snapshot() == old(Snapshot()).(products := Catalog.AddProduct(old(products), p))
    {
      products := Catalog.AddProduct(products, p);
    }

    method UpdateProduct(p: Row<Product>)
      requires Valid()
      modifies this
      ensures Valid()
      ensures Snapshot() == old(Snapshot()).(
                products := Table(Catalog.UpdateProduct(old(products).rows, p), old(products).lastId))
    {
      var rows := Catalog.UpdateProduct(products.rows, p);
      forall i | 0 <= i < |rows| ensures 1 <= rows[i].id <= products.lastId {
        if !Catalog.NameHeldByOther(products.rows, p.id, p.val.name) {
          assert rows[i].id == products.rows[i].id;
        }
      }
      products := Table(rows, products.lastId);
    }

    method DeleteProduct(id: int)
      requires Valid()
      modifies this
      ensures Valid()
      ensures Snapshot() == old(Snapshot()).(
                products := Table(Delete(old(products).rows, id), old(products).lastId))
    {
      DeleteOrdered(products.rows, id);
      var rows := Delete(products.rows, id);
      forall i, j | 0 <= i < j < |rows| ensures rows[i].val.name != rows[j].val.name {
        var a :| 0 <= a < |products.rows| && products.rows[a] == rows[i];
        var b :| 0 <= b < |products.rows| && products.rows[b] == rows[j];
      }
      forall i | 0 <= i < |rows| ensures 1 <= rows[i].id <= products.lastId {
        var a :| 0 <= a < |products.rows| && products.rows[a] == rows[i];
      }
      products := Table(rows, products.lastId);
    }

    /** fetchProductsByCategory: the rows the WHERE clause selects, in table order. */
    method FetchProductsByCategory(categoryId: int) returns (r: seq<Row<Product>>)
      ensures r == Catalog.InCategory(products.rows, categoryId)
    {
      r := Collect(Catalog.InCategory(products.rows, categoryId));
    }

    method SearchProductsByNameOrCategory(keyword: string) returns (r: seq<Row<Product>>)
      ensures r == Catalog.Search(products.rows, categories, keyword)
    {
      r := Collect(Catalog.Search(products.rows, categories, keyword));
    }

    method AddUser(username: string, password: string, role: string) returns (ok: bool)
      requires Valid()
      modifies this
      ensures Valid()
      ensures var added := Identity.AddUser(old(users), username, password, role);
              ok == added.1 && Snapshot() == old(Snapshot()).(users := added.0)
    {
      var added := Identity.AddUser(users, username, password, role);
      users := added.0;
      ok := added.1;
    }

    method UpdateUser(u: Row<User>)
      requires Valid()
      modifies this
      ensures Valid()
      ensures Snapshot() == old(Snapshot()).(
                users := Table(Identity.UpdateUser(old(users).rows, u), old(users).lastId))
    {
      var rows := Identity.UpdateUser(users.rows, u);
      forall i | 0 <= i < |rows| ensures 1 <= rows[i].id <= users.lastId {
        if !Identity.UsernameHeldByOther(users.rows, u.id, u.val.username) {
          assert rows[i].id == users.rows[i].id;
        }
      }
      users := Table(rows, users.lastId);
    }

    /** deleteUser: the account goes; its cart lines and profile stay. */
    method DeleteUser(id: int)
      requires Valid()
      modifies this
      ensures Valid()
      ensures Snapshot() == old(Snapshot()).(users := Table(Delete(old(users).rows, id), old(users).lastId))
    {
      DeleteOrdered(users.rows, id);
      var rows := Delete(users.rows, id);
      forall i, j | 0 <= i < j < |rows| ensures rows[i].val.username != rows[j].val.username {
        var a :| 0 <= a < |users.rows| && users.rows[a] == rows[i];
        var b :| 0 <= b < |users.rows| && users.rows[b] == rows[j];
      }
      forall i | 0 <= i < |rows| ensures 1 <= rows[i].id <= users.lastId {
        var a :| 0 <= a < |users.rows| && users.rows[a] == rows[i];
      }
      users := Table(rows, users.lastId);
    }

    method FetchUsers() returns (r: seq<Row<User>>)
      ensures r == users.rows
    {
      r := Collect(users.rows);
    }

    method GetUserByCredentials(username: string, password: string) returns (r: Option<Row<User>>)
      ensures r == Identity.Credentials(users.rows, username, password)
    {
      r := Identity.Credentials(users.rows, username, password);
    }

    method GetUserById(id: int) returns (r: Option<Row<User>>)
      ensures r == Get(users.rows, id)
    {
      r := Get(users.rows, id);
    }

    method AddToCart(product: Row<Product>, quantity: int, userId: Option<int>)
      requires Valid()
      modifies this
      ensures Valid()
      ensures Snapshot() == old(Snapshot()).(cart := CartStore.AddToCart(old(cart), product, quantity, userId))
    {
      cart := CartStore.AddToCart(cart, product, quantity, userId);
    }

    method FetchCart(userId: Option<int>) returns (r: seq<Row<CartLine>>)
      ensures r == CartStore.CartOf(cart.rows, userId)
    {
      r := Collect(CartStore.CartOf(cart.rows, userId));
    }

    method UpdateCartQuantity(id: int, quantity: int)
      requires Valid()
      modifies this
      ensures Valid()
      ensures Snapshot() == old(Snapshot()).(
                cart := Table(CartStore.UpdateCartQuantity(old(cart).rows, id, quantity), old(cart).lastId))
    {
      var rows := CartStore.UpdateCartQuantity(cart.rows, id, quantity);
      forall i | 0 <= i < |rows| ensures 1 <= rows[i].id <= cart.lastId {
        if quantity <= 0 {
          var a :| 0 <= a < |cart.rows| && cart.rows[a] == rows[i];
        } else {
          assert rows[i].id == cart.rows[i].id;
        }
      }
      cart := Table(rows, cart.lastId);
    }

    method RemoveFromCart(id: int)
      requires Valid()
      modifies this
      ensures Valid()
      ensures Snapshot() == old(Snapshot()).(cart := Table(Delete(old(cart).rows, id), old(cart).lastId))
    {
      DeleteOrdered(cart.rows, id);
      var rows := Delete(cart.rows, id);
      forall i | 0 <= i < |rows| ensures 1 <= rows[i].id <= cart.lastId {
        var a :| 0 <= a < |cart.rows| && cart.rows[a] == rows[i];
      }
      cart := Table(rows, cart.lastId);
    }

    /** clearCart: `DELETE FROM cart` with no WHERE clause empties every user's cart. */
    method ClearCart()
      requires Valid()
      modifies this
      ensures Valid()
      ensures Snapshot() == old(Snapshot()).(cart := Table([], old(cart).lastId))
    {
      cart := Table([], cart.lastId);
    }

    /** createOrder: the header insert, the item loop with insert number `failAt` failing (when
        there is one), and the compensating deletes; `orderCode` and `createdAt` are the values
        the clock gave. */
    method CreateOrder(c: Orders.Customer, cartItems: seq<Row<CartLine>>, orderCode: string,
                       createdAt: string, failAt: Option<nat>) returns (orderId: Option<int>)
      requires Valid()
      modifies this
      ensures Valid()
      ensures var placed := Orders.CreateOrder(old(orders), old(orderItems), c, cartItems, orderCode,
                                               createdAt, failAt);
              orderId == placed.orderId &&
              Snapshot() == old(Snapshot()).(orders := placed.orders, orderItems := placed.items)
    {
      if Orders.CodeInUse(orders.rows, orderCode) {
        return None;
      }
      var result := PlaceOrder(orders, orderItems, c, cartItems, orderCode, createdAt, failAt);
      PlacedKeepsInvariant(Snapshot(), result);
      orders, orderItems := result.orders, result.items;
      orderId := result.orderId;
    }

    /** fetchOrders: the orders in `ORDER BY createdAt DESC` order, each followed by the items the
        per-order query returns. */
    method FetchOrders(userId: Option<int>) returns (r: seq<Orders.OrderView>)
      ensures r == Orders.FetchOrders(orders.rows, orderItems.rows, userId)
    {
      if Given(userId) {
        return [];
      }
      r := AttachItems(Orders.NewestFirst(orders.rows), orderItems.rows);
    }

    method UpdateOrderStatus(id: int, status: string)
      requires Valid()
      modifies this
      ensures Valid()
      ensures Snapshot() == old(Snapshot()).(
                orders := Table(Orders.SetStatus(old(orders).rows, id, status), old(orders).lastId))
    {
      Orders.SetStatusConsistent(orders, orderItems, id, status);
      orders := Table(Orders.SetStatus(orders.rows, id, status), orders.lastId);
    }

    method UpdateUserProfile(userId: int, fullName: string, phone: string, email: string, address: string)
      returns (ok: bool)
      requires Valid()
      modifies this
      ensures Valid() && ok
      ensures Snapshot() == old(Snapshot()).(
                userProfiles := Profiles.UpdateUserProfile(old(userProfiles),
                                                           Profile(userId, fullName, phone, email, address)))
    {
      userProfiles := Profiles.UpdateUserProfile(userProfiles, Profile(userId, fullName, phone, email, address));
      ok := true;
    }

    method GetUserProfile(userId: int) returns (r: Option<Profiles.ProfileView>)
      ensures r == Profiles.GetUserProfile(users.rows, userProfiles.rows, userId)
    {
      r := Profiles.GetUserProfile(users.rows, userProfiles.rows, userId);
    }
  }
}
