/** The columns of the seven tables (the id column is the `Row` around each value). */
module Records {
  import opened Tables

  datatype Category = Category(name: string)

  /** `price` is REAL in the schema; prices are modelled as whole numbers, as the seed prices
      (database.ts:77-83) are whole đồng. */
  datatype Product = Product(name: string, price: int, img: string, categoryId: int)

  datatype User = User(username: string, password: string, role: string)

  /** A cart line keeps a snapshot of the product's name, price and image taken when it was added;
      `userId` is NULL (None) for a line added without a signed-in user. */
  datatype CartLine = CartLine(
    productId: int, productName: string, productPrice: int, productImg: string,
    quantity: int, userId: Option<int>)

  datatype Order = Order(
    orderCode: string, totalPrice: int,
    customerName: string, customerPhone: string, customerEmail: string, shippingAddress: string,
    status: string, createdAt: string)

  datatype OrderItem = OrderItem(
    orderId: int, productId: int, productName: string, productPrice: int, quantity: int)

  datatype Profile = Profile(userId: int, fullName: string, phone: string, email: string, address: string)

  /** JavaScript truthiness of an optional id argument (`if (userId)`): absent and 0 are falsy. */
  predicate Given(userId: Option<int>)
  {
    userId.Some? && userId.value != 0
  }

  /** The UNIQUE column constraints of the schema. */
  predicate DistinctNames(rows: seq<Row<Product>>)
  {
    forall i, j :: 0 <= i < j < |rows| ==> rows[i].val.name != rows[j].val.name
  }

  predicate DistinctUsernames(rows: seq<Row<User>>)
  {
    forall i, j :: 0 <= i < j < |rows| ==> rows[i].val.username != rows[j].val.username
  }

  predicate DistinctOrderCodes(rows: seq<Row<Order>>)
  {
    forall i, j :: 0 <= i < j < |rows| ==> rows[i].val.orderCode != rows[j].val.orderCode
  }

  predicate DistinctProfileUsers(rows: seq<Row<Profile>>)
  {
    forall i, j :: 0 <= i < j < |rows| ==> rows[i].val.userId != rows[j].val.userId
  }
}
