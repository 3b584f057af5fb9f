/** Categories and products: the admin CRUD statements, the per-category listing and the
    name-or-category search (database.ts:237-378). */
module Catalog {
  import opened Tables
  import opened Records
  import opened Text

  /** The rowid SQLite assigns to an INSERT without an id into a table declared without
      AUTOINCREMENT: one more than the largest rowid in use, or 1 when the table is empty. */
  function NextRowId(rows: seq<Row<Category>>): (r: int)
    ensures rows == [] ==> r == 1
    ensures Ordered(rows) ==> forall i :: 0 <= i < |rows| ==> rows[i].id < r
  {
    if rows == [] then 1 else rows[|rows| - 1].id + 1
  }

  /** addCategory: `INSERT INTO categories (name) VALUES (?)`. */
  function AddCategory(rows: seq<Row<Category>>, name: string): (r: seq<Row<Category>>)
    ensures |r| == |rows| + 1 && r[..|rows|] == rows && r[|rows|].val == Category(name)
    ensures r[|rows|].id == NextRowId(rows)
    ensures Ordered(rows) ==> Ordered(r) && !HasId(rows, r[|rows|].id)
  {
    rows + [Row(NextRowId(rows), Category(name))]
  }

  /** Without AUTOINCREMENT the id of a deleted newest category is handed out again: when the
      category just added is deleted, the next category added gets its id, so products still
      carrying that `categoryId` silently move to the new category. */
  lemma DeletedNewestIdReused(rows: seq<Row<Category>>, first: string, second: string)
    requires Ordered(rows)
    ensures var r := AddCategory(rows, first);
            var id := r[|rows|].id;
            AddCategory(Delete(r, id), second) == rows + [Row(id, Category(second))]
  {
    var r := AddCategory(rows, first);
    var id := r[|rows|].id;
    assert r == rows + [r[|rows|]];
    DeleteAbsent(rows, id);
    assert Delete(r, id) == rows;
  }

  predicate NameInUse(rows: seq<Row<Product>>, name: string)
  {
    exists i :: 0 <= i < |rows| && rows[i].val.name == name
  }

  /** A row other than `id` already holds `name`. */
  predicate NameHeldByOther(rows: seq<Row<Product>>, id: int, name: string)
  {
    exists i :: 0 <= i < |rows| && rows[i].id != id && rows[i].val.name == name
  }

  /** addProduct: the INSERT is refused by `name TEXT UNIQUE` when the name is in use, and the
      error is swallowed, leaving the table as it was. */
  function AddProduct(t: Table<Product>, p: Product): (r: Table<Product>)
    requires WellFormed(t) && DistinctNames(t.rows)
    ensures WellFormed(r) && DistinctNames(r.rows)
    ensures NameInUse(t.rows, p.name) <==> r == t
    ensures !NameInUse(t.rows, p.name) ==>
              r.rows == t.rows + [Row(r.lastId, p)] && r.lastId == t.lastId + 1 && !HasId(t.rows, r.lastId)
  {
    if NameInUse(t.rows, p.name) then t else Insert(t, p)
  }

  /** updateProduct: `UPDATE products SET name, price, categoryId, img WHERE id = ?`; the UNIQUE
      name makes the statement fail when another row already has the new name. */
  function UpdateProduct(rows: seq<Row<Product>>, p: Row<Product>): (r: seq<Row<Product>>)
    requires Ordered(rows) && DistinctNames(rows)
    ensures Ordered(r) && DistinctNames(r)
    ensures NameHeldByOther(rows, p.id, p.val.name) ==> r == rows
    ensures !NameHeldByOther(rows, p.id, p.val.name) ==>
              |r| == |rows| &&
              forall i :: 0 <= i < |rows| ==> r[i] == if rows[i].id == p.id then p else rows[i]
  {
    if NameHeldByOther(rows, p.id, p.val.name) then rows else Replace(rows, p.id, p.val)
  }

  /** fetchProductsByCategory: `SELECT * FROM products WHERE categoryId = ?`. */
  function InCategory(rows: seq<Row<Product>>, categoryId: int): (r: seq<Row<Product>>)
    ensures forall i :: 0 <= i < |r| ==> r[i] in rows && r[i].val.categoryId == categoryId
    ensures forall i :: 0 <= i < |rows| && rows[i].val.categoryId == categoryId ==> rows[i] in r
    ensures Ordered(rows) ==> Ordered(r)
  {
    var keep := (p: Row<Product>) => p.val.categoryId == categoryId;
    WhereOrdered(rows, keep);
    Where(rows, keep)
  }

  /** The inner JOIN on `products.categoryId = categories.id` with
      `products.name LIKE ? OR categories.name LIKE ?`, for one product row. */
  predicate SearchHit(p: Row<Product>, categories: seq<Row<Category>>, keyword: string)
  {
    exists i :: 0 <= i < |categories| && categories[i].id == p.val.categoryId &&
      (Like(p.val.name, keyword) || Like(categories[i].val.name, keyword))
  }

  /** searchProductsByNameOrCategory: the products the join yields, in table order. */
  function Search(products: seq<Row<Product>>, categories: seq<Row<Category>>, keyword: string)
    : (r: seq<Row<Product>>)
    ensures forall i :: 0 <= i < |r| ==> r[i] in products && SearchHit(r[i], categories, keyword)
    ensures forall i :: 0 <= i < |products| && SearchHit(products[i], categories, keyword) ==>
              products[i] in r
    ensures Ordered(products) ==> Ordered(r)
  {
    var keep := (p: Row<Product>) => SearchHit(p, categories, keyword);
    WhereOrdered(products, keep);
    Where(products, keep)
  }

  /** An empty keyword (pattern `%%`) lists exactly the products whose category still exists. */
  lemma EmptyKeywordListsJoinedProducts(products: seq<Row<Product>>, categories: seq<Row<Category>>)
    ensures forall p :: p in Search(products, categories, "") <==>
              p in products && HasId(categories, p.val.categoryId)
  {
    forall p | p in products && HasId(categories, p.val.categoryId)
      ensures p in Search(products, categories, "")
    {
      var i :| 0 <= i < |categories| && categories[i].id == p.val.categoryId;
      assert SearchHit(p, categories, "");
    }
  }

  /** deleteCategory does not cascade: the products of a deleted category stay in the table but
      the inner join of the search never returns them again, whatever the keyword. */
  lemma DeletedCategoryHidesProducts(products: seq<Row<Product>>, categories: seq<Row<Category>>,
                                     categoryId: int, keyword: string, p: Row<Product>)
    requires p in products && p.val.categoryId == categoryId
    ensures p !in Search(products, Delete(categories, categoryId), keyword)
  {
    var cats := Delete(categories, categoryId);
    if p in Search(products, cats, keyword) {
      assert false;
    }
  }
}
