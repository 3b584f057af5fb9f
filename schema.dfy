/** The seed data initDatabase writes on every start-up (database.ts:69-83, 90-199). */
module Schema {
  import opened Tables
  import opened Records
  import Identity

  const InitialCategories: seq<Row<Category>> := [
    Row(1, Category("Áo")), Row(2, Category("Giày")), Row(3, Category("Balo")),
    Row(4, Category("Mũ")), Row(5, Category("Túi"))]

  const InitialProducts: seq<Product> := [
    Product("Áo sơ mi", 250000, "hinh1.jpg", 1),
    Product("Giày sneaker", 1100000, "giay.jpg", 2),
    Product("Balo thời trang", 490000, "balo.jpg", 3),
    Product("Mũ lưỡi trai", 120000, "mu.jpg", 4),
    Product("Túi xách nữ", 980000, "tui.jpg", 5)]

  const Admin := User("admin", "123456", "admin")

  /** `INSERT OR IGNORE INTO categories (id, name) VALUES (?, ?)`: nothing happens when the id is
      taken (whatever name that row now has); otherwise the row goes in at its place in id order. */
  function InsertOrIgnore(rows: seq<Row<Category>>, c: Row<Category>): (r: seq<Row<Category>>)
    requires Ordered(rows)
    ensures Ordered(r)
    ensures HasId(rows, c.id) ==> r == rows
    ensures !HasId(rows, c.id) ==> |r| == |rows| + 1 && multiset(r) == multiset(rows) + multiset{c}
  {
    if HasId(rows, c.id) then rows
    else
      PlaceOrdered(rows, c);
      Place(rows, c)
  }

  /** The row inserted before the first row with a larger id. */
  function Place(rows: seq<Row<Category>>, c: Row<Category>): (r: seq<Row<Category>>)
    ensures |r| == |rows| + 1 && multiset(r) == multiset(rows) + multiset{c}
  {
    if rows == [] || c.id < rows[0].id then [c] + rows
    else
      assert rows == [rows[0]] + rows[1..];
      [rows[0]] + Place(rows[1..], c)
  }

  lemma {:induction false} PlaceOrdered(rows: seq<Row<Category>>, c: Row<Category>)
    requires Ordered(rows) && !HasId(rows, c.id)
    ensures Ordered(Place(rows, c))
  {
    if rows == [] || c.id < rows[0].id {
      InsertTailOrdered(c, rows);
    } else {
      assert rows[0].id != c.id;
      assert forall i :: 0 <= i < |rows[1..]| ==> rows[1..][i] == rows[i + 1];
      PlaceOrdered(rows[1..], c);
      forall x | x in multiset(Place(rows[1..], c)) ensures rows[0].id < x.id {
        assert x in multiset(rows[1..]) || x == c;
        if x != c {
          var i :| 0 <= i < |rows[1..]| && rows[1..][i] == x;
          assert rows[i + 1] == x;
        }
      }
      InsertTailOrdered(rows[0], Place(rows[1..], c));
    }
  }

  /** Prepending a row whose id is below every id of an ordered sequence keeps it ordered. */
  lemma InsertTailOrdered(head: Row<Category>, rest: seq<Row<Category>>)
    requires Ordered(rest)
    requires forall x :: x in multiset(rest) ==> head.id < x.id
    ensures Ordered([head] + rest)
  {
    var s := [head] + rest;
    forall i, j | 0 <= i < j < |s| ensures s[i].id < s[j].id {
      if i > 0 {
        assert s[i] == rest[i - 1] && s[j] == rest[j - 1];
      } else {
        assert s[j] == rest[j - 1];
        assert s[j] in multiset(rest);
      }
    }
  }

  /** The `initialCategories.forEach` of INSERT OR IGNORE statements, in order. */
  function SeedCategories(rows: seq<Row<Category>>, seeds: seq<Row<Category>>): (r: seq<Row<Category>>)
    requires Ordered(rows)
    ensures Ordered(r)
    decreases |seeds|
  {
    if seeds == [] then rows else SeedCategories(InsertOrIgnore(rows, seeds[0]), seeds[1..])
  }

  /** Seeding never touches an existing row (a renamed seed category keeps its new name), leaves
      every seed id present, and adds nothing but seeds. */
  lemma {:induction false} SeedCategoriesEffect(rows: seq<Row<Category>>, seeds: seq<Row<Category>>)
    requires Ordered(rows)
    ensures var r := SeedCategories(rows, seeds);
            (forall x :: x in multiset(rows) ==> x in multiset(r)) &&
            (forall i :: 0 <= i < |seeds| ==> HasId(r, seeds[i].id)) &&
            (forall x :: x in multiset(r) ==> x in multiset(rows) || x in seeds)
    decreases |seeds|
  {
    if seeds != [] {
      var next := InsertOrIgnore(rows, seeds[0]);
      SeedCategoriesEffect(next, seeds[1..]);
      var r := SeedCategories(rows, seeds);
      assert r == SeedCategories(next, seeds[1..]);
      assert HasId(next, seeds[0].id) by {
        if !HasId(rows, seeds[0].id) {
          assert seeds[0] in multiset(next);
          var i :| 0 <= i < |next| && next[i] == seeds[0];
        }
      }
      HasIdKept(next, r, seeds[0].id);
      forall i | 0 <= i < |seeds| ensures HasId(r, seeds[i].id) {
        if i > 0 {
          assert seeds[i] == seeds[1..][i - 1];
        }
      }
      forall x | x in multiset(r) ensures x in multiset(rows) || x in seeds {
        if x !in multiset(next) {
          assert x in seeds[1..];
        }
      }
    }
  }

  /** An id present in `a` is present in any `b` holding every row of `a`. */
  lemma HasIdKept(a: seq<Row<Category>>, b: seq<Row<Category>>, id: int)
    requires HasId(a, id)
    requires forall x :: x in multiset(a) ==> x in multiset(b)
    ensures HasId(b, id)
  {
    var i :| 0 <= i < |a| && a[i].id == id;
    assert a[i] in multiset(a);
    var j :| 0 <= j < |b| && b[j] == a[i];
  }

  /** Once every seed id is present, seeding changes nothing. */
  lemma {:induction false} SeedCategoriesNoop(rows: seq<Row<Category>>, seeds: seq<Row<Category>>)
    requires Ordered(rows)
    requires forall i :: 0 <= i < |seeds| ==> HasId(rows, seeds[i].id)
    ensures SeedCategories(rows, seeds) == rows
    decreases |seeds|
  {
    if seeds != [] {
      assert HasId(rows, seeds[0].id);
      assert forall i :: 0 <= i < |seeds[1..]| ==> seeds[1..][i] == seeds[i + 1];
      SeedCategoriesNoop(rows, seeds[1..]);
    }
  }

  /** Running initDatabase's category seeding twice is the same as running it once. */
  lemma SeedCategoriesIdempotent(rows: seq<Row<Category>>)
    requires Ordered(rows)
    ensures SeedCategories(SeedCategories(rows, InitialCategories), InitialCategories) ==
            SeedCategories(rows, InitialCategories)
  {
    SeedCategoriesEffect(rows, InitialCategories);
    SeedCategoriesNoop(SeedCategories(rows, InitialCategories), InitialCategories);
  }

  /** A seed category the admin deleted is back after the next start-up. */
  lemma DeletedSeedCategoryReturns(rows: seq<Row<Category>>, k: nat)
    requires Ordered(rows)
    requires k < |InitialCategories|
    ensures Ordered(Delete(rows, InitialCategories[k].id)) &&
            HasId(SeedCategories(Delete(rows, InitialCategories[k].id), InitialCategories),
                  InitialCategories[k].id)
  {
    DeleteOrdered(rows, InitialCategories[k].id);
    SeedCategoriesEffect(Delete(rows, InitialCategories[k].id), InitialCategories);
  }

  /** Inserting `ps` one after another into an AUTOINCREMENT table. */
  function InsertAll<T>(t: Table<T>, ps: seq<T>): (r: Table<T>)
    requires WellFormed(t)
    ensures WellFormed(r)
    decreases |ps|
  {
    if ps == [] then t else InsertAll(Insert(t, ps[0]), ps[1..])
  }

  /** The inserted rows follow the old ones, numbered on from the table's sequence counter. */
  lemma {:induction false} InsertAllRows<T>(t: Table<T>, ps: seq<T>)
    requires WellFormed(t)
    ensures var r := InsertAll(t, ps);
            r.lastId == t.lastId + |ps| && |r.rows| == |t.rows| + |ps| && r.rows[..|t.rows|] == t.rows &&
            forall k :: 0 <= k < |ps| ==> r.rows[|t.rows| + k] == Row(t.lastId + 1 + k, ps[k])
    decreases |ps|
  {
    if ps != [] {
      var next := Insert(t, ps[0]);
      InsertAllRows(next, ps[1..]);
      var r := InsertAll(t, ps);
      assert r == InsertAll(next, ps[1..]);
      assert r.rows[..|next.rows|] == next.rows;
      assert r.rows[..|t.rows|] == next.rows[..|t.rows|];
      forall k | 0 <= k < |ps| ensures r.rows[|t.rows| + k] == Row(t.lastId + 1 + k, ps[k]) {
        if k == 0 {
          assert r.rows[|t.rows|] == next.rows[|t.rows|];
        } else {
          assert ps[k] == ps[1..][k - 1];
          assert r.rows[|t.rows| + k] == r.rows[|next.rows| + (k - 1)];
        }
      }
    }
  }

  /** The five default product names are distinct (they start with different letters). */
  lemma InitialNamesDistinct()
    ensures forall i, j :: 0 <= i < j < |InitialProducts| ==> InitialProducts[i].name != InitialProducts[j].name
  {
    assert InitialProducts[0].name[0] == 'Á' && InitialProducts[1].name[0] == 'G';
    assert InitialProducts[2].name[0] == 'B' && InitialProducts[3].name[0] == 'M';
    assert InitialProducts[4].name[0] == 'T';
  }

  /** The product seeding: the five default products, inserted only when the table is empty. */
  function SeedProducts(t: Table<Product>): (r: Table<Product>)
    requires WellFormed(t)
    ensures WellFormed(r)
  {
    if |t.rows| == 0 then InsertAll(t, InitialProducts) else t
  }

  /** An empty product table receives exactly the five defaults, numbered on from the sequence
      counter (so a catalogue the admin emptied is refilled on the next start-up); a non-empty
      one is left alone. */
  lemma SeedProductsEffect(t: Table<Product>)
    requires WellFormed(t)
    ensures |t.rows| > 0 ==> SeedProducts(t) == t
    ensures |t.rows| == 0 ==>
              var r := SeedProducts(t);
              r.lastId == t.lastId + |InitialProducts| && |r.rows| == |InitialProducts| &&
              (forall k :: 0 <= k < |InitialProducts| ==> r.rows[k] == Row(t.lastId + 1 + k, InitialProducts[k])) &&
              DistinctNames(r.rows)
  {
    if |t.rows| == 0 {
      InsertAllRows(t, InitialProducts);
      InitialNamesDistinct();
      var r := SeedProducts(t);
      forall i, j | 0 <= i < j < |r.rows| ensures r.rows[i].val.name != r.rows[j].val.name {
        assert r.rows[i].val == InitialProducts[i] && r.rows[j].val == InitialProducts[j];
      }
    }
  }

  /** Product seeding is idempotent: after it the table is never empty. */
  lemma SeedProductsIdempotent(t: Table<Product>)
    requires WellFormed(t)
    ensures SeedProducts(SeedProducts(t)) == SeedProducts(t)
  {
    SeedProductsEffect(t);
  }

  /** The admin insert guarded by `WHERE NOT EXISTS (SELECT 1 FROM users WHERE username = 'admin')`. */
  function SeedAdmin(t: Table<User>): (r: Table<User>)
    requires WellFormed(t)
    ensures WellFormed(r) && Identity.UsernameInUse(r.rows, Admin.username)
    ensures Identity.UsernameInUse(t.rows, Admin.username) ==> r == t
    ensures !Identity.UsernameInUse(t.rows, Admin.username) ==>
              r.rows == t.rows + [Row(r.lastId, Admin)] && r.lastId == t.lastId + 1
  {
    if Identity.UsernameInUse(t.rows, Admin.username) then t
    else
      var r := Insert(t, Admin);
      assert r.rows[|t.rows|].val.username == Admin.username;
      r
  }

  /** Seeding the admin keeps usernames unique and is idempotent. */
  lemma SeedAdminIdempotent(t: Table<User>)
    requires WellFormed(t) && DistinctUsernames(t.rows)
    ensures DistinctUsernames(SeedAdmin(t).rows)
    ensures SeedAdmin(SeedAdmin(t)) == SeedAdmin(t)
  {
  }
}
