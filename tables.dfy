/** Rows and tables of the embedded SQLite store, and the statements every table shares. */
module Tables {

  datatype Option<T> = None | Some(value: T)

  /** A stored row: its INTEGER PRIMARY KEY (the rowid) and the values of its other columns. */
  datatype Row<T> = Row(id: int, val: T)

  /** A table declared with AUTOINCREMENT: its rows in rowid order and its sqlite_sequence
      entry, the largest id the table has ever handed out (deleting rows does not lower it). */
  datatype Table<T> = Table(rows: seq<Row<T>>, lastId: nat)

  /** Rows are kept in ascending rowid order, the order a full-table SELECT returns them in;
      this also makes the primary key unique. */
  predicate Ordered<T>(rows: seq<Row<T>>)
  {
    forall i, j :: 0 <= i < j < |rows| ==> rows[i].id < rows[j].id
  }

  predicate HasId<T>(rows: seq<Row<T>>, id: int)
  {
    exists i :: 0 <= i < |rows| && rows[i].id == id
  }

  /** Every id of an AUTOINCREMENT table is positive and at most its sqlite_sequence entry. */
  predicate WellFormed<T>(t: Table<T>)
  {
    Ordered(t.rows) && forall i :: 0 <= i < |t.rows| ==> 1 <= t.rows[i].id <= t.lastId
  }

  /** Raising the sqlite_sequence entry (ids consumed by rows since deleted) keeps a table well formed. */
  lemma RaiseLastId<T>(t: Table<T>, lastId: nat)
    requires WellFormed(t) && t.lastId <= lastId
    ensures WellFormed(Table(t.rows, lastId))
  {
  }

  /** INSERT without an explicit id into an AUTOINCREMENT table. */
  function Insert<T>(t: Table<T>, v: T): (r: Table<T>)
    requires WellFormed(t)
    ensures WellFormed(r)
    ensures r.lastId == t.lastId + 1 && !HasId(t.rows, r.lastId)
    ensures r.rows == t.rows + [Row(r.lastId, v)]
  {
    Table(t.rows + [Row(t.lastId + 1, v)], t.lastId + 1)
  }

  /** The first row with the given id, as `SELECT * ... WHERE id = ?` followed by `rows.item(0)`. */
  function Get<T>(rows: seq<Row<T>>, id: int): (r: Option<Row<T>>)
    ensures r.Some? ==> r.value in rows && r.value.id == id
    ensures r.None? <==> !HasId(rows, id)
  {
    if rows == [] then None
    else if rows[0].id == id then Some(rows[0])
    else Get(rows[1..], id)
  }

  lemma AppendAssoc<T>(a: seq<T>, b: seq<T>, x: T)
    ensures a + (b + [x]) == (a + b) + [x]
  {
  }

  /** The rows a `WHERE` clause selects (or, for a `DELETE`, leaves): those satisfying `keep`,
      in their stored order. */
  function Where<T>(rows: seq<Row<T>>, keep: Row<T> -> bool): (r: seq<Row<T>>)
    ensures forall i :: 0 <= i < |r| ==> r[i] in rows && keep(r[i])
    ensures forall i :: 0 <= i < |rows| && keep(rows[i]) ==> rows[i] in r
    ensures |r| <= |rows|
  {
    if rows == [] then []
    else
      var last := rows[|rows| - 1];
      assert rows == rows[..|rows| - 1] + [last];
      var rest := Where(rows[..|rows| - 1], keep);
      if keep(last) then rest + [last] else rest
  }

  /** Selecting from rows in rowid order gives rows in rowid order, so each selected row
      appears once. */
  lemma {:induction false} WhereOrdered<T>(rows: seq<Row<T>>, keep: Row<T> -> bool)
    ensures Ordered(rows) ==> Ordered(Where(rows, keep))
  {
    if rows != [] && Ordered(rows) {
      var init := rows[..|rows| - 1];
      var last := rows[|rows| - 1];
      WhereOrdered(init, keep);
      var rest := Where(init, keep);
      assert Where(rows, keep) == if keep(last) then rest + [last] else rest;
      if keep(last) {
        forall i | 0 <= i < |rest| ensures rest[i].id < last.id {
          var j :| 0 <= j < |init| && init[j] == rest[i];
          assert rows[j] == init[j];
        }
        AppendOrdered(rest, last);
      }
    }
  }

  /** A row whose id is above every id of an ordered sequence can go at its end. */
  lemma AppendOrdered<T>(rows: seq<Row<T>>, x: Row<T>)
    requires Ordered(rows) && forall i :: 0 <= i < |rows| ==> rows[i].id < x.id
    ensures Ordered(rows + [x])
  {
  }

  /** `DELETE FROM t WHERE id = ?`: exactly the rows with another id remain, in their order. */
  function Delete<T>(rows: seq<Row<T>>, id: int): (r: seq<Row<T>>)
    ensures forall i :: 0 <= i < |r| ==> r[i] in rows && r[i].id != id
    ensures forall i :: 0 <= i < |rows| && rows[i].id != id ==> rows[i] in r
    ensures |r| <= |rows|
  {
    if rows == [] then []
    else
      var last := rows[|rows| - 1];
      assert rows == rows[..|rows| - 1] + [last];
      var rest := Delete(rows[..|rows| - 1], id);
      if last.id == id then rest else rest + [last]
  }

  /** Deleting by id keeps the rows in rowid order. (A lemma of its own: as an ensures clause of
      Delete it would burden every proof that mentions a delete.) */
  lemma {:induction false} DeleteOrdered<T>(rows: seq<Row<T>>, id: int)
    ensures Ordered(rows) ==> Ordered(Delete(rows, id))
  {
    if rows != [] && Ordered(rows) {
      var init := rows[..|rows| - 1];
      var last := rows[|rows| - 1];
      DeleteOrdered(init, id);
      assert Delete(rows, id) == if last.id == id then Delete(init, id) else Delete(init, id) + [last];
      if last.id != id {
        BelowLast(rows, init);
        KeptBelow(init, id, last.id);
        AppendOrdered(Delete(init, id), last);
      }
    }
  }

  /** `DELETE WHERE id = ?` keeps what `SELECT WHERE id <> ?` selects: Delete is the filter Where
      with the id test. (Delete stays recursive of its own so that proofs about it need not
      unfold a lambda.) */
  lemma {:induction false} DeleteIsWhere<T>(rows: seq<Row<T>>, id: int)
    ensures Delete(rows, id) == Where(rows, (x: Row<T>) => x.id != id)
  {
    if rows != [] {
      DeleteIsWhere(rows[..|rows| - 1], id);
    }
  }

  /** In an ordered table every row before the last has a smaller id. */
  lemma BelowLast<T>(rows: seq<Row<T>>, init: seq<Row<T>>)
    requires rows != [] && Ordered(rows) && init == rows[..|rows| - 1]
    ensures forall i :: 0 <= i < |init| ==> init[i].id < rows[|rows| - 1].id
  {
    forall i | 0 <= i < |init| ensures init[i].id < rows[|rows| - 1].id {
      assert init[i] == rows[i];
    }
  }

  /** The rows a delete keeps have the ids the table had. */
  lemma KeptBelow<T>(rows: seq<Row<T>>, id: int, bound: int)
    requires forall i :: 0 <= i < |rows| ==> rows[i].id < bound
    ensures forall i :: 0 <= i < |Delete(rows, id)| ==> Delete(rows, id)[i].id < bound
  {
    var r := Delete(rows, id);
    forall i | 0 <= i < |r| ensures r[i].id < bound {
      var j :| 0 <= j < |rows| && rows[j] == r[i];
    }
  }

  /** Deleting an id no row has leaves the table as it was. */
  lemma {:induction false} DeleteAbsent<T>(rows: seq<Row<T>>, id: int)
    requires !HasId(rows, id)
    ensures Delete(rows, id) == rows
  {
    if rows != [] {
      var init := rows[..|rows| - 1];
      assert rows == init + [rows[|rows| - 1]];
      DeleteAbsent(init, id);
    }
  }

  /** Deleting the row just appended gives back the table it was appended to. */
  lemma DeleteAppended<T>(rows: seq<Row<T>>, x: Row<T>)
    requires !HasId(rows, x.id)
    ensures Delete(rows + [x], x.id) == rows
  {
    var all := rows + [x];
    assert all[..|all| - 1] == rows;
    DeleteAbsent(rows, x.id);
  }

  /** `UPDATE t SET <every column> = v WHERE id = ?`: the row keeps its id and takes the new values. */
  function Replace<T>(rows: seq<Row<T>>, id: int, v: T): (r: seq<Row<T>>)
    ensures |r| == |rows|
    ensures forall i :: 0 <= i < |rows| ==> r[i].id == rows[i].id
    ensures forall i :: 0 <= i < |rows| ==> r[i].val == if rows[i].id == id then v else rows[i].val
    ensures Ordered(rows) ==> Ordered(r)
  {
    seq(|rows|, i requires 0 <= i < |rows| => if rows[i].id == id then Row(id, v) else rows[i])
  }
}
