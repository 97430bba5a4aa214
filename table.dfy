/**
 * The `departments(id INTEGER PRIMARY KEY, name TEXT, location TEXT)` table,
 * modelled as its sequence of rows in storage order. The functions below give
 * the effect of the four statements the department class issues: INSERT
 * (with SQLite's rowid choice), UPDATE ... WHERE, DELETE ... WHERE and
 * SELECT ... WHERE followed by `fetchone`.
 */
module Table {
  import opened Wrappers

  /** One row, as SQLite returns it: `(id, name, location)`. */
  datatype Row = Row(id: int, name: string, location: string)

  /** The WHERE clauses the department statements use. */
  datatype Where =
    | IdIs(id: Option<int>)   // `WHERE id = ?`; a NULL parameter matches no row
    | NameIs(name: string)    // `WHERE name is ?`

  predicate Matches(w: Where, row: Row) {
    match w
    case IdIs(k) => k == Some(row.id)
    case NameIs(n) => row.name == n
  }

  /** The primary keys present in the table. */
  function Ids(rows: seq<Row>): set<int> {
    set row | row in rows :: row.id
  }

  /** The PRIMARY KEY constraint: no two rows share an id. */
  predicate DistinctIds(rows: seq<Row>) {
    forall i, j :: 0 <= i < j < |rows| ==> rows[i].id != rows[j].id
  }

  /** The largest id in a non-empty table. */
  function MaxId(rows: seq<Row>): (m: int)
    requires |rows| > 0
    ensures forall i :: 0 <= i < |rows| ==> rows[i].id <= m
    ensures m in Ids(rows)
  {
    if |rows| == 1 then rows[0].id
    else
      var m := MaxId(rows[1..]);
      assert rows[1..][0] in rows;
      if rows[0].id > m then rows[0].id else m
  }

  /**
   * The rowid SQLite gives a row inserted without an explicit id into an
   * `INTEGER PRIMARY KEY` table without AUTOINCREMENT: one more than the
   * largest id present, or 1 for an empty table. After the row holding the
   * largest id is deleted, that id may be handed out again.
   */
  function NextRowId(rows: seq<Row>): (r: int)
    ensures forall i :: 0 <= i < |rows| ==> rows[i].id < r
    ensures r !in Ids(rows)
  {
    if rows == [] then 1 else MaxId(rows) + 1
  }

  /** Index of the first row, in storage order, that the clause selects. */
  function FirstMatch(rows: seq<Row>, w: Where): (r: Option<nat>)
    ensures r.Some? ==> r.value < |rows| && Matches(w, rows[r.value])
    ensures r.Some? ==> forall j :: 0 <= j < r.value ==> !Matches(w, rows[j])
    ensures r.None? <==> forall j :: 0 <= j < |rows| ==> !Matches(w, rows[j])
  {
    if rows == [] then None
    else if Matches(w, rows[0]) then Some(0)
    else match FirstMatch(rows[1..], w)
      case None => None
      case Some(i) => Some(i + 1)
  }

  /** `UPDATE departments SET name = ?, location = ? WHERE w`. */
  function UpdateWhere(rows: seq<Row>, w: Where, name: string, location: string): (r: seq<Row>)
    ensures |r| == |rows|
    ensures forall i :: 0 <= i < |rows| ==> r[i].id == rows[i].id
    ensures forall i :: 0 <= i < |rows| && Matches(w, rows[i]) ==>
              r[i].name == name && r[i].location == location
    ensures forall i :: 0 <= i < |rows| && !Matches(w, rows[i]) ==> r[i] == rows[i]
    ensures (forall i :: 0 <= i < |rows| ==> !Matches(w, rows[i])) ==> r == rows
  {
    if rows == [] then []
    else
      var head := if Matches(w, rows[0]) then Row(rows[0].id, name, location) else rows[0];
      [head] + UpdateWhere(rows[1..], w, name, location)
  }

  /** `DELETE FROM departments WHERE w`: the other rows keep their order. */
  function DeleteWhere(rows: seq<Row>, w: Where): (r: seq<Row>)
    ensures |r| <= |rows|
    ensures forall row :: row in r <==> row in rows && !Matches(w, row)
  {
    if rows == [] then []
    else if Matches(w, rows[0]) then DeleteWhere(rows[1..], w)
    else [rows[0]] + DeleteWhere(rows[1..], w)
  }

  // ----- Lemmas about the table -----

  /** Appending a row adds its id to the table's ids. */
  lemma IdsAppend(rows: seq<Row>, row: Row)
    ensures Ids(rows + [row]) == Ids(rows) + {row.id}
  {
  }

  /** Appending a row under a fresh id keeps the primary key unique. */
  lemma InsertKeepsDistinct(rows: seq<Row>, row: Row)
    requires DistinctIds(rows) && row.id !in Ids(rows)
    ensures DistinctIds(rows + [row])
    ensures Ids(rows + [row]) == Ids(rows) + {row.id}
  {
  }

  /** An UPDATE never touches ids, so the primary key stays unique. */
  lemma UpdateKeepsIds(rows: seq<Row>, w: Where, name: string, location: string)
    requires DistinctIds(rows)
    ensures DistinctIds(UpdateWhere(rows, w, name, location))
    ensures Ids(UpdateWhere(rows, w, name, location)) == Ids(rows)
  {
  }

  /** Updating by the id of row `i`, in a table with unique ids, rewrites row `i` and only it. */
  lemma UpdateById(rows: seq<Row>, i: nat, name: string, location: string)
    requires DistinctIds(rows) && i < |rows|
    ensures UpdateWhere(rows, IdIs(Some(rows[i].id)), name, location)
            == rows[i := Row(rows[i].id, name, location)]
  {
  }

  /** A DELETE keeps the primary key unique. */
  lemma {:induction false} DeleteKeepsDistinct(rows: seq<Row>, w: Where)
    requires DistinctIds(rows)
    ensures DistinctIds(DeleteWhere(rows, w))
  {
    if rows != [] {
      DeleteKeepsDistinct(rows[1..], w);
      var tail := DeleteWhere(rows[1..], w);
      if !Matches(w, rows[0]) {
        forall j | 0 <= j < |tail| ensures tail[j].id != rows[0].id {
          assert tail[j] in tail;
          var k :| 0 <= k < |rows[1..]| && rows[1..][k] == tail[j];
          assert rows[k + 1] == tail[j];
        }
        assert DeleteWhere(rows, w) == [rows[0]] + tail;
      }
    }
  }

  /** Deleting by id removes exactly that key from the table's ids. */
  lemma DeleteIds(rows: seq<Row>, k: int)
    ensures Ids(DeleteWhere(rows, IdIs(Some(k)))) == Ids(rows) - {k}
  {
  }

  /**
   * Deleting by the id of row `i`, in a table with unique ids, removes row `i`
   * and keeps every other row, in order.
   */
  lemma {:induction false} DeleteById(rows: seq<Row>, i: nat)
    requires DistinctIds(rows) && i < |rows|
    ensures DeleteWhere(rows, IdIs(Some(rows[i].id))) == rows[..i] + rows[i + 1..]
  {
    var w := IdIs(Some(rows[i].id));
    if i == 0 {
      DeleteMissing(rows[1..], w);
    } else {
      assert rows[1..][i - 1] == rows[i];
      DeleteById(rows[1..], i - 1);
      assert !Matches(w, rows[0]);
      calc {
        DeleteWhere(rows, w);
        [rows[0]] + DeleteWhere(rows[1..], w);
        [rows[0]] + (rows[1..][..i - 1] + rows[1..][i..]);
        { assert [rows[0]] + rows[1..][..i - 1] == rows[..i];
          assert rows[1..][i..] == rows[i + 1..]; }
        rows[..i] + rows[i + 1..];
      }
    }
  }

  /** A DELETE whose clause selects no row changes nothing. */
  lemma {:induction false} DeleteMissing(rows: seq<Row>, w: Where)
    requires forall j :: 0 <= j < |rows| ==> !Matches(w, rows[j])
    ensures DeleteWhere(rows, w) == rows
  {
    if rows != [] {
      DeleteMissing(rows[1..], w);
      assert [rows[0]] + rows[1..] == rows;
    }
  }

  /** Deleting a present id from a table with unique ids removes exactly one row. */
  lemma DeleteShrinks(rows: seq<Row>, k: int)
    requires DistinctIds(rows) && k in Ids(rows)
    ensures |DeleteWhere(rows, IdIs(Some(k)))| == |rows| - 1
  {
    var row :| row in rows && row.id == k;
    var i :| 0 <= i < |rows| && rows[i] == row;
    DeleteById(rows, i);
  }

  /** Selecting by id finds a row exactly when the id is present, and then finds the row with that id. */
  lemma SelectById(rows: seq<Row>, k: int)
    ensures FirstMatch(rows, IdIs(Some(k))).Some? <==> k in Ids(rows)
    ensures FirstMatch(rows, IdIs(Some(k))).Some? ==> rows[FirstMatch(rows, IdIs(Some(k))).value].id == k
  {
  }

  /** The first row the clause selects is determined by the rows before it. */
  lemma FirstMatchAt(rows: seq<Row>, w: Where, n: nat)
    requires n < |rows| && Matches(w, rows[n])
    requires forall j :: 0 <= j < n ==> !Matches(w, rows[j])
    ensures FirstMatch(rows, w) == Some(n)
  {
  }

  /** A freshly inserted row is the one a later select by its id finds. */
  lemma SelectInserted(rows: seq<Row>, row: Row)
    requires row.id !in Ids(rows)
    ensures FirstMatch(rows + [row], IdIs(Some(row.id))) == Some(|rows|)
  {
    var s := rows + [row];
    forall j | 0 <= j < |rows| ensures !Matches(IdIs(Some(row.id)), s[j]) {
      assert s[j] == rows[j] && rows[j] in rows;
    }
    FirstMatchAt(s, IdIs(Some(row.id)), |rows|);
  }
}
