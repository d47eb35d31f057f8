/** The `messages` table: its rows in ascending id order and its
    AUTOINCREMENT counter, with the SQL statements the store issues. */
module Table {
  import opened Wrappers

  /** One row. The timestamp column is never read back and is not kept. */
  datatype Row = Row(id: nat, role: string, content: string)

  /** The persisted table. `nextId` is one more than the largest id ever
      issued (SQLite records it in `sqlite_sequence` for an AUTOINCREMENT
      table), so an id freed by a delete is never issued again. */
  datatype Store = Store(rows: seq<Row>, nextId: nat)

  predicate IdsIncreasing(rows: seq<Row>) {
    forall i, j :: 0 <= i < j < |rows| ==> rows[i].id < rows[j].id
  }

  /** The table invariant: rows in strictly ascending id order (the order
      `ORDER BY id` yields), every id positive and below the counter. */
  predicate Valid(s: Store) {
    && 1 <= s.nextId
    && IdsIncreasing(s.rows)
    && forall i :: 0 <= i < |s.rows| ==> 1 <= s.rows[i].id < s.nextId
  }

  /** The table `CREATE TABLE` makes: no rows, numbering from 1. */
  function Empty(): (s: Store)
    ensures Valid(s)
    ensures s.rows == []
    ensures s.nextId == 1
  {
    Store([], 1)
  }

  /** `INSERT INTO messages (role, content)`: one row at the end whose id is
      above every id the table has ever issued; existing rows are kept. */
  function Insert(s: Store, role: string, content: string): (r: (Store, nat))
    ensures r.0.rows == s.rows + [Row(r.1, role, content)]
    ensures s.nextId <= r.1 < r.0.nextId
    ensures Valid(s) ==> Valid(r.0)
    ensures Valid(s) ==> forall i :: 0 <= i < |s.rows| ==> s.rows[i].id < r.1
  {
    (Store(s.rows + [Row(s.nextId, role, content)], s.nextId + 1), s.nextId)
  }

  /** `SELECT ... WHERE id = ?` followed by `fetchone()`: the position of the
      row with that id, or None when there is none. */
  function FindId(rows: seq<Row>, id: int): (r: Option<nat>)
    ensures r.Some? ==> r.value < |rows| && rows[r.value].id == id
    ensures r.None? <==> forall i :: 0 <= i < |rows| ==> rows[i].id != id
    ensures r.Some? && IdsIncreasing(rows) ==> forall j :: 0 <= j < |rows| && rows[j].id == id ==> j == r.value
  {
    if rows == [] then None
    else if rows[0].id == id then Some(0)
    else
      match FindId(rows[1..], id)
      case None => None
      case Some(i) => Some(i + 1)
  }

  /** `SELECT ... WHERE role = ? ORDER BY id DESC LIMIT 1`: the position of
      the last row with that role, or None when no row has it. */
  function LatestOfRole(rows: seq<Row>, role: string): (r: Option<nat>)
    ensures r.None? <==> forall j :: 0 <= j < |rows| ==> rows[j].role != role
    ensures r.Some? ==> r.value < |rows| && rows[r.value].role == role
    ensures r.Some? ==> forall j :: r.value < j < |rows| ==> rows[j].role != role
    ensures r.Some? && IdsIncreasing(rows) ==>
      forall j :: 0 <= j < |rows| && rows[j].role == role ==> rows[j].id <= rows[r.value].id
  {
    if rows == [] then None
    else if rows[|rows| - 1].role == role then Some(|rows| - 1)
    else LatestOfRole(rows[..|rows| - 1], role)
  }

  /** `UPDATE messages SET content = ? WHERE id = ?`: every row with that id
      gets the new content; ids, roles and all other rows are kept. */
  function SetContent(rows: seq<Row>, id: int, content: string): (r: seq<Row>)
    ensures |r| == |rows|
    ensures forall i :: 0 <= i < |rows| ==> r[i].id == rows[i].id && r[i].role == rows[i].role
    ensures forall i :: 0 <= i < |rows| && rows[i].id == id ==> r[i].content == content
    ensures forall i :: 0 <= i < |rows| && rows[i].id != id ==> r[i] == rows[i]
  {
    if rows == [] then []
    else
      var head := if rows[0].id == id then rows[0].(content := content) else rows[0];
      [head] + SetContent(rows[1..], id, content)
  }

  /** With unique ids, the update touches exactly one position. */
  lemma SetContentAt(rows: seq<Row>, i: nat, content: string)
    requires IdsIncreasing(rows)
    requires i < |rows|
    ensures SetContent(rows, rows[i].id, content) == rows[i := rows[i].(content := content)]
  {
    var r := SetContent(rows, rows[i].id, content);
    var e := rows[i := rows[i].(content := content)];
    forall j | 0 <= j < |rows|
      ensures r[j] == e[j]
    {
      if j != i {
        assert rows[j].id != rows[i].id;
      }
    }
  }

  /** `DELETE FROM messages WHERE id > ?`, keeping the remaining rows in
      their order. On an ordered table what remains is a prefix, and a
      position survives exactly when its id is at most `k`. */
  function DeleteAbove(rows: seq<Row>, k: int): (r: seq<Row>)
    ensures |r| <= |rows|
    ensures IdsIncreasing(rows) ==> r == rows[..|r|]
    ensures IdsIncreasing(rows) ==> forall i :: 0 <= i < |rows| ==> (i < |r| <==> rows[i].id <= k)
  {
    if rows == [] then []
    else
      var rest := DeleteAbove(rows[1..], k);
      if rows[0].id <= k then
        [rows[0]] + rest
      else
        assert IdsIncreasing(rows) && 1 < |rows| ==> k < rows[1].id;
        rest
  }

  /** On any row list, the DELETE keeps exactly the rows whose id is at most `k`. */
  lemma {:induction false} DeleteAboveMembers(rows: seq<Row>, k: int)
    ensures forall x :: x in DeleteAbove(rows, k) <==> x in rows && x.id <= k
  {
    if rows != [] {
      DeleteAboveMembers(rows[1..], k);
      assert rows == [rows[0]] + rows[1..];
    }
  }

  /** The UPDATE keeps the table invariant: it changes no id. */
  lemma SetContentValid(s: Store, id: int, content: string)
    ensures Valid(s) ==> Valid(Store(SetContent(s.rows, id, content), s.nextId))
  {
  }

  /** The DELETE keeps the table invariant: what remains is a prefix. */
  lemma DeleteAboveValid(s: Store, k: int)
    ensures Valid(s) ==> Valid(Store(DeleteAbove(s.rows, k), s.nextId))
  {
  }

  /** Deleting above `k` and then above any `k2 >= k` deletes nothing more. */
  lemma {:induction false} DeleteAboveIdempotent(rows: seq<Row>, k: int, k2: int)
    requires k <= k2
    ensures DeleteAbove(DeleteAbove(rows, k), k2) == DeleteAbove(rows, k)
  {
    if rows != [] {
      DeleteAboveIdempotent(rows[1..], k, k2);
      if rows[0].id <= k {
        var rest := DeleteAbove(rows[1..], k);
        assert DeleteAbove(rows, k) == [rows[0]] + rest;
        assert ([rows[0]] + rest)[1..] == rest;
      }
    }
  }

  /** Deleting above `k` removes nothing when no id exceeds `k`. */
  lemma {:induction false} DeleteAboveNothing(rows: seq<Row>, k: int)
    requires forall i :: 0 <= i < |rows| ==> rows[i].id <= k
    ensures DeleteAbove(rows, k) == rows
  {
    if rows != [] {
      DeleteAboveNothing(rows[1..], k);
      assert [rows[0]] + rows[1..] == rows;
    }
  }

  /** On an ordered table, deleting above the id at position `i` keeps
      exactly the positions up to and including `i`. */
  lemma DeleteAboveAt(rows: seq<Row>, i: nat)
    requires IdsIncreasing(rows)
    requires i < |rows|
    ensures DeleteAbove(rows, rows[i].id) == rows[..i + 1]
  {
    var kept := DeleteAbove(rows, rows[i].id);
    assert i < |kept|;
    if i + 1 < |rows| {
      assert rows[i].id < rows[i + 1].id;
      assert !(i + 1 < |kept|);
    }
    assert |kept| == i + 1;
  }

  /** Changing a row's content keeps the id order. */
  lemma ContentUpdateKeepsOrder(rows: seq<Row>, i: nat, content: string)
    requires IdsIncreasing(rows)
    requires i < |rows|
    ensures IdsIncreasing(rows[i := rows[i].(content := content)])
  {
    var updated := rows[i := rows[i].(content := content)];
    forall a, b | 0 <= a < b < |updated|
      ensures updated[a].id < updated[b].id
    {
      assert updated[a].id == rows[a].id && updated[b].id == rows[b].id;
    }
  }

  /** On an ordered table, updating the row at position `i` and then deleting
      above its id leaves the rows before `i` and the updated row `i`. */
  lemma UpdateThenCut(rows: seq<Row>, i: nat, content: string)
    requires IdsIncreasing(rows)
    requires i < |rows|
    ensures DeleteAbove(SetContent(rows, rows[i].id, content), rows[i].id)
         == rows[..i] + [rows[i].(content := content)]
  {
    var updated := rows[i := rows[i].(content := content)];
    SetContentAt(rows, i, content);
    ContentUpdateKeepsOrder(rows, i, content);
    DeleteAboveAt(updated, i);
    assert updated[..i + 1] == rows[..i] + [rows[i].(content := content)];
  }
}
