/** A SQLite table whose primary key is `INTEGER PRIMARY KEY AUTOINCREMENT`:
    rows in key order plus the largest key ever handed out (the table's entry in
    `sqlite_sequence`), so that a key is never issued twice even after deletes. */
module Tables {
  import opened Common
  import Seqs

  datatype Row<T> = Row(id: nat, data: T)

  datatype Table<T> = Table(rows: seq<Row<T>>, lastId: nat)

  /** The table `CREATE TABLE` makes: no rows, no key issued yet. */
  function Empty<T>(): (t: Table<T>)
    ensures Valid(t) && |t.rows| == 0
  {
    Table([], 0)
  }

  /** Keys are positive, strictly increasing in row order, and never above the last key issued. */
  ghost predicate Valid<T>(t: Table<T>) {
    && (forall i :: 0 <= i < |t.rows| ==> 1 <= t.rows[i].id <= t.lastId)
    && (forall i, j :: 0 <= i < j < |t.rows| ==> t.rows[i].id < t.rows[j].id)
  }

  /** Some row of `t` has key `id`. */
  predicate HasId<T>(t: Table<T>, id: int) {
    exists i :: 0 <= i < |t.rows| && t.rows[i].id == id
  }

  datatype Inserted<T> = Inserted(table: Table<T>, id: nat)

  /** `INSERT`: the new row gets the key after the last one ever issued and goes last. */
  function Insert<T>(t: Table<T>, data: T): (r: Inserted<T>)
    ensures r.id == t.lastId + 1
    ensures r.table.rows == t.rows + [Row(r.id, data)]
    ensures r.table.lastId == r.id
    ensures Valid(t) ==> Valid(r.table) && !HasId(t, r.id)
    ensures forall i :: 0 <= i < |t.rows| && Valid(t) ==> t.rows[i].id < r.id
  {
    var id := t.lastId + 1;
    Inserted(Table(t.rows + [Row(id, data)], id), id)
  }

  /** The position of the first row with key `id`, if any. */
  function IndexOf<T>(t: Table<T>, id: int, from: nat := 0): (r: Option<nat>)
    requires from <= |t.rows|
    requires forall k :: 0 <= k < from ==> t.rows[k].id != id
    ensures r.Some? ==> r.value < |t.rows| && t.rows[r.value].id == id
    ensures r.Some? ==> forall k :: 0 <= k < r.value ==> t.rows[k].id != id
    ensures r.None? <==> !HasId(t, id)
    decreases |t.rows| - from
  {
    if from == |t.rows| then None
    else if t.rows[from].id == id then Some(from)
    else IndexOf(t, id, from + 1)
  }

  /** `SELECT ... WHERE id = ?`: the data of the row with key `id`, if any. */
  function Find<T>(t: Table<T>, id: int): (r: Option<T>)
    ensures r.Some? <==> HasId(t, id)
    ensures r.Some? ==> exists i :: 0 <= i < |t.rows| && t.rows[i] == Row(id, r.value)
  {
    match IndexOf(t, id)
    case Some(i) => Some(t.rows[i].data)
    case None => None
  }

  /** `DELETE ... WHERE id = ?`: drops the row with that key (if any); the key counter is untouched. */
  function Delete<T(!new)>(t: Table<T>, id: int): (r: Table<T>)
    ensures r.lastId == t.lastId
    ensures forall x :: x in r.rows <==> x in t.rows && x.id != id
    ensures !HasId(r, id)
    ensures Valid(t) ==> Valid(r)
    ensures !HasId(t, id) ==> r == t
  {
    var rows := Seqs.Filter(t.rows, (x: Row<T>) => x.id != id);
    if !HasId(t, id) then
      Seqs.FilterKeepsAll(t.rows, (x: Row<T>) => x.id != id);
      Table(rows, t.lastId)
    else
      var r := Table(rows, t.lastId);
      assert forall i :: 0 <= i < |rows| ==> rows[i] in t.rows;
      assert Valid(t) ==> Valid(r) by {
        if Valid(t) {
          Seqs.FilterKeepsPairwise(t.rows, (x: Row<T>) => x.id != id, (x: Row<T>, y: Row<T>) => x.id < y.id);
        }
      }
      r
  }

  /** `UPDATE ... WHERE id = ?`: rewrites the data of the row with that key by `f`; every other row,
      every key and the key counter stay as they were. */
  function Update<T>(t: Table<T>, id: int, f: T -> T): (r: Table<T>)
    ensures r.lastId == t.lastId && |r.rows| == |t.rows|
    ensures forall i :: 0 <= i < |t.rows| ==> r.rows[i].id == t.rows[i].id
    ensures forall i :: 0 <= i < |t.rows| && t.rows[i].id != id ==> r.rows[i] == t.rows[i]
    ensures forall i :: 0 <= i < |t.rows| && t.rows[i].id == id ==> r.rows[i].data == f(t.rows[i].data)
    ensures Valid(t) ==> Valid(r)
  {
    Table(seq(|t.rows|, i requires 0 <= i < |t.rows| =>
      if t.rows[i].id == id then Row(id, f(t.rows[i].data)) else t.rows[i]), t.lastId)
  }

  /** The data column of every row, in row order. */
  function Column<T>(t: Table<T>): (r: seq<T>)
    ensures |r| == |t.rows| && forall i :: 0 <= i < |r| ==> r[i] == t.rows[i].data
  {
    seq(|t.rows|, i requires 0 <= i < |t.rows| => t.rows[i].data)
  }

  /** After an update, looking the key up finds the rewritten data. */
  lemma FindAfterUpdate<T>(t: Table<T>, id: int, f: T -> T)
    requires HasId(t, id)
    ensures Find(Update(t, id, f), id) == Some(f(Find(t, id).value))
  {
    var u := Update(t, id, f);
    var i := IndexOf(t, id).value;
    assert u.rows[i].id == id;
  }

  /** Applying an idempotent rewrite twice to the same key is the same as applying it once. */
  lemma UpdateIdempotent<T>(t: Table<T>, id: int, f: T -> T)
    requires forall d :: f(f(d)) == f(d)
    ensures Update(Update(t, id, f), id, f) == Update(t, id, f)
  {
    var once := Update(t, id, f);
    var twice := Update(once, id, f);
    assert twice.rows == once.rows by {
      forall i | 0 <= i < |t.rows|
        ensures twice.rows[i] == once.rows[i]
      {
        if t.rows[i].id == id {
          assert f(f(t.rows[i].data)) == f(t.rows[i].data);
        }
      }
    }
  }

  /** A rewrite that changes nothing leaves the table as it was. */
  lemma UpdateIdentity<T>(t: Table<T>, id: int, f: T -> T)
    requires forall d :: f(d) == d
    ensures Update(t, id, f) == t
  {
    var u := Update(t, id, f);
    assert u.rows == t.rows by {
      forall i | 0 <= i < |t.rows|
        ensures u.rows[i] == t.rows[i]
      {
        if t.rows[i].id == id {
          assert f(t.rows[i].data) == t.rows[i].data;
        }
      }
    }
  }
}
