/**
 An in-memory stand-in for an SQLite table whose primary key is declared
 `INTEGER PRIMARY KEY AUTOINCREMENT`: the rows in storage (rowid) order and
 the counter that hands out the next id. Nothing is ever deleted, so the
 counter is always one more than the largest id handed out so far.
 */
module Tables {

  datatype Option<+T> = None | Some(value: T)

  /** One stored row: its primary key and the remaining columns. */
  datatype Row<+T> = Row(id: int, data: T)

  datatype Table<T> = Table(rows: seq<Row<T>>, nextId: int) {

    /** Ids are handed out from 1 upward and never reused: every id is
        positive and below the counter, and ids grow in storage order. */
    ghost predicate Valid() {
      && 1 <= nextId
      && (forall i :: 0 <= i < |rows| ==> 1 <= rows[i].id < nextId)
      && (forall i, j :: 0 <= i < j < |rows| ==> rows[i].id < rows[j].id)
    }

    /** Some row carries primary key `id`. */
    ghost predicate HasId(id: int) {
      exists i :: 0 <= i < |rows| && rows[i].id == id
    }

    /** `INSERT`: the new row goes to the end and takes the counter's value
        as its id; the rows already stored are kept as they were. */
    function Insert(d: T): (t: Table<T>)
      ensures |t.rows| == |rows| + 1 && t.rows[..|rows|] == rows
      ensures t.rows[|rows|].data == d
      ensures Valid() ==> t.Valid() && !HasId(t.rows[|rows|].id)
    {
      Table(rows + [Row(nextId, d)], nextId + 1)
    }
  }

  /** A freshly created table: no rows, the first id handed out is 1. */
  function EmptyTable<T>(): (t: Table<T>)
    ensures t.Valid() && |t.rows| == 0
    ensures t.nextId == 1
  {
    Table([], 1)
  }

  /** In a valid table the primary key identifies at most one row. */
  lemma IdsUnique<T>(t: Table<T>, i: int, j: int)
    requires t.Valid()
    requires 0 <= i < |t.rows| && 0 <= j < |t.rows|
    requires t.rows[i].id == t.rows[j].id
    ensures i == j
  {
  }

  /** `SELECT … WHERE p` followed by `fetchone()`: the first row, in storage
      order, that satisfies `p`; None when no row does. */
  function FirstMatch<T>(rows: seq<Row<T>>, p: Row<T> -> bool): (r: Option<Row<T>>)
    ensures r.None? <==> forall i :: 0 <= i < |rows| ==> !p(rows[i])
    ensures r.Some? ==>
      exists i :: 0 <= i < |rows| && rows[i] == r.value && p(rows[i])
        && forall j :: 0 <= j < i ==> !p(rows[j])
  {
    if rows == [] then None
    else if p(rows[0]) then Some(rows[0])
    else
      var r := FirstMatch(rows[1..], p);
      assert forall i :: 1 <= i < |rows| ==> rows[i] == rows[1..][i - 1];
      r
  }

  /** Some row's `key` column equals `k`. */
  ghost predicate HasKey<T, K>(rows: seq<Row<T>>, key: T -> K, k: K) {
    exists i :: 0 <= i < |rows| && key(rows[i].data) == k
  }

  /** The `UNIQUE` constraint on the `key` column. */
  ghost predicate UniqueKeys<T, K>(rows: seq<Row<T>>, key: T -> K) {
    forall i, j :: 0 <= i < j < |rows| ==> key(rows[i].data) != key(rows[j].data)
  }

  function KeyIs<T, K(==)>(key: T -> K, k: K): Row<T> -> bool {
    (r: Row<T>) => key(r.data) == k
  }

  /** `SELECT id FROM … WHERE <key> = ?` followed by `fetchone()`. */
  function IdByKey<T, K(==)>(t: Table<T>, key: T -> K, k: K): (r: Option<int>)
    ensures r.Some? <==> HasKey(t.rows, key, k)
    ensures r.Some? ==> exists i :: 0 <= i < |t.rows| && t.rows[i].id == r.value && key(t.rows[i].data) == k
  {
    match FirstMatch(t.rows, KeyIs(key, k))
    case None => None
    case Some(row) => Some(row.id)
  }

  /** Under the `UNIQUE` constraint the lookup finds THE row with that key. */
  lemma IdByKeyUnique<T, K>(t: Table<T>, key: T -> K, i: int)
    requires UniqueKeys(t.rows, key)
    requires 0 <= i < |t.rows|
    ensures IdByKey(t, key, key(t.rows[i].data)) == Some(t.rows[i].id)
  {
    var k := key(t.rows[i].data);
    var r := IdByKey(t, key, k);
    assert HasKey(t.rows, key, k);
    var j :| 0 <= j < |t.rows| && t.rows[j].id == r.value && key(t.rows[j].data) == k;
    assert i == j;
  }

  /** The check-before-insert step of every seeding loop: look the key up
      and `INSERT` only when no row carries it yet. */
  function InsertIfAbsent<T, K(==)>(t: Table<T>, key: T -> K, d: T): (r: Table<T>)
    ensures HasKey(t.rows, key, key(d)) ==> r == t
    ensures !HasKey(t.rows, key, key(d)) ==>
      |r.rows| == |t.rows| + 1 && r.rows[..|t.rows|] == t.rows && r.rows[|t.rows|].data == d
    ensures HasKey(r.rows, key, key(d))
    ensures t.Valid() ==> r.Valid()
    ensures UniqueKeys(t.rows, key) ==> UniqueKeys(r.rows, key)
  {
    if IdByKey(t, key, key(d)).Some? then t
    else
      var r := t.Insert(d);
      assert key(r.rows[|t.rows|].data) == key(d);
      assert forall i :: 0 <= i < |t.rows| ==> r.rows[i] == t.rows[i];
      r
  }

  /** Extending a table at the end keeps every key it already had. */
  lemma ExtendKeepsKey<T, K>(a: seq<Row<T>>, b: seq<Row<T>>, key: T -> K, k: K)
    requires |a| <= |b| && b[..|a|] == a
    requires HasKey(a, key, k)
    ensures HasKey(b, key, k)
  {
    var i :| 0 <= i < |a| && key(a[i].data) == k;
    assert b[i] == b[..|a|][i];
  }

  /** After an `INSERT` the only new key is the inserted row's. */
  lemma InsertedKeys<T, K>(t: Table<T>, key: T -> K, d: T, k: K)
    requires HasKey(t.Insert(d).rows, key, k)
    ensures HasKey(t.rows, key, k) || key(d) == k
  {
    var r := t.Insert(d);
    var i :| 0 <= i < |r.rows| && key(r.rows[i].data) == k;
    if i < |t.rows| {
      assert r.rows[i] == r.rows[..|t.rows|][i];
    }
  }
}
