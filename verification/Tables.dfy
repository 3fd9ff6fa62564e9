/** Rows, keys and tables as DuckDB sees them.  DuckDB tables carry no primary key
    constraint, so a table is a bag of rows, and the row-by-row statements that
    MariaDB sends are operations on bags. */
module Tables {
  import opened Common

  datatype Value = Null | Datum(bytes: seq<Byte>)

  type Row = seq<Value>
  type Key = seq<Value>
  type Table = multiset<Row>

  datatype TableId = TableId(schema: string, name: string)
  type Database = map<TableId, Table>

  /** The primary key columns of each table, in key part order. */
  type Catalog = TableId -> seq<nat>

  /** The key of a row: its primary key columns. */
  function KeyOf(row: Row, pk: seq<nat>): (k: Key)
    ensures |k| == |pk|
  {
    seq(|pk|, i requires 0 <= i < |pk| => if pk[i] < |row| then row[pk[i]] else Null)
  }

  predicate NoNull(k: Key) {
    forall i :: 0 <= i < |k| ==> k[i] != Null
  }

  /** SQL's `(pk) IN (keys)`: a key with a NULL part equals nothing. */
  predicate Matches(k: Key, keys: set<Key>) {
    k in keys && NoNull(k)
  }

  function TableOf(db: Database, t: TableId): Table {
    if t in db then db[t] else multiset{}
  }

  ghost predicate HasKey(t: Table, k: Key, pk: seq<nat>) {
    exists x :: x in t && KeyOf(x, pk) == k
  }

  /** What MariaDB promises about a table with a primary key. */
  ghost predicate UniqueKeys(t: Table, pk: seq<nat>) {
    && (forall x {:trigger t[x]} :: x in t ==> t[x] == 1 && NoNull(KeyOf(x, pk)))
    && (forall x, y {:trigger t[x], t[y]} :: x in t && y in t && KeyOf(x, pk) == KeyOf(y, pk) ==> x == y)
  }

  /** The row has every primary key column. */
  predicate Wide(row: Row, pk: seq<nat>) {
    forall i :: 0 <= i < |pk| ==> pk[i] < |row|
  }

  /** Two rows have the same key exactly when they agree on every primary key column. */
  lemma SameKey(x: Row, y: Row, pk: seq<nat>)
    requires Wide(x, pk) && Wide(y, pk)
    ensures KeyOf(x, pk) == KeyOf(y, pk) <==> forall i :: 0 <= i < |pk| ==> x[pk[i]] == y[pk[i]]
  {
    if KeyOf(x, pk) == KeyOf(y, pk) {
      forall i | 0 <= i < |pk| ensures x[pk[i]] == y[pk[i]] {
        assert KeyOf(x, pk)[i] == KeyOf(y, pk)[i];
      }
    }
  }

  /** A key has a NULL part exactly when some primary key column is NULL. */
  lemma NullKey(x: Row, pk: seq<nat>)
    requires Wide(x, pk)
    ensures NoNull(KeyOf(x, pk)) <==> forall i :: 0 <= i < |pk| ==> x[pk[i]] != Null
  {
    forall i | 0 <= i < |pk| ensures KeyOf(x, pk)[i] == x[pk[i]] {
    }
  }

  /** `r` is `t` without the rows whose key is in `keys`. */
  ghost predicate IsDeleteKeys(r: Table, t: Table, keys: set<Key>, pk: seq<nat>) {
    forall x :: r[x] == if Matches(KeyOf(x, pk), keys) then 0 else t[x]
  }

  lemma DeleteKeysExists(t: Table, keys: set<Key>, pk: seq<nat>) returns (r: Table)
    ensures IsDeleteKeys(r, t, keys, pk)
    decreases |t|
  {
    if t == multiset{} {
      r := t;
    } else {
      var x :| x in t;
      r := DeleteKeysExists(t - multiset{x}, keys, pk);
      if !Matches(KeyOf(x, pk), keys) { r := r + multiset{x}; }
    }
  }

  lemma DeleteKeysDefined(t: Table, keys: set<Key>, pk: seq<nat>)
    ensures exists r :: IsDeleteKeys(r, t, keys, pk)
  {
    var r := DeleteKeysExists(t, keys, pk);
  }

  /** `DELETE FROM t WHERE (pk) IN (keys)`. */
  ghost function DeleteKeys(t: Table, keys: set<Key>, pk: seq<nat>): (r: Table)
    ensures IsDeleteKeys(r, t, keys, pk)
  {
    DeleteKeysDefined(t, keys, pk);
    var r :| IsDeleteKeys(r, t, keys, pk);
    r
  }

  /** A DELETE by the key of `row`, column by column: a row goes exactly when it agrees with `row`
      on every primary key column and none of them is NULL; every other copy stays. */
  lemma DeleteByColumns(t: Table, row: Row, x: Row, pk: seq<nat>)
    requires Wide(row, pk) && Wide(x, pk)
    ensures DeleteKeys(t, {KeyOf(row, pk)}, pk)[x]
         == if forall i :: 0 <= i < |pk| ==> x[pk[i]] == row[pk[i]] && x[pk[i]] != Null then 0 else t[x]
  {
    SameKey(x, row, pk);
    NullKey(x, pk);
    hide KeyOf, NoNull;
  }

  /** The row `x` with the columns in `cols` taken from `after`. */
  function Overwrite(x: Row, after: Row, cols: set<nat>): (r: Row)
    ensures |r| == |x|
  {
    seq(|x|, i requires 0 <= i < |x| => if i in cols && i < |after| then after[i] else x[i])
  }

  ghost function OverwriteAll(t: Table, after: Row, cols: set<nat>): (r: Table)
    decreases |t|
  {
    if t == multiset{} then t
    else
      var x :| x in t;
      OverwriteAll(t - multiset{x}, after, cols) + multiset{Overwrite(x, after, cols)}
  }

  /** The rows an UPDATE by key matches. */
  ghost function Matched(t: Table, k: Key, pk: seq<nat>): (r: Table)
    ensures forall x {:trigger r[x]} :: r[x] == if KeyOf(x, pk) == k && NoNull(k) then t[x] else 0
  {
    t - DeleteKeys(t, {k}, pk)
  }

  /** `UPDATE t SET cols = after WHERE pk = k`: every matching row is overwritten. */
  ghost function UpdateRows(t: Table, k: Key, after: Row, cols: set<nat>, pk: seq<nat>): (r: Table) {
    DeleteKeys(t, {k}, pk) + OverwriteAll(Matched(t, k, pk), after, cols)
  }

  /** The write set the server and the column-limited update agree on: every column
      left out of `cols` has the same value before and after. */
  predicate Covers(cols: set<nat>, before: Row, after: Row) {
    |before| == |after| && forall i :: 0 <= i < |before| && before[i] != after[i] ==> i in cols
  }

  lemma OverwriteGives(before: Row, after: Row, cols: set<nat>)
    ensures Overwrite(before, after, cols) == after <==> Covers(cols, before, after)
  {
    var r := Overwrite(before, after, cols);
    if r == after {
      forall i | 0 <= i < |before| && before[i] != after[i] ensures i in cols {
        assert r[i] == after[i];
      }
    }
  }

  lemma OverwriteOne(before: Row, after: Row, cols: set<nat>)
    ensures OverwriteAll(multiset{before}, after, cols) == multiset{Overwrite(before, after, cols)}
  {
    var t := multiset{before};
    var x :| x in t && OverwriteAll(t, after, cols)
                    == OverwriteAll(t - multiset{x}, after, cols) + multiset{Overwrite(x, after, cols)};
    assert x == before && t - multiset{x} == multiset{};
  }

  /** `row` is the only row of its key. */
  ghost predicate OnlyRow(t: Table, row: Row, pk: seq<nat>) {
    && t[row] == 1 && NoNull(KeyOf(row, pk))
    && forall x {:trigger t[x]} :: x in t && KeyOf(x, pk) == KeyOf(row, pk) ==> x == row
  }

  /** An UPDATE by the key of `before`, column by column: rows that differ from it in a primary key
      column, and rows with a NULL there, keep every copy they had. */
  lemma UpdateByColumns(t: Table, before: Row, after: Row, cols: set<nat>, x: Row, pk: seq<nat>)
    requires Wide(before, pk) && Wide(x, pk)
    ensures var hit := forall i :: 0 <= i < |pk| ==> x[pk[i]] == before[pk[i]] && x[pk[i]] != Null;
            && Matched(t, KeyOf(before, pk), pk)[x] == (if hit then t[x] else 0)
            && UpdateRows(t, KeyOf(before, pk), after, cols, pk)[x]
               == (if hit then 0 else t[x]) + OverwriteAll(Matched(t, KeyOf(before, pk), pk), after, cols)[x]
  {
    DeleteByColumns(t, before, x, pk);
    SameKey(x, before, pk);
    NullKey(x, pk);
    hide KeyOf, NoNull, OverwriteAll;
  }

  lemma UniqueIsOnly(t: Table, row: Row, pk: seq<nat>)
    requires UniqueKeys(t, pk) && row in t
    ensures OnlyRow(t, row, pk)
  {
  }

  /** Updating the only row of a key sets the columns of the write set and touches nothing else;
      it gives the new row exactly when the write set covers the change. */
  lemma UpdateRowsReplacesOne(t: Table, before: Row, after: Row, cols: set<nat>, pk: seq<nat>)
    requires OnlyRow(t, before, pk)
    ensures UpdateRows(t, KeyOf(before, pk), after, cols, pk)
         == DeleteKeys(t, {KeyOf(before, pk)}, pk) + multiset{Overwrite(before, after, cols)}
    ensures Overwrite(before, after, cols) == after <==> Covers(cols, before, after)
  {
    assert Matched(t, KeyOf(before, pk), pk) == multiset{before};
    OverwriteOne(before, after, cols);
    OverwriteGives(before, after, cols);
  }

  /** An UPDATE whose key matches no row changes nothing. */
  lemma UpdateRowsMissing(t: Table, k: Key, after: Row, cols: set<nat>, pk: seq<nat>)
    requires !HasKey(t, k, pk)
    ensures UpdateRows(t, k, after, cols, pk) == t
  {
    assert DeleteKeys(t, {k}, pk) == t;
  }

  lemma DeletedKeys(t: Table, k: Key, q: Key, pk: seq<nat>)
    requires NoNull(k)
    ensures HasKey(DeleteKeys(t, {k}, pk), q, pk) <==> q != k && HasKey(t, q, pk)
    ensures UniqueKeys(t, pk) ==> UniqueKeys(DeleteKeys(t, {k}, pk), pk)
  {
    var r := DeleteKeys(t, {k}, pk);
    if q != k && HasKey(t, q, pk) {
      var x :| x in t && KeyOf(x, pk) == q;
      assert x in r;
    }
  }

  lemma SubtableKeys(t: Table, keys: set<Key>, pk: seq<nat>)
    requires UniqueKeys(t, pk)
    ensures UniqueKeys(DeleteKeys(t, keys, pk), pk)
  {
    var r := DeleteKeys(t, keys, pk);
    assert forall x {:trigger r[x]} :: x in r ==> x in t && r[x] == t[x];
  }

  lemma InsertedKeys(t: Table, row: Row, pk: seq<nat>)
    requires UniqueKeys(t, pk) && NoNull(KeyOf(row, pk)) && !HasKey(t, KeyOf(row, pk), pk)
    ensures UniqueKeys(t + multiset{row}, pk)
  {
  }

  lemma KeptKeys(t: Table, row: Row, pk: seq<nat>)
    requires UniqueKeys(t + multiset{row}, pk)
    ensures NoNull(KeyOf(row, pk)) && !HasKey(t, KeyOf(row, pk), pk)
  {
    hide KeyOf, NoNull;
    var r := t + multiset{row};
    assert row in r && r[row] == 1 && NoNull(KeyOf(row, pk));
    assert forall x :: x in t ==> r[x] == 1 && (KeyOf(x, pk) == KeyOf(row, pk) ==> x == row);
  }
}
