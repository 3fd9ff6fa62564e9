/** What a DeltaAppender holds and what flushing it does to the target table.
    A direct appender holds rows; one with a temporary table holds a log of row
    versions and delete markers, each stamped with a row number. */
module DeltaLog {
  import opened Common
  import opened Tables

  /** One row of the temporary table: its columns, "#mdb_delete_flag", "#mdb_row_no". */
  datatype LogRow = LogRow(cols: Row, deleted: bool, rowNo: nat)

  datatype Delta = Delta(useTmp: bool, log: seq<LogRow>, rowCount: nat, hasInsert: bool, hasDelete: bool)

  function EmptyDelta(useTmp: bool): Delta {
    Delta(useTmp, [], 0, false, false)
  }

  /** A delete marker keeps the key columns and leaves the others NULL. */
  function MarkerRow(row: Row, pk: seq<nat>): (m: Row)
    ensures |m| == |row|
  {
    seq(|row|, i requires 0 <= i < |row| => if i in pk then row[i] else Null)
  }

  function AppendInsert(d: Delta, row: Row): Delta {
    d.(log := d.log + [LogRow(row, false, d.rowCount + 1)], rowCount := d.rowCount + 1, hasInsert := true)
  }

  function AppendDelete(d: Delta, row: Row, pk: seq<nat>): Delta {
    d.(log := d.log + [LogRow(MarkerRow(row, pk), true, d.rowCount + 1)],
       rowCount := d.rowCount + 1, hasDelete := true)
  }

  function AppendUpdate(d: Delta, before: Row, after: Row, pk: seq<nat>): Delta {
    AppendInsert(AppendDelete(d, before, pk), after)
  }

  /** A failing append has already counted the row and raised the flag, but logs nothing. */
  function FailedInsert(d: Delta): Delta {
    d.(rowCount := d.rowCount + 1, hasInsert := true)
  }

  /** A direct appender refuses a delete before it counts it. */
  function FailedDelete(d: Delta): Delta {
    if d.useTmp then d.(rowCount := d.rowCount + 1, hasDelete := true) else d
  }

  /** An update fails at its marker, or at its row with the marker already logged. */
  function FailedUpdate(d: Delta, before: Row, markerOk: bool, pk: seq<nat>): Delta {
    if d.useTmp && markerOk then FailedInsert(AppendDelete(d, before, pk)) else FailedDelete(d)
  }

  /** Row numbers grow along the log, and the flag of every kind of row it holds is raised.
      A flag may be raised without such a row: by a failed append, or before a flush. */
  ghost predicate ValidDelta(d: Delta) {
    && (forall i, j :: 0 <= i < j < |d.log| ==> d.log[i].rowNo < d.log[j].rowNo)
    && (forall i :: 0 <= i < |d.log| ==> d.log[i].rowNo <= d.rowCount)
    && (forall i :: 0 <= i < |d.log| ==> if d.log[i].deleted then d.hasDelete else d.hasInsert)
    && (!d.useTmp ==> !d.hasDelete)
  }

  function LogKeys(log: seq<LogRow>, pk: seq<nat>): set<Key> {
    set i | 0 <= i < |log| :: KeyOf(log[i].cols, pk)
  }

  /** Row `i` has the greatest row number of its key: ROW_NUMBER() OVER (PARTITION BY
      pk ORDER BY "#mdb_row_no" DESC) = 1. */
  ghost predicate IsLatest(log: seq<LogRow>, i: nat, pk: seq<nat>)
    requires i < |log|
  {
    forall j :: 0 <= j < |log| && KeyOf(log[j].cols, pk) == KeyOf(log[i].cols, pk) ==> log[j].rowNo <= log[i].rowNo
  }

  /** The rows among the first `n` of the log that the QUALIFY clause keeps. */
  ghost function LatestRows(log: seq<LogRow>, n: nat, pk: seq<nat>): Table
    requires n <= |log|
  {
    if n == 0 then multiset{}
    else
      LatestRows(log, n - 1, pk) +
      if IsLatest(log, n - 1, pk) && !log[n - 1].deleted then multiset{log[n - 1].cols} else multiset{}
  }

  function DirectRows(log: seq<LogRow>): Table {
    if log == [] then multiset{} else DirectRows(log[..|log| - 1]) + multiset{log[|log| - 1].cols}
  }

  /** The target table after `DeltaAppender::flush(false)`: the DELETE statement runs only
      when the log has a marker and the INSERT statement only when it has a row version. */
  ghost function Flushed(t: Table, d: Delta, pk: seq<nat>): Table {
    if !d.useTmp then t + DirectRows(d.log)
    else
      var kept := if d.hasDelete then DeleteKeys(t, LogKeys(d.log, pk), pk) else t;
      if d.hasInsert then kept + LatestRows(d.log, |d.log|, pk) else kept
  }

  /** Last writer of a key, by position in the log. */
  function Newest(log: seq<LogRow>, k: Key, pk: seq<nat>): (r: Option<LogRow>)
    ensures r.Some? ==> r.value in log && KeyOf(r.value.cols, pk) == k
    ensures r.None? <==> k !in LogKeys(log, pk)
  {
    if log == [] then None
    else if KeyOf(log[|log| - 1].cols, pk) == k then Some(log[|log| - 1])
    else
      assert log == log[..|log| - 1] + [log[|log| - 1]];
      Newest(log[..|log| - 1], k, pk)
  }

  /** The row version a key has in the log, counted as a bag of at most one row. */
  function Live(log: seq<LogRow>, x: Row, pk: seq<nat>): nat {
    var e := Newest(log, KeyOf(x, pk), pk);
    if e.Some? && !e.value.deleted && e.value.cols == x then 1 else 0
  }

  /** The copies of a row the delta holds. */
  function Pending(d: Delta, x: Row, pk: seq<nat>): nat {
    if d.useTmp then Live(d.log, x, pk) else DirectRows(d.log)[x]
  }

  /** The last entry of the key is a row version. */
  predicate LastIsLive(log: seq<LogRow>, k: Key, pk: seq<nat>) {
    var e := Newest(log, k, pk);
    e.Some? && !e.value.deleted
  }

  lemma MarkerKeepsKey(row: Row, pk: seq<nat>)
    ensures KeyOf(MarkerRow(row, pk), pk) == KeyOf(row, pk)
    ensures forall i :: 0 <= i < |row| && i !in pk ==> MarkerRow(row, pk)[i] == Null
  {
  }

  lemma NewestIsLatest(d: Delta, i: nat, pk: seq<nat>)
    requires ValidDelta(d) && i < |d.log|
    ensures IsLatest(d.log, i, pk) <==> Newest(d.log, KeyOf(d.log[i].cols, pk), pk) == Some(d.log[i])
  {
    var k := KeyOf(d.log[i].cols, pk);
    var m := NewestIndex(d.log, k, pk);
    assert d.log[m].rowNo >= d.log[i].rowNo;
  }

  lemma NewestIndex(log: seq<LogRow>, k: Key, pk: seq<nat>) returns (m: nat)
    requires Newest(log, k, pk).Some?
    ensures m < |log| && Newest(log, k, pk) == Some(log[m]) && KeyOf(log[m].cols, pk) == k
    ensures forall j :: m < j < |log| ==> KeyOf(log[j].cols, pk) != k
  {
    if KeyOf(log[|log| - 1].cols, pk) == k {
      m := |log| - 1;
    } else {
      m := NewestIndex(log[..|log| - 1], k, pk);
    }
  }

  ghost predicate Chosen(log: seq<LogRow>, i: nat, x: Row, pk: seq<nat>) {
    i < |log| && IsLatest(log, i, pk) && !log[i].deleted && log[i].cols == x
  }

  lemma ChosenOnce(d: Delta, i: nat, j: nat, x: Row, pk: seq<nat>)
    requires ValidDelta(d) && i < j < |d.log| && Chosen(d.log, j, x, pk)
    ensures !Chosen(d.log, i, x, pk)
  {
    assert d.log[i].rowNo < d.log[j].rowNo;
  }

  lemma {:induction false} LatestRowsUpTo(d: Delta, n: nat, x: Row, pk: seq<nat>)
    requires ValidDelta(d) && n <= |d.log|
    ensures LatestRows(d.log, n, pk)[x] == if exists i :: 0 <= i < n && Chosen(d.log, i, x, pk) then 1 else 0
  {
    if n > 0 {
      LatestRowsUpTo(d, n - 1, x, pk);
      assert LatestRows(d.log, n, pk)[x]
          == LatestRows(d.log, n - 1, pk)[x] + if Chosen(d.log, n - 1, x, pk) then 1 else 0;
      hide LatestRows, IsLatest, ValidDelta, Chosen;
      if Chosen(d.log, n - 1, x, pk) {
        forall i | 0 <= i < n - 1 ensures !Chosen(d.log, i, x, pk) {
          ChosenOnce(d, i, n - 1, x, pk);
        }
      }
    }
  }

  /** The window query computes exactly the last row version of each key, once. */
  lemma LatestRowsAreLive(d: Delta, x: Row, pk: seq<nat>)
    requires ValidDelta(d)
    ensures LatestRows(d.log, |d.log|, pk)[x] == Live(d.log, x, pk)
  {
    LatestRowsUpTo(d, |d.log|, x, pk);
    if i :| 0 <= i < |d.log| && Chosen(d.log, i, x, pk) {
      NewestIsLatest(d, i, pk);
    } else if Live(d.log, x, pk) == 1 {
      var m := NewestIndex(d.log, KeyOf(x, pk), pk);
      NewestIsLatest(d, m, pk);
      assert Chosen(d.log, m, x, pk);
    }
  }

  /** What a flush leaves of one row: the target's copies unless a marker made the DELETE touch
      its key, plus those the delta holds. */
  function CountAfter(t: Table, d: Delta, x: Row, pk: seq<nat>): nat {
    (if d.hasDelete && Matches(KeyOf(x, pk), LogKeys(d.log, pk)) then 0 else t[x]) + Pending(d, x, pk)
  }

  lemma FlushedAt(t: Table, d: Delta, x: Row, pk: seq<nat>)
    requires ValidDelta(d)
    ensures Flushed(t, d, pk)[x] == CountAfter(t, d, x, pk)
  {
    if d.useTmp { LatestRowsAreLive(d, x, pk); }
  }

  lemma {:induction false} DirectRowsAreLogged(log: seq<LogRow>, x: Row)
    ensures x in DirectRows(log) <==> exists i :: 0 <= i < |log| && log[i].cols == x
  {
    if log != [] {
      var init := log[..|log| - 1];
      DirectRowsAreLogged(init, x);
      if x in DirectRows(init) {
        var i :| 0 <= i < |init| && init[i].cols == x;
        assert log[i].cols == x;
      }
      if i :| 0 <= i < |log| && log[i].cols == x {
        assert i < |init| ==> init[i].cols == x;
      }
    }
  }

  /** A key has a pending row exactly when its last entry is a row version. */
  lemma PendingIsLive(d: Delta, x: Row, pk: seq<nat>)
    requires ValidDelta(d) && Pending(d, x, pk) > 0
    ensures LastIsLive(d.log, KeyOf(x, pk), pk)
  {
    if !d.useTmp {
      DirectRowsAreLogged(d.log, x);
      assert KeyOf(x, pk) in LogKeys(d.log, pk);
    }
  }

  lemma LiveIsPending(d: Delta, k: Key, pk: seq<nat>) returns (x: Row)
    requires ValidDelta(d) && LastIsLive(d.log, k, pk)
    ensures KeyOf(x, pk) == k && Pending(d, x, pk) > 0
  {
    x := Newest(d.log, k, pk).value.cols;
    DirectRowsAreLogged(d.log, x);
  }

  ghost predicate NoNullKeys(log: seq<LogRow>, pk: seq<nat>) {
    forall i :: 0 <= i < |log| ==> NoNull(KeyOf(log[i].cols, pk))
  }

  /** Untouched keys keep their rows; a touched key ends with its last version or with none. */
  ghost predicate LastWriterWins(t: Table, d: Delta, pk: seq<nat>) {
    forall x :: Flushed(t, d, pk)[x]
             == if KeyOf(x, pk) in LogKeys(d.log, pk) then Live(d.log, x, pk) else t[x]
  }

  /** A mixed flush is last-writer-wins exactly when the log has a delete marker (so the
      DELETE statement runs) or none of its keys is in the target.  Nothing is assumed
      about key uniqueness, of the target or of the log. */
  lemma MixedFlushLastWriterWins(t: Table, d: Delta, pk: seq<nat>)
    requires ValidDelta(d) && d.useTmp && NoNullKeys(d.log, pk)
    ensures LastWriterWins(t, d, pk)
       <==> d.hasDelete || forall x :: x in t ==> KeyOf(x, pk) !in LogKeys(d.log, pk)
  {
    forall x {
      FlushedAt(t, d, x, pk);
    }
    if x :| x in t && KeyOf(x, pk) in LogKeys(d.log, pk) && !d.hasDelete {
      assert Flushed(t, d, pk)[x] == t[x] + Live(d.log, x, pk);
      assert !LastWriterWins(t, d, pk);
    }
  }

  lemma MixedFlushKeepsUniqueKeys(t: Table, d: Delta, pk: seq<nat>)
    requires ValidDelta(d) && d.useTmp && NoNullKeys(d.log, pk) && d.hasDelete
    requires UniqueKeys(t, pk)
    ensures UniqueKeys(Flushed(t, d, pk), pk)
  {
    MixedFlushLastWriterWins(t, d, pk);
  }

  // ----- one appended row -----

  lemma AppendedLog(log: seq<LogRow>, e: LogRow, k: Key, pk: seq<nat>)
    ensures Newest(log + [e], k, pk) == if KeyOf(e.cols, pk) == k then Some(e) else Newest(log, k, pk)
    ensures LogKeys(log + [e], pk) == LogKeys(log, pk) + {KeyOf(e.cols, pk)}
    ensures DirectRows(log + [e]) == DirectRows(log) + multiset{e.cols}
  {
    var all := log + [e];
    assert all[..|all| - 1] == log;
    forall q ensures q in LogKeys(all, pk) <==> q in LogKeys(log, pk) + {KeyOf(e.cols, pk)} {
      if q in LogKeys(log, pk) {
        var i :| 0 <= i < |log| && q == KeyOf(log[i].cols, pk);
        assert all[i] == log[i];
      }
      assert all[|log|] == e;
    }
  }

  lemma AppendsKeepValid(d: Delta, row: Row, pk: seq<nat>)
    requires ValidDelta(d)
    ensures ValidDelta(AppendInsert(d, row))
    ensures d.useTmp ==> ValidDelta(AppendDelete(d, row, pk))
  {
    var i, m := AppendInsert(d, row), AppendDelete(d, row, pk);
    assert forall j :: 0 <= j < |d.log| ==> i.log[j] == d.log[j] && m.log[j] == d.log[j];
  }

  lemma FailedAppendsKeepValid(d: Delta, row: Row, markerOk: bool, pk: seq<nat>)
    requires ValidDelta(d)
    ensures ValidDelta(FailedInsert(d)) && ValidDelta(FailedDelete(d))
    ensures ValidDelta(FailedUpdate(d, row, markerOk, pk))
  {
    AppendsKeepValid(d, row, pk);
  }

  lemma CountAfterInsert(t: Table, d: Delta, row: Row, x: Row, pk: seq<nat>)
    requires d.useTmp && NoNull(KeyOf(row, pk))
    ensures CountAfter(t, AppendInsert(d, row), x, pk)
         == if KeyOf(x, pk) != KeyOf(row, pk) then CountAfter(t, d, x, pk)
            else (if d.hasDelete then 0 else t[x]) + (if x == row then 1 else 0)
  {
    AppendedLog(d.log, LogRow(row, false, d.rowCount + 1), KeyOf(x, pk), pk);
  }

  /** The target as it will be after the flush, when a row version is appended. */
  lemma InsertAt(t: Table, d: Delta, row: Row, x: Row, pk: seq<nat>)
    requires ValidDelta(d) && d.useTmp && NoNull(KeyOf(row, pk))
    ensures Flushed(t, AppendInsert(d, row), pk)[x]
         == if KeyOf(x, pk) != KeyOf(row, pk) then Flushed(t, d, pk)[x]
            else (if d.hasDelete then 0 else t[x]) + (if x == row then 1 else 0)
  {
    AppendsKeepValid(d, row, pk);
    FlushedAt(t, d, x, pk);
    FlushedAt(t, AppendInsert(d, row), x, pk);
    CountAfterInsert(t, d, row, x, pk);
  }

  /** A log without markers holds only live versions, so under unique visible keys
      none of its keys is in the target. */
  lemma InsertOnlyLogIsDisjoint(t: Table, d: Delta, x: Row, pk: seq<nat>)
    requires ValidDelta(d) && !d.hasDelete && UniqueKeys(Flushed(t, d, pk), pk)
    ensures KeyOf(x, pk) in LogKeys(d.log, pk) ==> t[x] == 0
  {
    if KeyOf(x, pk) in LogKeys(d.log, pk) {
      var y := LiveIsPending(d, KeyOf(x, pk), pk);
      FlushedAt(t, d, x, pk);
      FlushedAt(t, d, y, pk);
      assert y in Flushed(t, d, pk);
    }
  }

  /** Under unique visible keys every flush is last-writer-wins. */
  lemma VisibleAt(t: Table, d: Delta, x: Row, pk: seq<nat>)
    requires ValidDelta(d) && UniqueKeys(Flushed(t, d, pk), pk)
    ensures Flushed(t, d, pk)[x] == if KeyOf(x, pk) in LogKeys(d.log, pk) then Pending(d, x, pk) else t[x]
  {
    FlushedAt(t, d, x, pk);
    if !d.hasDelete { InsertOnlyLogIsDisjoint(t, d, x, pk); }
    if Pending(d, x, pk) > 0 { PendingIsLive(d, x, pk); }
  }

  lemma DeleteAt(t: Table, d: Delta, row: Row, x: Row, pk: seq<nat>)
    requires ValidDelta(d) && d.useTmp && NoNull(KeyOf(row, pk))
    requires UniqueKeys(Flushed(t, d, pk), pk)
    ensures Flushed(t, AppendDelete(d, row, pk), pk)[x]
         == if KeyOf(x, pk) == KeyOf(row, pk) then 0 else Flushed(t, d, pk)[x]
  {
    MarkerKeepsKey(row, pk);
    AppendsKeepValid(d, row, pk);
    FlushedAt(t, d, x, pk);
    FlushedAt(t, AppendDelete(d, row, pk), x, pk);
    AppendedLog(d.log, LogRow(MarkerRow(row, pk), true, d.rowCount + 1), KeyOf(x, pk), pk);
    if !d.hasDelete { InsertOnlyLogIsDisjoint(t, d, x, pk); }
  }

  // ----- appended operations against row-by-row statements -----

  /** Inserting this row now, before the flush, is what row-by-row execution would do. */
  ghost predicate InsertIsFresh(t: Table, d: Delta, row: Row, pk: seq<nat>) {
    || !HasKey(Flushed(t, d, pk), KeyOf(row, pk), pk)
    || (!d.hasDelete && KeyOf(row, pk) !in LogKeys(d.log, pk))
  }

  lemma FreshInsert(t: Table, d: Delta, row: Row, x: Row, pk: seq<nat>)
    requires ValidDelta(d) && d.useTmp && NoNull(KeyOf(row, pk))
    requires InsertIsFresh(t, d, row, pk)
    ensures Flushed(t, AppendInsert(d, row), pk)[x] == Flushed(t, d, pk)[x] + multiset{row}[x]
  {
    InsertAt(t, d, row, x, pk);
    FlushedAt(t, d, x, pk);
    if KeyOf(x, pk) == KeyOf(row, pk) && HasKey(Flushed(t, d, pk), KeyOf(row, pk), pk) {
      assert CountAfter(t, d, x, pk) == t[x];
    }
  }

  lemma StaleInsert(t: Table, d: Delta, row: Row, pk: seq<nat>) returns (x: Row)
    requires ValidDelta(d) && d.useTmp && NoNull(KeyOf(row, pk))
    requires UniqueKeys(Flushed(t, d, pk), pk)
    requires !InsertIsFresh(t, d, row, pk)
    ensures Flushed(t, AppendInsert(d, row), pk)[x] != Flushed(t, d, pk)[x] + multiset{row}[x]
  {
    x :| x in Flushed(t, d, pk) && KeyOf(x, pk) == KeyOf(row, pk);
    InsertAt(t, d, row, x, pk);
    FlushedAt(t, d, x, pk);
    if !d.hasDelete { InsertOnlyLogIsDisjoint(t, d, x, pk); }
  }

  /** Logging a row equals inserting it row by row exactly when its key is not visible, or
      the log has no marker and does not hold that key. */
  lemma InsertAgrees(t: Table, d: Delta, row: Row, pk: seq<nat>)
    requires ValidDelta(d) && d.useTmp && NoNull(KeyOf(row, pk))
    requires UniqueKeys(Flushed(t, d, pk), pk)
    ensures Flushed(t, AppendInsert(d, row), pk) == Flushed(t, d, pk) + multiset{row}
       <==> InsertIsFresh(t, d, row, pk)
  {
    if InsertIsFresh(t, d, row, pk) {
      forall x ensures Flushed(t, AppendInsert(d, row), pk)[x] == Flushed(t, d, pk)[x] + multiset{row}[x] {
        FreshInsert(t, d, row, x, pk);
      }
    } else {
      var x := StaleInsert(t, d, row, pk);
    }
  }

  /** Logging a delete marker always equals deleting by key row by row. */
  lemma DeleteAgrees(t: Table, d: Delta, row: Row, pk: seq<nat>)
    requires ValidDelta(d) && d.useTmp && NoNull(KeyOf(row, pk))
    requires UniqueKeys(Flushed(t, d, pk), pk)
    ensures Flushed(t, AppendDelete(d, row, pk), pk) == DeleteKeys(Flushed(t, d, pk), {KeyOf(row, pk)}, pk)
  {
    forall x {
      DeleteAt(t, d, row, x, pk);
    }
  }

  function AllColumns(row: Row): (cols: set<nat>)
    ensures forall i: nat :: i in cols <==> i < |row|
  {
    if row == [] then {} else AllColumns(row[..|row| - 1]) + {|row| - 1}
  }

  lemma AllColumnsCover(before: Row, after: Row)
    requires |before| == |after|
    ensures Covers(AllColumns(after), before, after)
  {
  }

  /** The log after an update holds a marker, so the last version of a key wins. */
  lemma UpdateAt(t: Table, d: Delta, before: Row, after: Row, x: Row, pk: seq<nat>)
    requires ValidDelta(d) && d.useTmp && NoNull(KeyOf(before, pk)) && NoNull(KeyOf(after, pk))
    requires UniqueKeys(Flushed(t, d, pk), pk)
    ensures Flushed(t, AppendUpdate(d, before, after, pk), pk)[x]
         == if KeyOf(x, pk) == KeyOf(after, pk) then (if x == after then 1 else 0)
            else if KeyOf(x, pk) == KeyOf(before, pk) then 0 else Flushed(t, d, pk)[x]
  {
    AppendsKeepValid(d, before, pk);
    DeleteAt(t, d, before, x, pk);
    InsertAt(t, AppendDelete(d, before, pk), after, x, pk);
  }

  /** When a batched update (marker, then full row) is the same as the row-by-row UPDATE:
      its old key is visible and its new key is free, or it is a no-op either way. */
  ghost predicate UpdateIsClean(vis: Table, before: Row, after: Row, pk: seq<nat>) {
    var b, a := KeyOf(before, pk), KeyOf(after, pk);
    || (HasKey(vis, b, pk) && (a == b || !HasKey(vis, a, pk)))
    || (!HasKey(vis, b, pk) && after in vis)
  }

  /** Updating a visible key: delete, then insert. */
  lemma UpdateOfVisibleKey(t: Table, d: Delta, before: Row, after: Row, pk: seq<nat>)
    requires ValidDelta(d) && d.useTmp && NoNull(KeyOf(before, pk)) && NoNull(KeyOf(after, pk))
    requires UniqueKeys(Flushed(t, d, pk), pk)
    ensures Flushed(t, AppendUpdate(d, before, after, pk), pk)
         == DeleteKeys(Flushed(t, d, pk), {KeyOf(before, pk)}, pk) + multiset{after}
       <==> KeyOf(after, pk) == KeyOf(before, pk) || !HasKey(Flushed(t, d, pk), KeyOf(after, pk), pk)
  {
    var m := AppendDelete(d, before, pk);
    AppendsKeepValid(d, before, pk);
    DeleteAgrees(t, d, before, pk);
    DeletedKeys(Flushed(t, d, pk), KeyOf(before, pk), KeyOf(after, pk), pk);
    InsertAgrees(t, m, after, pk);
  }

  /** A batched update of a key that is not visible leaves the table alone exactly when
      the new row is already there. */
  lemma UpdateOfMissingKey(t: Table, d: Delta, before: Row, after: Row, pk: seq<nat>)
    requires ValidDelta(d) && d.useTmp && NoNull(KeyOf(before, pk)) && NoNull(KeyOf(after, pk))
    requires UniqueKeys(Flushed(t, d, pk), pk) && !HasKey(Flushed(t, d, pk), KeyOf(before, pk), pk)
    ensures Flushed(t, AppendUpdate(d, before, after, pk), pk) == Flushed(t, d, pk)
       <==> after in Flushed(t, d, pk)
  {
    var vis, batched := Flushed(t, d, pk), Flushed(t, AppendUpdate(d, before, after, pk), pk);
    UpdateAt(t, d, before, after, after, pk);
    if after in vis {
      forall x ensures batched[x] == vis[x] {
        UpdateAt(t, d, before, after, x, pk);
      }
    }
  }

  lemma UpdateAgreesWith(t: Table, d: Delta, before: Row, after: Row, single: Table, pk: seq<nat>)
    requires ValidDelta(d) && d.useTmp && NoNull(KeyOf(before, pk)) && NoNull(KeyOf(after, pk))
    requires UniqueKeys(Flushed(t, d, pk), pk)
    requires single == if HasKey(Flushed(t, d, pk), KeyOf(before, pk), pk)
                       then DeleteKeys(Flushed(t, d, pk), {KeyOf(before, pk)}, pk) + multiset{after}
                       else Flushed(t, d, pk)
    ensures Flushed(t, AppendUpdate(d, before, after, pk), pk) == single
       <==> UpdateIsClean(Flushed(t, d, pk), before, after, pk)
  {
    if HasKey(Flushed(t, d, pk), KeyOf(before, pk), pk) {
      UpdateOfVisibleKey(t, d, before, after, pk);
    } else {
      UpdateOfMissingKey(t, d, before, after, pk);
    }
  }

  lemma RowByRowUpdate(vis: Table, k: Key, after: Row, pk: seq<nat>)
    requires UniqueKeys(vis, pk) && forall y :: y in vis ==> |y| == |after|
    ensures UpdateRows(vis, k, after, AllColumns(after), pk)
         == if HasKey(vis, k, pk) then DeleteKeys(vis, {k}, pk) + multiset{after} else vis
  {
    hide UpdateRows, Covers, Overwrite, UniqueKeys, OnlyRow;
    if y :| y in vis && KeyOf(y, pk) == k {
      UniqueIsOnly(vis, y, pk);
      AllColumnsCover(y, after);
      UpdateRowsReplacesOne(vis, y, after, AllColumns(after), pk);
    } else {
      UpdateRowsMissing(vis, k, after, AllColumns(after), pk);
    }
  }

  /** The batched update and the row-by-row UPDATE leave the same table exactly on clean
      updates: a missing old row is inserted by the batch and skipped row by row, and a
      taken new key is replaced by the batch and duplicated row by row. */
  lemma UpdateAgrees(t: Table, d: Delta, before: Row, after: Row, pk: seq<nat>)
    requires ValidDelta(d) && d.useTmp && NoNull(KeyOf(before, pk)) && NoNull(KeyOf(after, pk))
    requires UniqueKeys(Flushed(t, d, pk), pk) && forall y :: y in Flushed(t, d, pk) ==> |y| == |after|
    ensures Flushed(t, AppendUpdate(d, before, after, pk), pk)
         == UpdateRows(Flushed(t, d, pk), KeyOf(before, pk), after, AllColumns(after), pk)
       <==> UpdateIsClean(Flushed(t, d, pk), before, after, pk)
  {
    hide UniqueKeys, Flushed, UpdateRows;
    var vis, k := Flushed(t, d, pk), KeyOf(before, pk);
    var single := UpdateRows(vis, k, after, AllColumns(after), pk);
    RowByRowUpdate(vis, k, after, pk);
    UpdateAgreesWith(t, d, before, after, single, pk);
  }
}
