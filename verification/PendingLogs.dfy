/** Statements that run on a table while its delta is still pending.  This happens after a failed
    append, which leaves the batch without flushing, and after a failed flush.  Each lemma gives
    the exact condition under which a later flush still yields what row-by-row execution would
    have: for every valid delta, direct or with a temporary table, whatever flags failed appends
    have raised. */
module PendingLogs {
  import opened Tables
  import opened DeltaLog

  // ----- what a failed append does to the delta -----

  /** A raised insert flag changes nothing: the query over the log finds no row version. */
  lemma RaisedInsertFlag(t: Table, d: Delta, pk: seq<nat>)
    requires ValidDelta(d)
    ensures ValidDelta(FailedInsert(d)) && Flushed(t, FailedInsert(d), pk) == Flushed(t, d, pk)
  {
    var got, want := Flushed(t, FailedInsert(d), pk), Flushed(t, d, pk);
    forall x ensures got[x] == want[x] {
      FlushedAt(t, FailedInsert(d), x, pk);
      FlushedAt(t, d, x, pk);
    }
  }

  /** A raised delete flag makes the DELETE run over the keys of the log; under unique visible
      keys those of a log without markers are not in the table. */
  lemma RaisedDeleteFlag(t: Table, d: Delta, pk: seq<nat>)
    requires ValidDelta(d) && UniqueKeys(Flushed(t, d, pk), pk)
    ensures ValidDelta(FailedDelete(d)) && Flushed(t, FailedDelete(d), pk) == Flushed(t, d, pk)
  {
    hide Flushed;
    var got, want := Flushed(t, FailedDelete(d), pk), Flushed(t, d, pk);
    forall x ensures got[x] == want[x] {
      FlushedAt(t, FailedDelete(d), x, pk);
      FlushedAt(t, d, x, pk);
      VisibleAt(t, d, x, pk);
    }
  }

  // ----- statements under a pending delta -----

  lemma InsertUnderPendingLogAt(t: Table, d: Delta, row: Row, x: Row, pk: seq<nat>)
    requires ValidDelta(d)
    ensures Flushed(t + multiset{row}, d, pk)[x]
         == Flushed(t, d, pk)[x]
          + if x == row && !(d.hasDelete && Matches(KeyOf(row, pk), LogKeys(d.log, pk))) then 1 else 0
  {
    FlushedAt(t + multiset{row}, d, x, pk);
    FlushedAt(t, d, x, pk);
  }

  /** An INSERT of `sent` survives the flush as `row` exactly when it is that row and the log
      would not delete its key. */
  lemma InsertUnderPendingLog(t: Table, d: Delta, sent: Row, row: Row, pk: seq<nat>)
    requires ValidDelta(d) && NoNull(KeyOf(row, pk))
    ensures Flushed(t + multiset{sent}, d, pk) == Flushed(t, d, pk) + multiset{row}
       <==> sent == row && !(d.hasDelete && KeyOf(row, pk) in LogKeys(d.log, pk))
  {
    hide Flushed, ValidDelta, LogKeys;
    var got, want := Flushed(t + multiset{sent}, d, pk), Flushed(t, d, pk) + multiset{row};
    if sent == row && !(d.hasDelete && KeyOf(row, pk) in LogKeys(d.log, pk)) {
      forall x ensures got[x] == want[x] {
        InsertUnderPendingLogAt(t, d, row, x, pk);
      }
    } else {
      InsertUnderPendingLogAt(t, d, sent, row, pk);
      assert got[row] != want[row];
    }
  }

  lemma DeleteUnderPendingLogAt(t: Table, d: Delta, k: Key, x: Row, pk: seq<nat>)
    requires ValidDelta(d) && NoNull(k)
    ensures Flushed(DeleteKeys(t, {k}, pk), d, pk)[x]
         == if KeyOf(x, pk) == k then Pending(d, x, pk) else Flushed(t, d, pk)[x]
  {
    FlushedAt(DeleteKeys(t, {k}, pk), d, x, pk);
    FlushedAt(t, d, x, pk);
  }

  /** A DELETE takes effect exactly when the delta holds no live version of its key. */
  lemma DeleteUnderPendingLog(t: Table, d: Delta, k: Key, pk: seq<nat>)
    requires ValidDelta(d) && NoNull(k)
    ensures Flushed(DeleteKeys(t, {k}, pk), d, pk) == DeleteKeys(Flushed(t, d, pk), {k}, pk)
       <==> !LastIsLive(d.log, k, pk)
  {
    hide Flushed, ValidDelta, Pending, LastIsLive;
    var got, want := Flushed(DeleteKeys(t, {k}, pk), d, pk), DeleteKeys(Flushed(t, d, pk), {k}, pk);
    if LastIsLive(d.log, k, pk) {
      var x := LiveIsPending(d, k, pk);
      DeleteUnderPendingLogAt(t, d, k, x, pk);
      assert got[x] > 0 && want[x] == 0;
    } else {
      forall x ensures got[x] == want[x] {
        DeleteUnderPendingLogAt(t, d, k, x, pk);
        if KeyOf(x, pk) == k && Pending(d, x, pk) > 0 { PendingIsLive(d, x, pk); }
      }
    }
  }

  /** What a row-by-row UPDATE of a visible row leaves. */
  ghost function Replaced(vis: Table, before: Row, after: Row, pk: seq<nat>): Table {
    DeleteKeys(vis, {KeyOf(before, pk)}, pk) + multiset{after}
  }

  /** The update finds its row and its new key is its own or free. */
  ghost predicate LegalChange(vis: Table, before: Row, after: Row, pk: seq<nat>) {
    && before in vis && NoNull(KeyOf(after, pk))
    && (KeyOf(after, pk) == KeyOf(before, pk) || !HasKey(vis, KeyOf(after, pk), pk))
  }

  /** A row the delta holds stays visible, whatever a statement does to the table. */
  lemma HeldRowStays(t: Table, t1: Table, d: Delta, before: Row, pk: seq<nat>)
    requires ValidDelta(d) && UniqueKeys(Flushed(t, d, pk), pk)
    requires before in Flushed(t, d, pk) && KeyOf(before, pk) in LogKeys(d.log, pk)
    ensures before in Flushed(t1, d, pk)
  {
    VisibleAt(t, d, before, pk);
    FlushedAt(t1, d, before, pk);
  }

  /** A row whose key is not logged is in the table, and alone there. */
  lemma UnloggedRow(t: Table, d: Delta, before: Row, pk: seq<nat>)
    requires ValidDelta(d) && UniqueKeys(Flushed(t, d, pk), pk)
    requires before in Flushed(t, d, pk) && KeyOf(before, pk) !in LogKeys(d.log, pk)
    ensures OnlyRow(t, before, pk)
  {
    hide Flushed, ValidDelta, LogKeys, Pending;
    forall x | KeyOf(x, pk) == KeyOf(before, pk) ensures Flushed(t, d, pk)[x] == t[x] {
      VisibleAt(t, d, x, pk);
    }
  }

  lemma UpdateOfUnloggedKey(t: Table, d: Delta, before: Row, after: Row, sent: Row, pk: seq<nat>)
    requires ValidDelta(d) && UniqueKeys(Flushed(t, d, pk), pk) && LegalChange(Flushed(t, d, pk), before, after, pk)
    requires KeyOf(before, pk) !in LogKeys(d.log, pk)
    ensures Flushed(DeleteKeys(t, {KeyOf(before, pk)}, pk) + multiset{sent}, d, pk)
         == Replaced(Flushed(t, d, pk), before, after, pk)
       <==> sent == after && KeyOf(after, pk) !in LogKeys(d.log, pk)
  {
    hide Flushed, ValidDelta, UniqueKeys, LogKeys, Pending, Newest;
    var mid := DeleteKeys(t, {KeyOf(before, pk)}, pk);
    assert NoNull(KeyOf(before, pk)) by { UnloggedRow(t, d, before, pk); }
    assert !LastIsLive(d.log, KeyOf(before, pk), pk);
    DeleteUnderPendingLog(t, d, KeyOf(before, pk), pk);
    InsertUnderPendingLog(mid, d, sent, after, pk);
    if KeyOf(after, pk) in LogKeys(d.log, pk) && !d.hasDelete {
      LoggedWithoutMarker(t, d, KeyOf(after, pk), pk);
    }
  }

  lemma LoggedWithoutMarker(t: Table, d: Delta, k: Key, pk: seq<nat>)
    requires ValidDelta(d) && !d.hasDelete && k in LogKeys(d.log, pk)
    ensures HasKey(Flushed(t, d, pk), k, pk)
  {
    var x := LiveIsPending(d, k, pk);
    FlushedAt(t, d, x, pk);
  }

  /** Overwritten rows keep the key when the new row has the same key. */
  lemma {:induction false} OverwriteKeepsKey(t: Table, after: Row, cols: set<nat>, k: Key, pk: seq<nat>)
    requires NoNull(k) && KeyOf(after, pk) == k && forall x :: x in t ==> KeyOf(x, pk) == k
    ensures forall y :: y in OverwriteAll(t, after, cols) ==> KeyOf(y, pk) == k
    decreases |t|
  {
    if t != multiset{} {
      var x :| x in t && OverwriteAll(t, after, cols)
                      == OverwriteAll(t - multiset{x}, after, cols) + multiset{Overwrite(x, after, cols)};
      OverwriteKeepsKey(t - multiset{x}, after, cols, k, pk);
      OverwrittenKey(x, after, cols, pk);
    }
  }

  lemma OverwrittenKey(x: Row, after: Row, cols: set<nat>, pk: seq<nat>)
    requires KeyOf(x, pk) == KeyOf(after, pk) && NoNull(KeyOf(x, pk))
    ensures KeyOf(Overwrite(x, after, cols), pk) == KeyOf(x, pk)
  {
    var y := Overwrite(x, after, cols);
    forall i | 0 <= i < |pk| ensures KeyOf(y, pk)[i] == KeyOf(x, pk)[i] {
      assert KeyOf(x, pk)[i] == KeyOf(after, pk)[i];
    }
  }

  /** An UPDATE that changes nothing is harmless even when the log holds its row. */
  lemma IdleUpdateOfLoggedKey(t: Table, d: Delta, row: Row, cols: set<nat>, x: Row, pk: seq<nat>)
    requires ValidDelta(d) && UniqueKeys(Flushed(t, d, pk), pk) && row in Flushed(t, d, pk)
    requires KeyOf(row, pk) in LogKeys(d.log, pk)
    ensures Flushed(UpdateRows(t, KeyOf(row, pk), row, cols, pk), d, pk)[x] == Flushed(t, d, pk)[x]
  {
    hide Flushed, ValidDelta;
    var k := KeyOf(row, pk);
    var t1, hit := UpdateRows(t, k, row, cols, pk), Matched(t, k, pk);
    assert NoNull(k) && forall y :: y in hit ==> KeyOf(y, pk) == k;
    OverwriteKeepsKey(hit, row, cols, k, pk);
    FlushedAt(t1, d, x, pk);
    FlushedAt(t, d, x, pk);
    if !d.hasDelete {
      forall y ensures hit[y] == 0 {
        InsertOnlyLogIsDisjoint(t, d, y, pk);
      }
      assert hit == multiset{};
    }
    hide UniqueKeys, LogKeys, Pending;
    assert KeyOf(x, pk) != k ==> t1[x] == t[x];
  }

  lemma ReplacedByItself(vis: Table, row: Row, pk: seq<nat>)
    requires UniqueKeys(vis, pk) && row in vis
    ensures Replaced(vis, row, row, pk) == vis
  {
    var r := Replaced(vis, row, row, pk);
    forall x ensures r[x] == vis[x] {
      if x in vis && KeyOf(x, pk) == KeyOf(row, pk) { assert x == row; }
    }
  }

  /** A legal UPDATE takes effect exactly when it changes nothing, or its write set covers the
      change and the log touches neither its old nor its new key. */
  lemma UpdateUnderPendingLog(t: Table, d: Delta, before: Row, after: Row, cols: set<nat>, pk: seq<nat>)
    requires ValidDelta(d) && UniqueKeys(Flushed(t, d, pk), pk) && LegalChange(Flushed(t, d, pk), before, after, pk)
    ensures Flushed(UpdateRows(t, KeyOf(before, pk), after, cols, pk), d, pk)
         == Replaced(Flushed(t, d, pk), before, after, pk)
       <==> || before == after
            || (&& Covers(cols, before, after)
                && KeyOf(before, pk) !in LogKeys(d.log, pk) && KeyOf(after, pk) !in LogKeys(d.log, pk))
  {
    hide UpdateRows, Flushed, ValidDelta, LogKeys, Overwrite, OnlyRow;
    var k := KeyOf(before, pk);
    var t1, vis := UpdateRows(t, k, after, cols, pk), Flushed(t, d, pk);
    if k !in LogKeys(d.log, pk) {
      UnloggedRow(t, d, before, pk);
      UpdateRowsReplacesOne(t, before, after, cols, pk);
      UpdateOfUnloggedKey(t, d, before, after, Overwrite(before, after, cols), pk);
    } else if before == after {
      ReplacedByItself(vis, before, pk);
      forall x ensures Flushed(t1, d, pk)[x] == vis[x] {
        IdleUpdateOfLoggedKey(t, d, before, cols, x, pk);
      }
    } else {
      HeldRowStays(t, t1, d, before, pk);
      assert before !in Replaced(vis, before, after, pk);
    }
  }

  // ----- an update whose marker was logged before its row failed -----

  /** The rows an UPDATE by key writes. */
  ghost function Rewritten(t: Table, k: Key, after: Row, cols: set<nat>, pk: seq<nat>): Table {
    OverwriteAll(Matched(t, k, pk), after, cols)
  }

  lemma MarkedLog(d: Delta, before: Row, k: Key, pk: seq<nat>)
    ensures LogKeys(AppendDelete(d, before, pk).log, pk) == LogKeys(d.log, pk) + {KeyOf(before, pk)}
    ensures var e := Newest(AppendDelete(d, before, pk).log, k, pk);
            if k == KeyOf(before, pk) then e.Some? && e.value.deleted else e == Newest(d.log, k, pk)
  {
    hide LogKeys, Newest, MarkerRow;
    MarkerKeepsKey(before, pk);
    AppendedLog(d.log, LogRow(MarkerRow(before, pk), true, d.rowCount + 1), k, pk);
  }

  lemma MarkedAt(t: Table, d: Delta, before: Row, x: Row, pk: seq<nat>)
    requires ValidDelta(d) && d.useTmp
    ensures Flushed(t, AppendDelete(d, before, pk), pk)[x]
         == (if Matches(KeyOf(x, pk), LogKeys(d.log, pk) + {KeyOf(before, pk)}) then 0 else t[x])
          + (if KeyOf(x, pk) == KeyOf(before, pk) then 0 else Pending(d, x, pk))
  {
    hide ValidDelta, LogKeys, Newest, Flushed;
    AppendsKeepValid(d, before, pk);
    MarkedLog(d, before, KeyOf(x, pk), pk);
    FlushedAt(t, AppendDelete(d, before, pk), x, pk);
  }

  lemma UpdateAfterMarkerAt(t: Table, d: Delta, before: Row, after: Row, cols: set<nat>, x: Row, pk: seq<nat>)
    requires ValidDelta(d) && d.useTmp && UniqueKeys(Flushed(t, d, pk), pk) && NoNull(KeyOf(before, pk))
    ensures Flushed(UpdateRows(t, KeyOf(before, pk), after, cols, pk), AppendDelete(d, before, pk), pk)[x]
         == DeleteKeys(Flushed(t, d, pk), {KeyOf(before, pk)}, pk)[x]
          + DeleteKeys(Rewritten(t, KeyOf(before, pk), after, cols, pk),
                       LogKeys(AppendDelete(d, before, pk).log, pk), pk)[x]
  {
    hide Flushed, ValidDelta, OverwriteAll, Pending, LogKeys, AppendDelete;
    MarkedAt(UpdateRows(t, KeyOf(before, pk), after, cols, pk), d, before, x, pk);
    MarkedLog(d, before, [], pk);
    FlushedAt(t, d, x, pk);
    VisibleAt(t, d, x, pk);
    assert Flushed(t, d, pk)[x] > 0 ==> NoNull(KeyOf(x, pk));
    hide UniqueKeys;
  }

  /** The log then deletes the old row and hides everything the UPDATE writes under a logged key.
      The update takes effect exactly when what escapes is the new row. */
  lemma UpdateAfterMarker(t: Table, d: Delta, before: Row, after: Row, cols: set<nat>, pk: seq<nat>)
    requires ValidDelta(d) && d.useTmp && UniqueKeys(Flushed(t, d, pk), pk) && NoNull(KeyOf(before, pk))
    ensures var k, left := KeyOf(before, pk), FailedUpdate(d, before, true, pk);
            var got := Flushed(UpdateRows(t, k, after, cols, pk), left, pk);
            var escaped := DeleteKeys(Rewritten(t, k, after, cols, pk), LogKeys(left.log, pk), pk);
            && got == DeleteKeys(Flushed(t, d, pk), {k}, pk) + escaped
            && (got == Replaced(Flushed(t, d, pk), before, after, pk) <==> escaped == multiset{after})
  {
    hide Flushed, ValidDelta, UpdateRows, Rewritten, LogKeys, UniqueKeys;
    var k, m := KeyOf(before, pk), AppendDelete(d, before, pk);
    AppendsKeepValid(d, before, pk);
    RaisedInsertFlag(UpdateRows(t, k, after, cols, pk), m, pk);
    var got := Flushed(UpdateRows(t, k, after, cols, pk), m, pk);
    var gone := DeleteKeys(Flushed(t, d, pk), {k}, pk);
    var escaped := DeleteKeys(Rewritten(t, k, after, cols, pk), LogKeys(m.log, pk), pk);
    forall x ensures got[x] == gone[x] + escaped[x] {
      UpdateAfterMarkerAt(t, d, before, after, cols, x, pk);
    }
    assert got == gone + escaped;
    if got == gone + multiset{after} {
      assert escaped == got - gone == multiset{after};
    }
  }

  /** In a table with unique keys this means: the key changes to one that is not logged, and the
      table, not only the log, holds a row of the old key that the write set turns into the new
      one.  An update that keeps its key is always lost. */
  lemma WhatEscapesTheMarker(t: Table, d: Delta, before: Row, after: Row, cols: set<nat>, pk: seq<nat>)
    requires d.useTmp && UniqueKeys(t, pk) && NoNull(KeyOf(before, pk)) && NoNull(KeyOf(after, pk))
    ensures DeleteKeys(Rewritten(t, KeyOf(before, pk), after, cols, pk),
                       LogKeys(FailedUpdate(d, before, true, pk).log, pk), pk) == multiset{after}
       <==> && KeyOf(after, pk) != KeyOf(before, pk) && KeyOf(after, pk) !in LogKeys(d.log, pk)
            && exists y :: y in t && KeyOf(y, pk) == KeyOf(before, pk) && Covers(cols, y, after)
  {
    hide AppendDelete, LogKeys, Rewritten, UniqueKeys, Newest, Covers;
    MarkedLog(d, before, [], pk);
    Escapes(t, KeyOf(before, pk), after, cols, LogKeys(d.log, pk) + {KeyOf(before, pk)}, pk);
  }

  lemma Escapes(t: Table, k: Key, after: Row, cols: set<nat>, logged: set<Key>, pk: seq<nat>)
    requires UniqueKeys(t, pk) && NoNull(k) && NoNull(KeyOf(after, pk))
    ensures DeleteKeys(Rewritten(t, k, after, cols, pk), logged, pk) == multiset{after}
       <==> KeyOf(after, pk) !in logged && exists y :: y in t && KeyOf(y, pk) == k && Covers(cols, y, after)
  {
    hide Rewritten, Covers, Overwrite;
    if y :| y in t && KeyOf(y, pk) == k {
      UniqueIsOnly(t, y, pk);
      OnlyRewritten(t, y, after, cols, pk);
      EscapedOne(Overwrite(y, after, cols), after, logged, pk);
      OverwriteGives(y, after, cols);
    } else {
      NothingRewritten(t, k, after, cols, pk);
      assert DeleteKeys(multiset{}, logged, pk)[after] == 0;
    }
  }

  lemma NothingRewritten(t: Table, k: Key, after: Row, cols: set<nat>, pk: seq<nat>)
    requires !HasKey(t, k, pk)
    ensures Rewritten(t, k, after, cols, pk) == multiset{}
  {
    assert Matched(t, k, pk) == multiset{};
  }

  lemma OnlyRewritten(t: Table, y: Row, after: Row, cols: set<nat>, pk: seq<nat>)
    requires OnlyRow(t, y, pk)
    ensures Rewritten(t, KeyOf(y, pk), after, cols, pk) == multiset{Overwrite(y, after, cols)}
  {
    assert Matched(t, KeyOf(y, pk), pk) == multiset{y};
    OverwriteOne(y, after, cols);
  }

  lemma EscapedOne(z: Row, after: Row, logged: set<Key>, pk: seq<nat>)
    requires NoNull(KeyOf(after, pk))
    ensures DeleteKeys(multiset{z}, logged, pk) == multiset{after} <==> z == after && KeyOf(after, pk) !in logged
  {
    var r := DeleteKeys(multiset{z}, logged, pk);
    if z == after && KeyOf(after, pk) !in logged {
      assert r == multiset{after};
    } else {
      assert r[after] == 0;
    }
  }

  /** When the statement fails too, the error is reported and yet the marker deletes the row. */
  lemma MarkerAloneDeletes(t: Table, d: Delta, before: Row, pk: seq<nat>)
    requires ValidDelta(d) && d.useTmp && UniqueKeys(Flushed(t, d, pk), pk) && NoNull(KeyOf(before, pk))
    ensures Flushed(t, FailedUpdate(d, before, true, pk), pk) == DeleteKeys(Flushed(t, d, pk), {KeyOf(before, pk)}, pk)
  {
    AppendsKeepValid(d, before, pk);
    RaisedInsertFlag(t, AppendDelete(d, before, pk), pk);
    DeleteAgrees(t, d, before, pk);
  }

  // ----- a delta that changes nothing -----

  /** Every logged key already ends in the table as it ends in the log. */
  ghost predicate Ineffective(t: Table, d: Delta, pk: seq<nat>) {
    if !d.hasDelete then d.log == []
    else forall k :: k in LogKeys(d.log, pk) ==>
      if LastIsLive(d.log, k, pk) then OnlyRow(t, Newest(d.log, k, pk).value.cols, pk) else !HasKey(t, k, pk)
  }

  /** Under unique visible keys dropping the delta changes nothing exactly when it is ineffective. */
  lemma FlushIsNoOp(t: Table, d: Delta, pk: seq<nat>)
    requires ValidDelta(d) && UniqueKeys(Flushed(t, d, pk), pk)
    ensures Flushed(t, d, pk) == t <==> Ineffective(t, d, pk)
  {
    hide Flushed, ValidDelta, LogKeys, Pending, LastIsLive, OnlyRow;
    var vis := Flushed(t, d, pk);
    if !d.hasDelete {
      NoOpWithoutDelete(t, d, pk);
    } else {
      forall k | k in LogKeys(d.log, pk)
        ensures (forall x :: KeyOf(x, pk) == k ==> vis[x] == t[x]) <==>
                if LastIsLive(d.log, k, pk) then OnlyRow(t, Newest(d.log, k, pk).value.cols, pk) else !HasKey(t, k, pk)
      {
        NoOpOnKey(t, d, k, pk);
      }
      if Ineffective(t, d, pk) {
        forall x ensures vis[x] == t[x] {
          VisibleAt(t, d, x, pk);
        }
      }
    }
  }

  lemma NoOpWithoutDelete(t: Table, d: Delta, pk: seq<nat>)
    requires ValidDelta(d) && !d.hasDelete
    ensures Flushed(t, d, pk) == t <==> d.log == []
  {
    if d.log != [] {
      assert KeyOf(d.log[0].cols, pk) in LogKeys(d.log, pk);
      var x := LiveIsPending(d, KeyOf(d.log[0].cols, pk), pk);
      FlushedAt(t, d, x, pk);
    }
  }

  lemma NoOpOnKey(t: Table, d: Delta, k: Key, pk: seq<nat>)
    requires ValidDelta(d) && d.hasDelete && UniqueKeys(Flushed(t, d, pk), pk) && k in LogKeys(d.log, pk)
    ensures (forall x :: KeyOf(x, pk) == k ==> Flushed(t, d, pk)[x] == t[x]) <==>
            if LastIsLive(d.log, k, pk) then OnlyRow(t, Newest(d.log, k, pk).value.cols, pk) else !HasKey(t, k, pk)
  {
    var vis, live := Flushed(t, d, pk), LastIsLive(d.log, k, pk);
    forall x | KeyOf(x, pk) == k
      ensures vis[x] == if live && x == Newest(d.log, k, pk).value.cols then 1 else 0
    {
      VisibleAt(t, d, x, pk);
    }
    hide Flushed, ValidDelta, LogKeys;
    if live {
      var y := Newest(d.log, k, pk).value.cols;
      assert y in vis && NoNull(k);
    }
  }

  // ----- a flush that fails and is tried again -----

  /** Where a flush stops: pushing the buffered rows, the DELETE, the INSERT, or the DROP. */
  datatype FlushPoint = AtAppender | AtDelete | AtInsert | AtDrop

  /** The target after a failed flush; the call that fails has no effect, and the delta stays. */
  ghost function FailedFlush(t: Table, d: Delta, point: FlushPoint, pk: seq<nat>): Table {
    if !d.useTmp then t
    else match point
      case AtAppender => t
      case AtDelete => t
      case AtInsert => if d.hasDelete then DeleteKeys(t, LogKeys(d.log, pk), pk) else t
      case AtDrop => Flushed(t, d, pk)
  }

  /** Flushing again after a failure is safe unless only the DROP failed, on a log without markers. */
  predicate RetrySafe(d: Delta, point: FlushPoint) {
    point.AtDrop? && d.useTmp ==> d.hasDelete || d.log == []
  }

  /** A second flush gives what the first would have, exactly when it is safe; otherwise every
      row of the log arrives twice. */
  lemma RetryAfterFailedFlush(t: Table, d: Delta, point: FlushPoint, pk: seq<nat>)
    requires ValidDelta(d) && forall x :: x in Flushed(t, d, pk) ==> NoNull(KeyOf(x, pk))
    ensures Flushed(FailedFlush(t, d, point, pk), d, pk) == Flushed(t, d, pk) <==> RetrySafe(d, point)
  {
    var t1 := FailedFlush(t, d, point, pk);
    if RetrySafe(d, point) {
      forall x ensures Flushed(t1, d, pk)[x] == Flushed(t, d, pk)[x] {
        RetryAt(t, d, point, x, pk);
      }
    } else {
      var k := KeyOf(d.log[0].cols, pk);
      assert k in LogKeys(d.log, pk);
      var x := LiveIsPending(d, k, pk);
      FlushedAt(t1, d, x, pk);
    }
  }

  lemma RetryAt(t: Table, d: Delta, point: FlushPoint, x: Row, pk: seq<nat>)
    requires ValidDelta(d) && RetrySafe(d, point) && (x in Flushed(t, d, pk) ==> NoNull(KeyOf(x, pk)))
    ensures Flushed(FailedFlush(t, d, point, pk), d, pk)[x] == Flushed(t, d, pk)[x]
  {
    FlushedAt(t, d, x, pk);
    FlushedAt(FailedFlush(t, d, point, pk), d, x, pk);
    if point.AtDrop? && Pending(d, x, pk) > 0 { PendingIsLive(d, x, pk); }
  }
}
