/** Batched row operations against one statement per row: for every step the exact condition
    under which it refines the reference, and the same for whole runs. */
module BatchRefinement {
  import opened Tables
  import opened DeltaLog
  import opened PendingLogs
  import opened BatchSession
  import opened BatchInvariant
  import RowDifference

  // ----- one table at a time -----

  /** The two sessions differ in one table at most. */
  ghost predicate TouchesOnly(s: Session, s1: Session, t: TableId) {
    forall u :: u != t ==>
      && (u in s.deltas <==> u in s1.deltas) && (u in s.deltas ==> s.deltas[u] == s1.deltas[u])
      && TableOf(s.work, u) == TableOf(s1.work, u)
  }

  lemma RefinesByTable(s: Session, s1: Session, t: TableId, db: Database, image: Table, cat: Catalog)
    requires Refines(s, db, cat) && TouchesOnly(s, s1, t)
    ensures Refines(s1, db[t := image], cat) <==> Visible(s1, t, cat) == image
    ensures Refines(s1, db, cat) <==> Visible(s1, t, cat) == TableOf(db, t)
  {
    hide Flushed;
    forall u | u != t ensures Visible(s1, u, cat) == TableOf(db, u) == TableOf(db[t := image], u) {
      assert Visible(s, u, cat) == TableOf(db, u);
    }
    assert TableOf(db[t := image], t) == image;
  }

  lemma VisibleIsFlushed(s: Session, t: TableId, cat: Catalog)
    requires BatchInv(s)
    ensures Visible(s, t, cat) == Flushed(TableOf(s.work, t), PendingOn(s, t), cat(t)) && ValidDelta(PendingOn(s, t))
    ensures Visible(s, t, cat) == Flushed(TableOf(s.work, t), DeltaFor(s, t), cat(t)) && ValidDelta(DeltaFor(s, t))
    ensures PendingOn(s, t).log == DeltaFor(s, t).log && PendingOn(s, t).hasDelete == DeltaFor(s, t).hasDelete
    ensures s.batch.MixBatch? ==> DeltaFor(s, t).useTmp
  {
  }

  // ----- flushing -----

  lemma FlushAllRefines(s: Session, db: Database, cat: Catalog)
    requires Refines(s, db, cat)
    ensures Refines(FlushAll(s, cat), db, cat)
  {
    hide Flushed;
    forall t ensures Visible(FlushAll(s, cat), t, cat) == Visible(s, t, cat) {
    }
  }

  lemma EmptiedIsDone(t: Table, d: Delta, pk: seq<nat>)
    requires ValidDelta(d)
    ensures Flushed(t, Emptied(d), pk) == t
  {
    assert LogKeys([], pk) == {};
    assert DeleteKeys(t, {}, pk) == t;
  }

  lemma AbortedFlushAt(s: Session, done: set<TableId>, at: TableId, point: FlushPoint, t: TableId, cat: Catalog)
    requires BatchInv(s) && at in s.deltas && at !in done && done <= s.deltas.Keys && t != at
    ensures Visible(AbortedFlush(s, done, at, point, cat), t, cat) == Visible(s, t, cat)
  {
    hide Flushed, ValidDelta, FailedFlush;
    if t in done { EmptiedIsDone(Visible(s, t, cat), s.deltas[t], cat(t)); }
  }

  /** A flush that stops changes nothing visible, exactly when flushing its table again is safe. */
  lemma AbortedFlushRefines(s: Session, flush: FlushAnswer, db: Database, cat: Catalog)
    requires BatchInv(s) && Refines(s, db, cat) && UniqueDb(db, cat) && Stopped(s, flush)
    ensures Refines(AbortedFlush(s, flush.done, flush.at, flush.point, cat), db, cat) <==> StopSound(s, flush)
  {
    hide Flushed, ValidDelta, FailedFlush, RetrySafe;
    var s1, at := AbortedFlush(s, flush.done, flush.at, flush.point, cat), flush.at;
    forall t | t != at ensures Visible(s1, t, cat) == TableOf(db, t) {
      AbortedFlushAt(s, flush.done, at, flush.point, t, cat);
      assert Visible(s, t, cat) == TableOf(db, t);
    }
    assert Visible(s, at, cat) == TableOf(db, at);
    assert UniqueKeys(TableOf(db, at), cat(at));
    RetryAfterFailedFlush(TableOf(s.work, at), s.deltas[at], flush.point, cat(at));
  }

  /** Settling the batch state changes nothing visible, unless a flush stops unsafely. */
  lemma EnterBatchRefines(s: Session, insertOnly: bool, cfg: Settings, flush: FlushAnswer, db: Database, cat: Catalog)
    requires BatchInv(s) && Refines(s, db, cat) && UniqueDb(db, cat)
    ensures var e := EnterBatch(s, insertOnly, cfg, flush, cat);
            Refines(e.s, db, cat) <==> e.ok || StopSound(s, flush)
  {
    hide AbortedFlush, StopSound, BatchInv, Flushed, UniqueDb, PartlyFlushed;
    FlushAllRefines(s, db, cat);
    if Stopped(s, flush) { AbortedFlushRefines(s, flush, db, cat); }
    var e := EnterBatch(s, insertOnly, cfg, flush, cat);
    var s0 := if s.batch.InsertOnlyBatch? && !insertOnly then FlushAll(s, cat) else s;
    forall t ensures Visible(s0.(batch := e.s.batch), t, cat) == Visible(s0, t, cat) {
    }
  }

  // ----- appends and statements -----

  /** An append that leaves `d` shows `image` exactly when flushing `d` does. */
  lemma AppendRefines(s: Session, t: TableId, d: Delta, db: Database, image: Table, cat: Catalog)
    requires Refines(s, db, cat) && Flushed(TableOf(s.work, t), d, cat(t)) == image
    ensures Refines(WithDelta(s, t, d), db[t := image], cat)
  {
    hide Flushed, Refines;
    RefinesByTable(s, WithDelta(s, t, d), t, db, image, cat);
  }

  lemma FallBackTouches(s: Session, t: TableId, d: Delta, ans: Answers)
    requires BatchInv(s) && ValidDelta(d) && !s.batch.NotInBatch?
    ensures var s0 := FallBack(s, t, d, ans);
            && BatchInv(s0) && TouchesOnly(s, s0, t) && s0.work == s.work && s0.writeSets == s.writeSets
            && PendingOn(s0, t) == if HasAppender(s, t, ans) then d else PendingOn(s, t)
  {
    hide ValidDelta;
  }

  /** A statement that leaves `image` under what is pending, or fails and leaves the table. */
  lemma StatementRefines(s: Session, s0: Session, t: TableId, image: Table, ans: Answers, db: Database, want: Table,
                         cat: Catalog)
    requires BatchInv(s) && Refines(s, db, cat) && BatchInv(s0) && TouchesOnly(s, s0, t) && s0.work == s.work
    ensures var r, pending := RunStatement(s0, t, image, ans), PendingOn(s0, t);
            Refines(r.s, if r.ok then db[t := want] else db, cat) <==>
            if ans.statementOk then Flushed(image, pending, cat(t)) == want
            else Flushed(TableOf(s.work, t), pending, cat(t)) == TableOf(db, t)
  {
    hide Flushed, ValidDelta, Refines;
    var r := RunStatement(s0, t, image, ans);
    RefinesByTable(s, r.s, t, db, want, cat);
    VisibleIsFlushed(r.s, t, cat);
  }

  /** What a failed append leaves pending: nothing new if there is no appender. */
  function LeftOn(s: Session, t: TableId, failed: Delta, ans: Answers): Delta {
    if HasAppender(s, t, ans) then failed else PendingOn(s, t)
  }

  lemma SameSession(s: Session, t: TableId)
    ensures TouchesOnly(s, s, t)
  {
  }

  // ----- inserts -----

  lemma DirectInsert(t: Table, d: Delta, row: Row, pk: seq<nat>)
    requires !d.useTmp
    ensures Flushed(t, AppendInsert(d, row), pk) == Flushed(t, d, pk) + multiset{row}
  {
    AppendedLog(d.log, LogRow(row, false, d.rowCount + 1), [], pk);
  }

  lemma LegalInsert(t: Table, d: Delta, row: Row, pk: seq<nat>)
    requires ValidDelta(d) && UniqueKeys(Flushed(t, d, pk), pk)
    requires NoNull(KeyOf(row, pk)) && !HasKey(Flushed(t, d, pk), KeyOf(row, pk), pk)
    ensures ValidDelta(AppendInsert(d, row))
    ensures Flushed(t, AppendInsert(d, row), pk) == Flushed(t, d, pk) + multiset{row}
  {
    AppendsKeepValid(d, row, pk);
    if d.useTmp { InsertAgrees(t, d, row, pk); } else { DirectInsert(t, d, row, pk); }
  }

  /** An INSERT under a pending delta, whether or not a failed append has raised its flag. */
  lemma InsertStatement(t: Table, d: Delta, left: Delta, sent: Row, row: Row, pk: seq<nat>)
    requires ValidDelta(d) && NoNull(KeyOf(row, pk)) && (left == d || left == FailedInsert(d))
    ensures ValidDelta(left) && Flushed(t, left, pk) == Flushed(t, d, pk)
    ensures Flushed(t + multiset{sent}, left, pk) == Flushed(t, d, pk) + multiset{row}
       <==> sent == row && !(d.hasDelete && KeyOf(row, pk) in LogKeys(d.log, pk))
  {
    RaisedInsertFlag(t, d, pk);
    RaisedInsertFlag(t + multiset{sent}, d, pk);
    InsertUnderPendingLog(t, d, sent, row, pk);
  }

  lemma InsertByStatement(s: Session, t: TableId, row: Row, defaults: Row, ans: Answers, db: Database, cat: Catalog)
    requires BatchInv(s) && Refines(s, db, cat) && NoNull(KeyOf(row, cat(t))) && !(HasAppender(s, t, ans) && ans.rowOk)
    ensures var r := InsertSettled(s, t, row, defaults, ans);
            Refines(r.s, if r.ok then db[t := TableOf(db, t) + multiset{row}] else db, cat) <==>
            InsertSound(s, t, row, defaults, ans, cat)
  {
    var d, tab, want, pk := DeltaFor(s, t), TableOf(s.work, t), TableOf(db, t) + multiset{row}, cat(t);
    assert Visible(s, t, cat) == TableOf(db, t);
    VisibleIsFlushed(s, t, cat);
    hide Flushed, ValidDelta, Overwrite, LogKeys, FailedInsert, Refines, BatchInv, TouchesOnly, Visible, Covers, KeyOf;
    var base, left := LeftOn(s, t, d, ans), LeftOn(s, t, FailedInsert(d), ans);
    var sent := Overwrite(defaults, row, TableColumns(s, t, row));
    InsertStatement(tab, base, left, sent, row, pk);
    InsertStatement(tab, d, FailedInsert(d), sent, row, pk);
    OverwriteGives(defaults, row, TableColumns(s, t, row));
    if s.batch.NotInBatch? {
      SameSession(s, t);
      StatementRefines(s, s, t, tab + multiset{sent}, ans, db, want, cat);
    } else {
      FallBackTouches(s, t, FailedInsert(d), ans);
      StatementRefines(s, FallBack(s, t, FailedInsert(d), ans), t, tab + multiset{sent}, ans, db, want, cat);
    }
  }

  lemma InsertRefines(s: Session, t: TableId, row: Row, defaults: Row, ans: Answers, db: Database, cat: Catalog)
    requires BatchInv(s) && Refines(s, db, cat) && UniqueDb(db, cat) && !s.batch.Undefined?
    requires Legal(db, Insert(t, row, defaults), cat)
    ensures var r := InsertSettled(s, t, row, defaults, ans);
            Refines(r.s, if r.ok then ApplyRowByRow(db, Insert(t, row, defaults), cat) else db, cat) <==>
            InsertSound(s, t, row, defaults, ans, cat)
  {
    if HasAppender(s, t, ans) && ans.rowOk {
      assert Visible(s, t, cat) == TableOf(db, t) && UniqueKeys(TableOf(db, t), cat(t));
      VisibleIsFlushed(s, t, cat);
      hide Flushed, ValidDelta, UniqueKeys, Refines, UniqueDb, BatchInv;
      LegalInsert(TableOf(s.work, t), DeltaFor(s, t), row, cat(t));
      AppendRefines(s, t, AppendInsert(DeltaFor(s, t), row), db, TableOf(db, t) + multiset{row}, cat);
    } else {
      hide *;
      InsertByStatement(s, t, row, defaults, ans, db, cat);
    }
  }

  // ----- deletes -----

  lemma DeleteStatement(t: Table, d: Delta, left: Delta, k: Key, pk: seq<nat>)
    requires ValidDelta(d) && UniqueKeys(Flushed(t, d, pk), pk) && NoNull(k) && (left == d || left == FailedDelete(d))
    ensures ValidDelta(left) && Flushed(t, left, pk) == Flushed(t, d, pk)
    ensures Flushed(DeleteKeys(t, {k}, pk), left, pk) == DeleteKeys(Flushed(t, d, pk), {k}, pk)
       <==> !LastIsLive(d.log, k, pk)
  {
    hide Flushed, UniqueKeys, ValidDelta;
    RaisedDeleteFlag(t, d, pk);
    DeleteUnderPendingLog(t, left, k, pk);
  }

  lemma DeleteByStatement(s: Session, t: TableId, row: Row, ans: Answers, db: Database, cat: Catalog)
    requires BatchInv(s) && Refines(s, db, cat) && UniqueDb(db, cat) && NoNull(KeyOf(row, cat(t)))
    requires (s.batch.NotInBatch? || s.batch.MixBatch?) && !(HasAppender(s, t, ans) && ans.markerOk)
    ensures var r := DeleteSettled(s, t, row, ans, cat);
            var want := DeleteKeys(TableOf(db, t), {KeyOf(row, cat(t))}, cat(t));
            Refines(r.s, if r.ok then db[t := want] else db, cat) <==>
            DeleteSound(s, t, row, ans, cat)
  {
    var d, tab, k, pk := DeltaFor(s, t), TableOf(s.work, t), KeyOf(row, cat(t)), cat(t);
    var image, want := DeleteKeys(tab, {k}, pk), DeleteKeys(TableOf(db, t), {k}, pk);
    assert Visible(s, t, cat) == TableOf(db, t) && UniqueKeys(TableOf(db, t), pk);
    VisibleIsFlushed(s, t, cat);
    hide Flushed, ValidDelta, LastIsLive, FailedDelete, Refines, BatchInv, TouchesOnly, Visible, UniqueKeys, UniqueDb;
    hide KeyOf;
    DeleteStatement(tab, LeftOn(s, t, d, ans), LeftOn(s, t, FailedDelete(d), ans), k, pk);
    if s.batch.NotInBatch? {
      SameSession(s, t);
      StatementRefines(s, s, t, image, ans, db, want, cat);
    } else {
      DeleteStatement(tab, d, FailedDelete(d), k, pk);
      FallBackTouches(s, t, FailedDelete(d), ans);
      StatementRefines(s, FallBack(s, t, FailedDelete(d), ans), t, image, ans, db, want, cat);
    }
  }

  lemma DeleteRefines(s: Session, t: TableId, row: Row, ans: Answers, db: Database, cat: Catalog)
    requires BatchInv(s) && Refines(s, db, cat) && UniqueDb(db, cat) && (s.batch.NotInBatch? || s.batch.MixBatch?)
    requires Legal(db, Delete(t, row), cat)
    ensures var r := DeleteSettled(s, t, row, ans, cat);
            Refines(r.s, if r.ok then ApplyRowByRow(db, Delete(t, row), cat) else db, cat) <==>
            DeleteSound(s, t, row, ans, cat)
  {
    if HasAppender(s, t, ans) && ans.markerOk {
      var d, pk := DeltaFor(s, t), cat(t);
      assert Visible(s, t, cat) == TableOf(db, t) && UniqueKeys(TableOf(db, t), pk);
      VisibleIsFlushed(s, t, cat);
      hide Flushed, ValidDelta, UniqueKeys, Refines, UniqueDb, BatchInv;
      AppendsKeepValid(d, row, pk);
      DeleteAgrees(TableOf(s.work, t), d, row, pk);
      AppendRefines(s, t, AppendDelete(d, row, pk), db, DeleteKeys(TableOf(db, t), {KeyOf(row, pk)}, pk), cat);
    } else {
      hide *;
      DeleteByStatement(s, t, row, ans, db, cat);
    }
  }

  // ----- updates -----

  lemma LegalUpdate(t: Table, d: Delta, before: Row, after: Row, pk: seq<nat>)
    requires ValidDelta(d) && d.useTmp && UniqueKeys(Flushed(t, d, pk), pk)
    requires LegalChange(Flushed(t, d, pk), before, after, pk)
    ensures ValidDelta(AppendUpdate(d, before, after, pk)) && AppendUpdate(d, before, after, pk).useTmp
    ensures Flushed(t, AppendUpdate(d, before, after, pk), pk) == Replaced(Flushed(t, d, pk), before, after, pk)
  {
    AppendsKeepValid(d, before, pk);
    AppendsKeepValid(AppendDelete(d, before, pk), after, pk);
    UpdateOfVisibleKey(t, d, before, after, pk);
  }

  /** Whatever the width of the write set, the reference UPDATE swaps one row for another. */
  lemma ReferenceUpdate(t: Table, before: Row, after: Row, pk: seq<nat>)
    requires UniqueKeys(t, pk) && before in t && |before| == |after|
    ensures UpdateRows(t, KeyOf(before, pk), after, AllColumns(after), pk) == Replaced(t, before, after, pk)
  {
    hide Overwrite, UpdateRows, Covers;
    UniqueIsOnly(t, before, pk);
    AllColumnsCover(before, after);
    UpdateRowsReplacesOne(t, before, after, AllColumns(after), pk);
  }

  lemma UpdateStatement(t: Table, d: Delta, left: Delta, before: Row, after: Row, cols: set<nat>, pk: seq<nat>)
    requires ValidDelta(d) && UniqueKeys(Flushed(t, d, pk), pk) && LegalChange(Flushed(t, d, pk), before, after, pk)
    requires left == d || left == FailedDelete(d)
    ensures ValidDelta(left) && Flushed(t, left, pk) == Flushed(t, d, pk)
    ensures Flushed(UpdateRows(t, KeyOf(before, pk), after, cols, pk), left, pk)
         == Replaced(Flushed(t, d, pk), before, after, pk)
       <==> || before == after
            || (&& Covers(cols, before, after)
                && KeyOf(before, pk) !in LogKeys(d.log, pk) && KeyOf(after, pk) !in LogKeys(d.log, pk))
  {
    hide Flushed, UniqueKeys, ValidDelta, UpdateRows, LegalChange;
    RaisedDeleteFlag(t, d, pk);
    UpdateUnderPendingLog(t, left, before, after, cols, pk);
  }

  lemma UpdateByStatement(s: Session, t: TableId, before: Row, after: Row, cfg: Settings, ans: Answers, db: Database,
                          cat: Catalog)
    requires BatchInv(s) && Refines(s, db, cat) && UniqueDb(db, cat)
    requires LegalChange(TableOf(db, t), before, after, cat(t))
    requires (s.batch.NotInBatch? || s.batch.MixBatch?) && !(HasAppender(s, t, ans) && ans.markerOk)
    ensures var r := UpdateSettled(s, t, before, after, cfg, ans, cat);
            Refines(r.s, if r.ok then db[t := Replaced(TableOf(db, t), before, after, cat(t))] else db, cat) <==>
            UpdateSound(s, t, before, after, cfg, ans, cat)
  {
    var d, tab, k, pk := DeltaFor(s, t), TableOf(s.work, t), KeyOf(before, cat(t)), cat(t);
    var want := Replaced(TableOf(db, t), before, after, pk);
    assert Visible(s, t, cat) == TableOf(db, t) && UniqueKeys(TableOf(db, t), pk);
    VisibleIsFlushed(s, t, cat);
    var s1 := if s.batch.NotInBatch? then Narrow(s, t, before, after, cfg) else s;
    var cols := TableColumns(s1, t, after);
    var image := UpdateRows(tab, k, after, cols, pk);
    NarrowKeeps(s, t, before, after, cfg);
    hide Flushed, ValidDelta, FailedDelete, Refines, BatchInv, TouchesOnly, Visible, UniqueKeys, UniqueDb, KeyOf;
    hide LogKeys;
    hide UpdateRows, Covers, Narrow, TableColumns, Replaced, LegalChange;
    UpdateStatement(tab, LeftOn(s, t, d, ans), LeftOn(s, t, FailedDelete(d), ans), before, after, cols, pk);
    if s.batch.NotInBatch? {
      StatementRefines(s, s1, t, image, ans, db, want, cat);
    } else {
      UpdateStatement(tab, d, FailedDelete(d), before, after, cols, pk);
      assert HasAppender(s, t, ans) ==> FailedUpdate(d, before, ans.markerOk, pk) == FailedDelete(d);
      FailedAppendsKeepValid(d, before, ans.markerOk, pk);
      FallBackTouches(s, t, FailedUpdate(d, before, ans.markerOk, pk), ans);
      StatementRefines(s, FallBack(s, t, FailedUpdate(d, before, ans.markerOk, pk), ans), t, image, ans, db, want, cat);
    }
  }

  lemma NarrowKeeps(s: Session, t: TableId, before: Row, after: Row, cfg: Settings)
    requires BatchInv(s)
    ensures var s1 := Narrow(s, t, before, after, cfg);
            && BatchInv(s1) && TouchesOnly(s, s1, t)
            && s1.work == s.work && s1.deltas == s.deltas && s1.batch == s.batch
  {
    hide ValidDelta;
  }

  lemma UpdateWithMarker(s: Session, t: TableId, before: Row, after: Row, cfg: Settings, ans: Answers, db: Database,
                         cat: Catalog)
    requires BatchInv(s) && Refines(s, db, cat) && UniqueDb(db, cat)
    requires LegalChange(TableOf(db, t), before, after, cat(t))
    requires s.batch.MixBatch? && HasAppender(s, t, ans) && ans.markerOk && !ans.rowOk && UniqueDb(s.work, cat)
    ensures var r := UpdateSettled(s, t, before, after, cfg, ans, cat);
            Refines(r.s, if r.ok then db[t := Replaced(TableOf(db, t), before, after, cat(t))] else db, cat) <==>
            UpdateSound(s, t, before, after, cfg, ans, cat)
  {
    var d, tab, k, pk := DeltaFor(s, t), TableOf(s.work, t), KeyOf(before, cat(t)), cat(t);
    var want, left := Replaced(TableOf(db, t), before, after, pk), FailedUpdate(d, before, true, pk);
    var cols := TableColumns(s, t, after);
    assert Visible(s, t, cat) == TableOf(db, t) && UniqueKeys(TableOf(db, t), pk) && NoNull(k);
    assert UniqueKeys(tab, pk) && NoNull(KeyOf(after, pk));
    VisibleIsFlushed(s, t, cat);
    assert before in TableOf(db, t) && before !in DeleteKeys(TableOf(db, t), {k}, pk);
    hide Flushed, ValidDelta, FailedUpdate, Refines, BatchInv, TouchesOnly, Visible, UniqueKeys, UniqueDb, KeyOf;
    hide LogKeys;
    hide UpdateRows, TableColumns, Replaced, LegalChange, Rewritten;
    MarkedLog(d, before, [], pk);
    assert left.log == AppendDelete(d, before, pk).log by { MarkerLog(d, before, pk); }
    UpdateAfterMarker(tab, d, before, after, cols, pk);
    WhatEscapesTheMarker(tab, d, before, after, cols, pk);
    MarkerAloneDeletes(tab, d, before, pk);
    FailedAppendsKeepValid(d, before, true, pk);
    FallBackTouches(s, t, left, ans);
    StatementRefines(s, FallBack(s, t, left, ans), t, UpdateRows(tab, k, after, cols, pk), ans, db, want, cat);
  }

  lemma MarkerLog(d: Delta, before: Row, pk: seq<nat>)
    requires d.useTmp
    ensures FailedUpdate(d, before, true, pk).log == AppendDelete(d, before, pk).log
  {
  }

  lemma UpdateRefines(s: Session, t: TableId, before: Row, after: Row, injected: bool, cfg: Settings, ans: Answers,
                      db: Database, cat: Catalog)
    requires BatchInv(s) && Refines(s, db, cat) && UniqueDb(db, cat) && UniqueDb(s.work, cat)
    requires (s.batch.NotInBatch? || s.batch.MixBatch?) && Legal(db, Update(t, before, after, injected), cat)
    ensures var r := UpdateSettled(s, t, before, after, cfg, ans, cat);
            Refines(r.s, if r.ok then ApplyRowByRow(db, Update(t, before, after, injected), cat) else db, cat) <==>
            UpdateSound(s, t, before, after, cfg, ans, cat)
  {
    var d, pk := DeltaFor(s, t), cat(t);
    assert Visible(s, t, cat) == TableOf(db, t) && UniqueKeys(TableOf(db, t), pk);
    ReferenceUpdate(TableOf(db, t), before, after, pk);
    if HasAppender(s, t, ans) && ans.markerOk && ans.rowOk {
      VisibleIsFlushed(s, t, cat);
      hide Flushed, ValidDelta, UniqueKeys, Refines, UniqueDb, BatchInv, UpdateRows, Replaced, AppendUpdate;
      LegalUpdate(TableOf(s.work, t), d, before, after, pk);
      AppendRefines(s, t, AppendUpdate(d, before, after, pk), db, Replaced(TableOf(db, t), before, after, pk), cat);
    } else if HasAppender(s, t, ans) && ans.markerOk {
      hide UpdateSettled, UpdateSound, UpdateRows, BatchInv, UniqueKeys, Refines;
      UpdateWithMarker(s, t, before, after, cfg, ans, db, cat);
    } else {
      hide UpdateSettled, UpdateSound, UpdateRows, BatchInv, UniqueKeys, Refines;
      UpdateByStatement(s, t, before, after, cfg, ans, db, cat);
    }
  }

  // ----- every step -----

  lemma WriteSetsAreInvisible(s: Session, w: map<TableId, WriteSet>, db: Database, cat: Catalog)
    ensures Refines(s.(writeSets := w), db, cat) <==> Refines(s, db, cat)
  {
    hide Flushed;
    assert forall t :: Visible(s.(writeSets := w), t, cat) == Visible(s, t, cat);
  }

  /** When the statement of `delete_all_rows` fails, the pending rows are lost already. */
  lemma DeleteAllRefines(s: Session, t: TableId, ans: Answers, db: Database, cat: Catalog)
    requires BatchInv(s) && Refines(s, db, cat) && UniqueDb(db, cat)
    ensures var r := DeleteAllRows(s, t, ans);
            Refines(r.s, if r.ok then db[t := multiset{}] else db, cat) <==>
            ans.statementOk || (t in s.deltas ==> Ineffective(TableOf(s.work, t), s.deltas[t], cat(t)))
  {
    var s0, tab := s.(deltas := s.deltas - {t}), TableOf(s.work, t);
    assert Visible(s, t, cat) == TableOf(db, t) && UniqueKeys(TableOf(db, t), cat(t));
    DropInv(s, t);
    assert TouchesOnly(s, s0, t);
    StatementRefines(s, s0, t, multiset{}, ans, db, multiset{}, cat);
    EmptyIsDone(multiset{}, cat(t));
    EmptyIsDone(tab, cat(t));
    if t in s.deltas { FlushIsNoOp(tab, s.deltas[t], cat(t)); }
    hide Flushed, Refines, UniqueKeys, Ineffective;
  }

  lemma FlushRefines(s: Session, flush: FlushAnswer, db: Database, cat: Catalog)
    requires BatchInv(s) && Refines(s, db, cat) && UniqueDb(db, cat)
    ensures var r := FlushTo(s, flush, cat);
            (Refines(r.s, db, cat) <==> StopSound(s, flush)) && (r.ok <==> !Stopped(s, flush))
  {
    hide AbortedFlush, FlushAll, BatchInv, Refines, UniqueDb;
    FlushAllRefines(s, db, cat);
    if Stopped(s, flush) { AbortedFlushRefines(s, flush, db, cat); }
  }

  lemma DirectRefines(s: Session, t: TableId, effect: Table -> Table, ans: Answers, db: Database, cat: Catalog)
    requires BatchInv(s) && Refines(s, db, cat) && UniqueDb(db, cat)
    ensures var r := DirectStatement(s, t, effect, ans, cat);
            Refines(r.s, if r.ok then db[t := effect(TableOf(db, t))] else db, cat) <==> StopSound(s, ans.flush)
  {
    FlushRefines(s, ans.flush, db, cat);
    FlushInv(s, ans.flush, cat);
    if !Stopped(s, ans.flush) {
      var s1 := FlushAll(s, cat);
      SameSession(s1, t);
      VisibleIsFlushed(s1, t, cat);
      assert Visible(s1, t, cat) == TableOf(db, t) == TableOf(s1.work, t);
      hide FlushAll, BatchInv, Refines, UniqueDb, Visible, TouchesOnly;
      StatementRefines(s1, s1, t, effect(TableOf(db, t)), ans, db, effect(TableOf(db, t)), cat);
      EmptyIsDone(TableOf(s1.work, t), cat(t));
      EmptyIsDone(effect(TableOf(db, t)), cat(t));
    }
  }

  lemma EmptyIsDone(t: Table, pk: seq<nat>)
    ensures Flushed(t, EmptyDelta(true), pk) == t
  {
  }

  /** The step theorem.  From any session that shows the reference, whatever is pending and
      whatever DuckDB answers, a key-respecting operation leaves a session that shows the new
      reference if and only if it is sound. */
  lemma StepRefines(s: Session, step: Step, db: Database, cat: Catalog)
    requires BatchInv(s) && Refines(s, db, cat) && UniqueDb(db, cat) && UniqueDb(s.work, cat)
    requires Legal(db, step.op, cat)
    ensures Refines(Apply(s, step, cat).s, Reference(s, db, step, cat), cat) <==> Sound(s, step, cat)
  {
    var cfg, ans := step.cfg, step.ans;
    hide BatchInv, Refines, UniqueDb, Legal, EnterBatch, FlushTo, StopSound, InsertSettled, UpdateSettled;
    hide DeleteSettled, InsertSound, UpdateSound, DeleteSound, DeleteAllRows, DirectStatement, Visible, Ineffective;
    match step.op
    case Mark(t, w) => WriteSetsAreInvisible(s, s.writeSets[t := w], db, cat);
    case Insert(t, row, defaults) =>
      EnterBatchInv(s, true, cfg, ans.flush, cat);
      EnterBatchRefines(s, true, cfg, ans.flush, db, cat);
      InsertRefines(EnterBatch(s, true, cfg, ans.flush, cat).s, t, row, defaults, ans, db, cat);
    case Update(t, before, after, injected) =>
      EnterBatchInv(s, false, cfg, ans.flush, cat);
      EnterBatchRefines(s, false, cfg, ans.flush, db, cat);
      EnterBatchWork(s, false, cfg, ans.flush, db, cat);
      var e := EnterBatch(s, false, cfg, ans.flush, cat);
      if e.ok { UpdateRefines(e.s, t, before, after, injected, cfg, ans, db, cat); }
    case Delete(t, row) =>
      EnterBatchInv(s, false, cfg, ans.flush, cat);
      EnterBatchRefines(s, false, cfg, ans.flush, db, cat);
      var e := EnterBatch(s, false, cfg, ans.flush, cat);
      if e.ok { DeleteRefines(e.s, t, row, ans, db, cat); }
    case DeleteAll(t) => DeleteAllRefines(s, t, ans, db, cat);
    case Direct(t, effect) => DirectRefines(s, t, effect, ans, db, cat);
    case Scan(t) =>
      FlushRefines(s, ans.flush, db, cat);
      var s1 := FlushTo(s, ans.flush, cat).s;
      WriteSetsAreInvisible(s1, s1.writeSets[t := All], db, cat);
  }

  // ----- what operations show, column by column -----

  lemma ShownAfter(s: Session, step: Step, t: TableId, db: Database, cat: Catalog)
    requires BatchInv(s) && Refines(s, db, cat) && UniqueDb(db, cat) && UniqueDb(s.work, cat)
    requires Legal(db, step.op, cat) && Sound(s, step, cat) && Apply(s, step, cat).ok
    ensures Visible(Apply(s, step, cat).s, t, cat) == TableOf(ApplyRowByRow(db, step.op, cat), t)
    ensures Visible(s, t, cat) == TableOf(db, t)
  {
    hide BatchInv, UniqueDb, Legal, Sound, Apply, ApplyRowByRow, Visible;
    StepRefines(s, step, db, cat);
  }

  /** A sound insert adds its row. */
  lemma InsertShows(s: Session, t: TableId, row: Row, defaults: Row, cfg: Settings, ans: Answers, db: Database,
                    cat: Catalog)
    requires BatchInv(s) && Refines(s, db, cat) && UniqueDb(db, cat) && UniqueDb(s.work, cat)
    requires var step := Step(Insert(t, row, defaults), cfg, ans);
             Legal(db, step.op, cat) && Sound(s, step, cat) && Apply(s, step, cat).ok
    ensures Visible(Apply(s, Step(Insert(t, row, defaults), cfg, ans), cat).s, t, cat)
         == Visible(s, t, cat) + multiset{row}
  {
    hide BatchInv, Refines, UniqueDb, Legal, Sound, Apply, Visible;
    ShownAfter(s, Step(Insert(t, row, defaults), cfg, ans), t, db, cat);
  }

  /** A sound delete removes exactly the rows that agree with `row` on every primary key column. */
  lemma DeleteShows(s: Session, t: TableId, row: Row, cfg: Settings, ans: Answers, x: Row, db: Database, cat: Catalog)
    requires BatchInv(s) && Refines(s, db, cat) && UniqueDb(db, cat) && UniqueDb(s.work, cat)
    requires var step := Step(Delete(t, row), cfg, ans);
             Legal(db, step.op, cat) && Sound(s, step, cat) && Apply(s, step, cat).ok
    requires Wide(row, cat(t)) && Wide(x, cat(t))
    ensures Visible(Apply(s, Step(Delete(t, row), cfg, ans), cat).s, t, cat)[x]
         == if forall i :: 0 <= i < |cat(t)| ==> x[cat(t)[i]] == row[cat(t)[i]] then 0 else Visible(s, t, cat)[x]
  {
    var step, pk := Step(Delete(t, row), cfg, ans), cat(t);
    assert NoNull(KeyOf(row, pk));
    hide BatchInv, Refines, UniqueDb, Sound, Apply, Visible, KeyOf;
    ShownAfter(s, step, t, db, cat);
    DeleteByColumns(TableOf(db, t), row, x, pk);
    NullKey(row, pk);
  }

  /** A sound update replaces the row that agrees with `before` on every primary key column. */
  lemma UpdateShows(s: Session, t: TableId, before: Row, after: Row, injected: bool, cfg: Settings, ans: Answers,
                    x: Row, db: Database, cat: Catalog)
    requires BatchInv(s) && Refines(s, db, cat) && UniqueDb(db, cat) && UniqueDb(s.work, cat)
    requires var step := Step(Update(t, before, after, injected), cfg, ans);
             Legal(db, step.op, cat) && Sound(s, step, cat) && Apply(s, step, cat).ok
    requires Wide(before, cat(t)) && Wide(x, cat(t))
    ensures Visible(Apply(s, Step(Update(t, before, after, injected), cfg, ans), cat).s, t, cat)[x]
         == (if forall i :: 0 <= i < |cat(t)| ==> x[cat(t)[i]] == before[cat(t)[i]] then 0 else Visible(s, t, cat)[x])
          + (if x == after then 1 else 0)
  {
    var step, pk, tab := Step(Update(t, before, after, injected), cfg, ans), cat(t), TableOf(db, t);
    assert UniqueKeys(tab, pk) && NoNull(KeyOf(before, pk));
    hide BatchInv, Refines, UniqueDb, Sound, Apply, Visible, KeyOf, UniqueKeys, UpdateRows;
    ShownAfter(s, step, t, db, cat);
    ReferenceUpdate(tab, before, after, pk);
    DeleteByColumns(tab, before, x, pk);
    NullKey(before, pk);
  }

  /** Emptying a table shows it empty, and a pushed-down statement shows its effect on what was shown. */
  lemma WholeTableShows(s: Session, step: Step, db: Database, cat: Catalog)
    requires BatchInv(s) && Refines(s, db, cat) && UniqueDb(db, cat) && UniqueDb(s.work, cat)
    requires (step.op.DeleteAll? || step.op.Direct?) && Legal(db, step.op, cat)
    requires Sound(s, step, cat) && Apply(s, step, cat).ok
    ensures Visible(Apply(s, step, cat).s, step.op.t, cat)
         == if step.op.DeleteAll? then multiset{} else step.op.effect(Visible(s, step.op.t, cat))
  {
    hide BatchInv, Refines, UniqueDb, Legal, Sound, Apply, Visible;
    ShownAfter(s, step, step.op.t, db, cat);
  }

  /** Every successful sound operation leaves what the other tables show alone. */
  lemma OtherTablesShow(s: Session, step: Step, u: TableId, db: Database, cat: Catalog)
    requires BatchInv(s) && Refines(s, db, cat) && UniqueDb(db, cat) && UniqueDb(s.work, cat)
    requires Legal(db, step.op, cat) && Sound(s, step, cat) && Apply(s, step, cat).ok && u != step.op.t
    ensures Visible(Apply(s, step, cat).s, u, cat) == Visible(s, u, cat)
  {
    hide BatchInv, Refines, UniqueDb, Legal, Sound, Apply, Visible, UpdateRows;
    ShownAfter(s, step, u, db, cat);
  }

  // ----- the keys of the tables under the logs -----

  lemma PutUnique(db: Database, t: TableId, image: Table, cat: Catalog)
    requires UniqueDb(db, cat) && UniqueKeys(image, cat(t))
    ensures UniqueDb(db[t := image], cat)
  {
    forall u ensures UniqueKeys(TableOf(db[t := image], u), cat(u)) {
      assert UniqueKeys(TableOf(db, u), cat(u));
    }
  }

  lemma WorkIsVisible(s: Session, db: Database, cat: Catalog)
    requires s.deltas == map[] && Refines(s, db, cat) && UniqueDb(db, cat)
    ensures UniqueDb(s.work, cat)
  {
    forall t ensures UniqueKeys(TableOf(s.work, t), cat(t)) {
      assert Visible(s, t, cat) == TableOf(db, t) && UniqueKeys(TableOf(db, t), cat(t));
    }
  }

  lemma FailedFlushUnique(t: Table, d: Delta, point: FlushPoint, pk: seq<nat>)
    requires UniqueKeys(t, pk) && UniqueKeys(Flushed(t, d, pk), pk)
    ensures UniqueKeys(FailedFlush(t, d, point, pk), pk)
  {
    hide UniqueKeys, Flushed;
    SubtableKeys(t, LogKeys(d.log, pk), pk);
  }

  /** A flush, finished or not, leaves tables with unique keys. */
  lemma FlushWork(s: Session, flush: FlushAnswer, db: Database, cat: Catalog)
    requires Refines(s, db, cat) && UniqueDb(db, cat) && UniqueDb(s.work, cat)
    ensures UniqueDb(FlushTo(s, flush, cat).s.work, cat)
  {
    hide UniqueKeys, Flushed, FailedFlush;
    var work := FlushTo(s, flush, cat).s.work;
    forall t ensures UniqueKeys(TableOf(work, t), cat(t)) {
      assert UniqueKeys(TableOf(s.work, t), cat(t));
      assert Visible(s, t, cat) == TableOf(db, t) && UniqueKeys(TableOf(db, t), cat(t));
      if Stopped(s, flush) && t == flush.at {
        FailedFlushUnique(TableOf(s.work, t), s.deltas[t], flush.point, cat(t));
      }
    }
  }

  lemma EnterBatchWork(s: Session, insertOnly: bool, cfg: Settings, flush: FlushAnswer, db: Database, cat: Catalog)
    requires Refines(s, db, cat) && UniqueDb(db, cat) && UniqueDb(s.work, cat)
    ensures UniqueDb(EnterBatch(s, insertOnly, cfg, flush, cat).s.work, cat)
  {
    FlushWork(s, flush, db, cat);
    hide UniqueDb, Refines, FlushTo;
  }

  /** A key that is not visible and not hidden by the log is not in the table. */
  lemma FreeKey(t: Table, d: Delta, k: Key, pk: seq<nat>)
    requires ValidDelta(d) && !HasKey(Flushed(t, d, pk), k, pk)
    requires !(d.hasDelete && k in LogKeys(d.log, pk))
    ensures !HasKey(t, k, pk)
  {
    if x :| x in t && KeyOf(x, pk) == k {
      FlushedAt(t, d, x, pk);
    }
  }

  lemma InsertWork(s: Session, t: TableId, row: Row, defaults: Row, ans: Answers, db: Database, cat: Catalog)
    requires BatchInv(s) && Refines(s, db, cat) && UniqueDb(s.work, cat)
    requires Legal(db, Insert(t, row, defaults), cat) && InsertSound(s, t, row, defaults, ans, cat)
    ensures UniqueDb(InsertSettled(s, t, row, defaults, ans).s.work, cat)
  {
    var d, tab, pk := PendingOn(s, t), TableOf(s.work, t), cat(t);
    assert Visible(s, t, cat) == TableOf(db, t) && UniqueKeys(tab, pk);
    VisibleIsFlushed(s, t, cat);
    hide Flushed, ValidDelta, BatchInv, Refines, LogKeys, UniqueKeys, HasKey, Overwrite, Covers;
    if !(HasAppender(s, t, ans) && ans.rowOk) && ans.statementOk {
      FreeKey(tab, d, KeyOf(row, pk), pk);
      InsertedKeys(tab, row, pk);
      OverwriteGives(defaults, row, TableColumns(s, t, row));
      PutUnique(s.work, t, tab + multiset{row}, cat);
    }
    hide UniqueDb;
  }

  lemma DeleteWork(s: Session, t: TableId, row: Row, ans: Answers, cat: Catalog)
    requires UniqueDb(s.work, cat)
    ensures UniqueDb(DeleteSettled(s, t, row, ans, cat).s.work, cat)
  {
    var tab, k, pk := TableOf(s.work, t), KeyOf(row, cat(t)), cat(t);
    assert UniqueKeys(tab, pk);
    hide UniqueKeys, UniqueDb, DeleteSettled, KeyOf;
    SubtableKeys(tab, {k}, pk);
    PutUnique(s.work, t, DeleteKeys(tab, {k}, pk), cat);
    WorkAfterDelete(s, t, row, ans, cat);
  }

  lemma WorkAfterDelete(s: Session, t: TableId, row: Row, ans: Answers, cat: Catalog)
    ensures var work := DeleteSettled(s, t, row, ans, cat).s.work;
            work == s.work || work == s.work[t := DeleteKeys(TableOf(s.work, t), {KeyOf(row, cat(t))}, cat(t))]
  {
    hide AppendDelete, FailedDelete, KeyOf;
  }

  /** The row an UPDATE statement writes has its own key or a free one, when the update is sound. */
  lemma SoundUpdateKey(t: Table, d: Delta, before: Row, after: Row, cols: set<nat>, y: Row, pk: seq<nat>)
    requires ValidDelta(d) && UniqueKeys(t, pk) && UniqueKeys(Flushed(t, d, pk), pk)
    requires LegalChange(Flushed(t, d, pk), before, after, pk) && y in t && KeyOf(y, pk) == KeyOf(before, pk)
    requires before == after || (KeyOf(after, pk) !in LogKeys(d.log, pk) && Covers(cols, y, after))
    ensures var q := KeyOf(Overwrite(y, after, cols), pk);
            NoNull(q) && (q == KeyOf(before, pk) || !HasKey(t, q, pk))
  {
    hide Flushed, ValidDelta, LogKeys, Overwrite;
    if before == after {
      OverwrittenKey(y, after, cols, pk);
    } else {
      OverwriteGives(y, after, cols);
      if KeyOf(after, pk) != KeyOf(before, pk) { FreeKey(t, d, KeyOf(after, pk), pk); }
    }
  }

  lemma UpdateWork(s: Session, t: TableId, before: Row, after: Row, cfg: Settings, ans: Answers, db: Database,
                   cat: Catalog)
    requires BatchInv(s) && Refines(s, db, cat) && UniqueDb(db, cat) && UniqueDb(s.work, cat)
    requires (s.batch.NotInBatch? || s.batch.MixBatch?) && LegalChange(TableOf(db, t), before, after, cat(t))
    requires UpdateSound(s, t, before, after, cfg, ans, cat)
    ensures UniqueDb(UpdateSettled(s, t, before, after, cfg, ans, cat).s.work, cat)
  {
    var d, tab, k, pk := PendingOn(s, t), TableOf(s.work, t), KeyOf(before, cat(t)), cat(t);
    assert Visible(s, t, cat) == TableOf(db, t) && UniqueKeys(TableOf(db, t), pk) && UniqueKeys(tab, pk);
    VisibleIsFlushed(s, t, cat);
    NarrowKeeps(s, t, before, after, cfg);
    var s1 := if s.batch.NotInBatch? then Narrow(s, t, before, after, cfg) else s;
    var cols := TableColumns(s1, t, after);
    var image := UpdateRows(tab, k, after, cols, pk);
    hide Flushed, ValidDelta, BatchInv, Refines, LogKeys, HasKey, Overwrite, Covers, UpdateRows, Narrow, TableColumns;
    hide AppendUpdate, FailedUpdate, KeyOf, Visible, OnlyRow, LegalChange;
    if !(HasAppender(s, t, ans) && ans.markerOk && ans.rowOk) && ans.statementOk {
      forall y | y in tab && KeyOf(y, pk) == k
        ensures var q := KeyOf(Overwrite(y, after, cols), pk); NoNull(q) && (q == k || !HasKey(tab, q, pk))
      {
        if before != after { SoundUpdateRow(s, t, before, after, cfg, ans, y, db, cat); }
        SoundUpdateKey(tab, d, before, after, cols, y, pk);
      }
      UpdatedUnique(tab, k, after, cols, pk);
      PutUnique(s.work, t, image, cat);
    }
    hide UniqueDb;
  }

  lemma SoundUpdateRow(s: Session, t: TableId, before: Row, after: Row, cfg: Settings, ans: Answers, y: Row,
                       db: Database, cat: Catalog)
    requires BatchInv(s) && Refines(s, db, cat) && UniqueDb(db, cat) && UniqueDb(s.work, cat)
    requires (s.batch.NotInBatch? || s.batch.MixBatch?) && LegalChange(TableOf(db, t), before, after, cat(t))
    requires UpdateSound(s, t, before, after, cfg, ans, cat) && before != after
    requires !(HasAppender(s, t, ans) && ans.markerOk && ans.rowOk) && ans.statementOk
    requires y in TableOf(s.work, t) && KeyOf(y, cat(t)) == KeyOf(before, cat(t))
    ensures var s1 := if s.batch.NotInBatch? then Narrow(s, t, before, after, cfg) else s;
            && KeyOf(after, cat(t)) !in LogKeys(PendingOn(s, t).log, cat(t))
            && Covers(TableColumns(s1, t, after), y, after)
  {
    var d, tab, pk := PendingOn(s, t), TableOf(s.work, t), cat(t);
    assert Visible(s, t, cat) == TableOf(db, t) && UniqueKeys(TableOf(db, t), pk) && UniqueKeys(tab, pk);
    VisibleIsFlushed(s, t, cat);
    hide Flushed, ValidDelta, BatchInv, Refines, LogKeys, Covers, Narrow, TableColumns, Visible;
    if KeyOf(before, pk) !in LogKeys(d.log, pk) { UnloggedRow(tab, d, before, pk); }
  }

  /** An UPDATE keeps keys unique when it writes its own key or a free one. */
  lemma UpdatedUnique(t: Table, k: Key, after: Row, cols: set<nat>, pk: seq<nat>)
    requires UniqueKeys(t, pk)
    requires forall y :: y in t && KeyOf(y, pk) == k ==>
               var q := KeyOf(Overwrite(y, after, cols), pk); NoNull(q) && (q == k || !HasKey(t, q, pk))
    ensures UniqueKeys(UpdateRows(t, k, after, cols, pk), pk)
  {
    hide UpdateRows, Overwrite;
    if y :| y in t && KeyOf(y, pk) == k {
      var z := Overwrite(y, after, cols);
      UniqueIsOnly(t, y, pk);
      UpdateRowsReplacesOne(t, y, after, cols, pk);
      hide UniqueKeys;
      DeletedKeys(t, k, KeyOf(z, pk), pk);
      InsertedKeys(DeleteKeys(t, {k}, pk), z, pk);
    } else {
      UpdateRowsMissing(t, k, after, cols, pk);
    }
  }

  /** A sound step keeps the keys of every table unique, also where a log hides them. */
  lemma StepKeepsWork(s: Session, step: Step, db: Database, cat: Catalog)
    requires BatchInv(s) && Refines(s, db, cat) && UniqueDb(db, cat) && UniqueDb(s.work, cat)
    requires Legal(db, step.op, cat) && Sound(s, step, cat)
    ensures UniqueDb(Apply(s, step, cat).s.work, cat)
  {
    var cfg, ans := step.cfg, step.ans;
    hide BatchInv, Refines, UniqueDb, EnterBatch, FlushTo, StopSound, InsertSettled, UpdateSettled;
    hide DeleteSettled, InsertSound, UpdateSound, DeleteSound, Visible, Ineffective, LegalChange;
    match step.op
    case Mark(t, w) =>
    case Insert(t, row, defaults) =>
      EnterBatchInv(s, true, cfg, ans.flush, cat);
      EnterBatchRefines(s, true, cfg, ans.flush, db, cat);
      EnterBatchWork(s, true, cfg, ans.flush, db, cat);
      InsertWork(EnterBatch(s, true, cfg, ans.flush, cat).s, t, row, defaults, ans, db, cat);
    case Update(t, before, after, injected) =>
      EnterBatchInv(s, false, cfg, ans.flush, cat);
      EnterBatchRefines(s, false, cfg, ans.flush, db, cat);
      EnterBatchWork(s, false, cfg, ans.flush, db, cat);
      var e := EnterBatch(s, false, cfg, ans.flush, cat);
      if e.ok && !Rejected(s, t, after, injected) { UpdateWork(e.s, t, before, after, cfg, ans, db, cat); }
    case Delete(t, row) =>
      EnterBatchWork(s, false, cfg, ans.flush, db, cat);
      DeleteWork(EnterBatch(s, false, cfg, ans.flush, cat).s, t, row, ans, cat);
    case DeleteAll(t) => PutUnique(s.work, t, multiset{}, cat);
    case Direct(t, effect) => DirectWork(s, t, effect, ans, db, cat);
    case Scan(t) => FlushWork(s, ans.flush, db, cat);
  }

  lemma DirectWork(s: Session, t: TableId, effect: Table -> Table, ans: Answers, db: Database, cat: Catalog)
    requires BatchInv(s) && Refines(s, db, cat) && UniqueDb(db, cat) && UniqueDb(s.work, cat)
    requires UniqueKeys(effect(TableOf(db, t)), cat(t))
    ensures UniqueDb(DirectStatement(s, t, effect, ans, cat).s.work, cat)
  {
    FlushWork(s, ans.flush, db, cat);
    if !Stopped(s, ans.flush) {
      FlushAllRefines(s, db, cat);
      assert Visible(FlushAll(s, cat), t, cat) == TableOf(db, t);
      hide FlushAll, UniqueDb, UniqueKeys, Refines;
      PutUnique(FlushAll(s, cat).work, t, effect(TableOf(db, t)), cat);
    }
  }

  lemma RowByRowKeepsUnique(db: Database, op: Op, cat: Catalog)
    requires UniqueDb(db, cat) && Legal(db, op, cat)
    ensures UniqueDb(ApplyRowByRow(db, op, cat), cat)
  {
    var db1 := ApplyRowByRow(db, op, cat);
    forall u ensures UniqueKeys(TableOf(db1, u), cat(u)) {
      assert UniqueKeys(TableOf(db, u), cat(u));
      match op
      case Insert(t, row, _) =>
        if u == t { InsertedKeys(TableOf(db, t), row, cat(t)); }
      case Update(t, before, after, _) =>
        if u == t { UpdatedKeys(TableOf(db, t), before, after, cat(t)); }
      case Delete(t, row) =>
        if u == t { DeletedKeys(TableOf(db, t), KeyOf(row, cat(t)), [], cat(t)); }
      case _ =>
    }
  }

  /** Legal is what keeps the keys: of a new row, or of a change to a row that is there, exactly the
      legal ones leave a table with unique keys. */
  lemma LegalKeepsKeys(db: Database, op: Op, cat: Catalog)
    requires UniqueDb(db, cat)
    requires op.Insert? || (op.Update? && op.before in TableOf(db, op.t) && |op.before| == |op.after|)
    ensures Legal(db, op, cat) <==> UniqueDb(ApplyRowByRow(db, op, cat), cat)
  {
    var db1, t := ApplyRowByRow(db, op, cat), TableOf(db, op.t);
    if Legal(db, op, cat) {
      RowByRowKeepsUnique(db, op, cat);
    } else if UniqueDb(db1, cat) {
      assert UniqueKeys(t, cat(op.t)) && UniqueKeys(TableOf(db1, op.t), cat(op.t));
      hide UniqueDb, UniqueKeys, KeyOf, NoNull;
      match op
      case Insert(_, row, _) => KeptKeys(t, row, cat(op.t));
      case Update(_, before, after, _) => ChangeKeepsKeys(t, before, after, cat(op.t));
    }
  }

  lemma ChangeKeepsKeys(t: Table, before: Row, after: Row, pk: seq<nat>)
    requires UniqueKeys(t, pk) && before in t && |before| == |after|
    requires UniqueKeys(UpdateRows(t, KeyOf(before, pk), after, AllColumns(after), pk), pk)
    ensures LegalChange(t, before, after, pk)
  {
    hide UpdateRows, KeyOf, NoNull;
    assert NoNull(KeyOf(before, pk)) by { assert t[before] == 1; }
    ReferenceUpdate(t, before, after, pk);
    KeptKeys(DeleteKeys(t, {KeyOf(before, pk)}, pk), after, pk);
    DeletedKeys(t, KeyOf(before, pk), KeyOf(after, pk), pk);
  }

  lemma UpdatedKeys(t: Table, before: Row, after: Row, pk: seq<nat>)
    requires UniqueKeys(t, pk) && LegalChange(t, before, after, pk) && |before| == |after|
    ensures UniqueKeys(UpdateRows(t, KeyOf(before, pk), after, AllColumns(after), pk), pk)
  {
    hide UpdateRows;
    ReferenceUpdate(t, before, after, pk);
    DeletedKeys(t, KeyOf(before, pk), KeyOf(after, pk), pk);
    InsertedKeys(DeleteKeys(t, {KeyOf(before, pk)}, pk), after, pk);
  }

  // ----- whole runs -----

  ghost predicate LegalRun(s: Session, steps: seq<Step>, db: Database, cat: Catalog) {
    steps == [] ||
    var init, last := steps[..|steps| - 1], steps[|steps| - 1];
    LegalRun(s, init, db, cat) && Legal(RunReference(s, db, init, cat), last.op, cat)
  }

  /** Every step of the run is sound where it happens. */
  ghost predicate SoundRun(s: Session, steps: seq<Step>, cat: Catalog) {
    steps == [] ||
    var init, last := steps[..|steps| - 1], steps[|steps| - 1];
    SoundRun(s, init, cat) && Sound(Run(s, init, cat), last, cat)
  }

  /** The session shows the reference at every point of the run. */
  ghost predicate RefinesThroughout(s: Session, steps: seq<Step>, db: Database, cat: Catalog) {
    && Refines(Run(s, steps, cat), RunReference(s, db, steps, cat), cat)
    && (steps == [] || RefinesThroughout(s, steps[..|steps| - 1], db, cat))
  }

  /** The run theorem.  Over every run of key-respecting operations, on any tables, under changing
      settings, with any appends, statements and flushes failing, the visible tables are those of
      the reference at every point if and only if every step is sound. */
  lemma {:induction false} RunRefines(s: Session, steps: seq<Step>, db: Database, cat: Catalog)
    requires BatchInv(s) && Refines(s, db, cat) && UniqueDb(db, cat) && UniqueDb(s.work, cat)
    requires LegalRun(s, steps, db, cat)
    ensures RefinesThroughout(s, steps, db, cat) <==> SoundRun(s, steps, cat)
    ensures UniqueDb(RunReference(s, db, steps, cat), cat)
    ensures SoundRun(s, steps, cat) ==> UniqueDb(Run(s, steps, cat).work, cat)
  {
    hide Apply, ApplyRowByRow, Sound, Legal, Refines, BatchInv, UniqueDb;
    if steps != [] {
      var init, last := steps[..|steps| - 1], steps[|steps| - 1];
      RunRefines(s, init, db, cat);
      RunKeepsInv(s, init, cat);
      RowByRowKeepsUnique(RunReference(s, db, init, cat), last.op, cat);
      if SoundRun(s, init, cat) {
        StepRefines(Run(s, init, cat), last, RunReference(s, db, init, cat), cat);
        if Sound(Run(s, init, cat), last, cat) {
          StepKeepsWork(Run(s, init, cat), last, RunReference(s, db, init, cat), cat);
        }
      }
    }
  }
}
