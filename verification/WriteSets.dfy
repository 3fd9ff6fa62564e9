/** Which columns reach DuckDB.  A batched row is sent whole.  A statement names the columns of the
    table's write set, which the server sets once per statement and an unbatched update narrows for
    the rows that follow.  This module says exactly when a run without faults is row-by-row
    execution, and what goes wrong otherwise. */
module WriteSets {
  import opened Tables
  import opened DeltaLog
  import opened PendingLogs
  import opened BatchSession
  import opened BatchInvariant
  import opened BatchRefinement
  import RowDifference

  // ----- runs without faults -----

  /** Once the batch state is settled, the operation runs as a statement. */
  ghost predicate Unbatched(s: Session, insertOnly: bool, step: Step, cat: Catalog) {
    EnterBatch(s, insertOnly, step.cfg, step.ans.flush, cat).s.batch.NotInBatch?
  }

  /** The columns an UPDATE statement names cover the change: those found changed unless one falls
      into the NULL sentinel, or those of the write set as it is. */
  ghost predicate ColumnsCover(s: Session, t: TableId, before: Row, after: Row, cfg: Settings) {
    || before == after
    || (if cfg.modifiedColumnsOnly && RowDifference.Flagged(before, after) != {}
        then !RowDifference.SentinelClash(before, after)
        else Covers(TableColumns(s, t, after), before, after))
  }

  /** A statement needs its columns in order, and a row event a complete write set; a batched row
      needs nothing. */
  ghost predicate ColumnsFine(s: Session, step: Step, cat: Catalog) {
    match step.op
    case Insert(t, row, defaults) =>
      Unbatched(s, true, step, cat) ==> Covers(TableColumns(s, t, row), defaults, row)
    case Update(t, before, after, injected) =>
      && !Rejected(s, t, after, injected)
      && (Unbatched(s, false, step, cat) ==> ColumnsCover(s, t, before, after, step.cfg))
    case _ => true
  }

  ghost predicate FineRun(s: Session, steps: seq<Step>, cat: Catalog) {
    steps == [] ||
    var init, last := steps[..|steps| - 1], steps[|steps| - 1];
    FineRun(s, init, cat) && ColumnsFine(Run(s, init, cat), last, cat)
  }

  /** The server is told of no error. */
  ghost predicate AllSucceed(s: Session, steps: seq<Step>, cat: Catalog) {
    steps == [] ||
    var init, last := steps[..|steps| - 1], steps[|steps| - 1];
    AllSucceed(s, init, cat) && Apply(Run(s, init, cat), last, cat).ok
  }

  /** The reference as a plain fold of the operations. */
  ghost function RunRowByRow(db: Database, steps: seq<Step>, cat: Catalog): Database {
    if steps == [] then db
    else ApplyRowByRow(RunRowByRow(db, steps[..|steps| - 1], cat), steps[|steps| - 1].op, cat)
  }

  lemma EnterBatchKeepsWriteSets(s: Session, insertOnly: bool, cfg: Settings, flush: FlushAnswer, cat: Catalog)
    ensures EnterBatch(s, insertOnly, cfg, flush, cat).s.writeSets == s.writeSets
  {
  }

  lemma NarrowCovers(s: Session, t: TableId, before: Row, after: Row, cfg: Settings)
    requires |before| == |after|
    ensures before == after || Covers(TableColumns(Narrow(s, t, before, after, cfg), t, after), before, after) <==>
            ColumnsCover(s, t, before, after, cfg)
  {
    RowDifference.FlaggedCovers(before, after);
    hide Covers, RowDifference.SentinelClash;
  }

  lemma FineInsert(s: Session, t: TableId, row: Row, defaults: Row, ans: Answers, cat: Catalog)
    requires Clean(s) && !s.batch.Undefined? && NoFault(ans)
    ensures InsertSound(s, t, row, defaults, ans, cat) <==>
            (s.batch.NotInBatch? ==> Covers(TableColumns(s, t, row), defaults, row))
  {
    hide Covers, TableColumns;
  }

  lemma FineDelete(s: Session, t: TableId, row: Row, ans: Answers, cat: Catalog)
    requires Clean(s) && !s.batch.Undefined? && NoFault(ans)
    ensures DeleteSound(s, t, row, ans, cat)
  {
  }

  lemma FineUpdate(s: Session, t: TableId, before: Row, after: Row, cfg: Settings, ans: Answers, cat: Catalog)
    requires Clean(s) && !s.batch.Undefined? && NoFault(ans) && |before| == |after|
    ensures UpdateSound(s, t, before, after, cfg, ans, cat) <==>
            (s.batch.NotInBatch? ==> ColumnsCover(s, t, before, after, cfg))
  {
    NarrowCovers(s, t, before, after, cfg);
    assert LogKeys([], cat(t)) == {};
    hide ColumnsCover, Covers, TableColumns, Narrow, LogKeys, KeyOf;
  }

  lemma ColumnsCoverSame(s: Session, s1: Session, t: TableId, before: Row, after: Row, cfg: Settings)
    requires s.writeSets == s1.writeSets
    ensures ColumnsCover(s, t, before, after, cfg) == ColumnsCover(s1, t, before, after, cfg)
  {
    hide Covers, RowDifference.SentinelClash;
  }

  /** Without faults and with nothing stranded, an operation succeeds and is sound exactly when its
      columns are in order. */
  lemma FineStep(s: Session, step: Step, db: Database, cat: Catalog)
    requires Clean(s) && BatchInv(s) && NoFault(step.ans) && Legal(db, step.op, cat)
    ensures Apply(s, step, cat).ok && Sound(s, step, cat) <==> ColumnsFine(s, step, cat)
  {
    var cfg, ans := step.cfg, step.ans;
    hide EnterBatch, InsertSettled, UpdateSettled, DeleteSettled, PartlyFlushed, BatchInv, InsertSound, UpdateSound;
    hide DeleteSound, ColumnsCover, Covers, LegalChange;
    match step.op
    case Insert(t, row, defaults) =>
      var e := EnterBatch(s, true, cfg, FlushOk, cat).s;
      EnterBatchClean(s, true, cfg, cat);
      EnterBatchKeepsWriteSets(s, true, cfg, FlushOk, cat);
      FineInsert(e, t, row, defaults, ans, cat);
      InsertClean(e, t, row, defaults, ans);
    case Update(t, before, after, injected) =>
      var e := EnterBatch(s, false, cfg, FlushOk, cat).s;
      EnterBatchClean(s, false, cfg, cat);
      EnterBatchInv(s, false, cfg, FlushOk, cat);
      EnterBatchKeepsWriteSets(s, false, cfg, FlushOk, cat);
      ColumnsCoverSame(s, e, t, before, after, cfg);
      FineUpdate(e, t, before, after, cfg, ans, cat);
      UpdateClean(e, t, before, after, cfg, ans, cat);
    case Delete(t, row) =>
      var e := EnterBatch(s, false, cfg, FlushOk, cat).s;
      EnterBatchClean(s, false, cfg, cat);
      EnterBatchInv(s, false, cfg, FlushOk, cat);
      FineDelete(e, t, row, ans, cat);
      DeleteClean(e, t, row, ans, cat);
    case _ =>
  }

  lemma {:induction false} FineRunIsSound(s: Session, steps: seq<Step>, db: Database, cat: Catalog)
    requires BatchInv(s) && Clean(s) && NoFaults(steps) && LegalRun(s, steps, db, cat)
    ensures SoundRun(s, steps, cat) && AllSucceed(s, steps, cat) <==> FineRun(s, steps, cat)
    ensures AllSucceed(s, steps, cat) ==> RunReference(s, db, steps, cat) == RunRowByRow(db, steps, cat)
  {
    hide Apply, ApplyRowByRow, Sound, Legal, BatchInv, Clean, NoFault, ColumnsFine;
    if steps != [] {
      var init, last := steps[..|steps| - 1], steps[|steps| - 1];
      FineRunIsSound(s, init, db, cat);
      RunKeepsInv(s, init, cat);
      RunKeepsClean(s, init, cat);
      FineStep(Run(s, init, cat), last, RunReference(s, db, init, cat), cat);
    }
  }

  /** Without faults every run of key-respecting operations is row-by-row execution exactly when its
      columns are in order: then every operation succeeds, and at every point the visible tables are
      the fold of the operations, one statement per row, through whatever batch states it passed. */
  lemma BatchedRunRefinesRowByRow(s: Session, steps: seq<Step>, db: Database, cat: Catalog)
    requires BatchInv(s) && Clean(s) && Refines(s, db, cat) && UniqueDb(db, cat) && UniqueDb(s.work, cat)
    requires NoFaults(steps) && LegalRun(s, steps, db, cat)
    ensures RefinesThroughout(s, steps, db, cat) && AllSucceed(s, steps, cat) <==> FineRun(s, steps, cat)
    ensures FineRun(s, steps, cat) ==> Refines(Run(s, steps, cat), RunRowByRow(db, steps, cat), cat)
  {
    hide Apply, ApplyRowByRow, Sound, Legal, Refines, BatchInv, UniqueDb, Clean, NoFault, ColumnsFine;
    RunRefines(s, steps, db, cat);
    FineRunIsSound(s, steps, db, cat);
  }

  // ----- batched runs -----

  /** No row event meets an incomplete write set. */
  ghost predicate NoneRejected(s: Session, steps: seq<Step>, cat: Catalog) {
    steps == [] ||
    var init, last := steps[..|steps| - 1], steps[|steps| - 1];
    && NoneRejected(s, init, cat)
    && (last.op.Update? ==> !Rejected(Run(s, init, cat), last.op.t, last.op.after, last.op.injected))
  }

  lemma StaysInBatch(s: Session, step: Step, cat: Catalog)
    requires !s.batch.NotInBatch? && BatchInv(s) && step.cfg.dmlInBatch && NoFault(step.ans)
    ensures !Apply(s, step, cat).s.batch.NotInBatch?
    ensures !Unbatched(s, true, step, cat) && !Unbatched(s, false, step, cat)
  {
    var cfg, ans := step.cfg, step.ans;
    assert Clean(s) by { hide ValidDelta; }
    EntersBatch(s, true, cfg, cat);
    EntersBatch(s, false, cfg, cat);
    EnterBatchClean(s, true, cfg, cat);
    EnterBatchClean(s, false, cfg, cat);
    EnterBatchInv(s, false, cfg, FlushOk, cat);
    hide EnterBatch, InsertSettled, UpdateSettled, DeleteSettled, PartlyFlushed, BatchInv, Clean;
    match step.op
    case Insert(t, row, defaults) => InsertClean(EnterBatch(s, true, cfg, FlushOk, cat).s, t, row, defaults, ans);
    case Update(t, before, after, _) =>
      UpdateClean(EnterBatch(s, false, cfg, FlushOk, cat).s, t, before, after, cfg, ans, cat);
    case Delete(t, row) => DeleteClean(EnterBatch(s, false, cfg, FlushOk, cat).s, t, row, ans, cat);
    case _ =>
  }

  lemma EntersBatch(s: Session, insertOnly: bool, cfg: Settings, cat: Catalog)
    requires !s.batch.NotInBatch? && cfg.dmlInBatch
    ensures !EnterBatch(s, insertOnly, cfg, FlushOk, cat).s.batch.NotInBatch?
  {
    hide PartlyFlushed;
  }

  /** With `dml_in_batch` on, nothing is asked of the columns: every run without faults is fine in
      which no row event meets an incomplete write set. */
  lemma {:induction false} BatchedRunsAreFine(s: Session, steps: seq<Step>, cat: Catalog)
    requires !s.batch.NotInBatch? && BatchInv(s) && NoFaults(steps)
    requires forall i :: 0 <= i < |steps| ==> steps[i].cfg.dmlInBatch
    ensures FineRun(s, steps, cat) <==> NoneRejected(s, steps, cat)
    ensures !Run(s, steps, cat).batch.NotInBatch?
  {
    hide Apply, BatchInv, NoFault, Unbatched, Rejected;
    if steps != [] {
      var init, last := steps[..|steps| - 1], steps[|steps| - 1];
      BatchedRunsAreFine(s, init, cat);
      RunKeepsInv(s, init, cat);
      StaysInBatch(Run(s, init, cat), last, cat);
    }
  }

  /** So under the default settings a replicated event with complete images goes through, however
      many rows it has. */
  lemma {:induction false} ReplicatedEventIsFine(s: Session, t: TableId, rows: seq<(Row, Row)>, ans: Answers,
                                                 cat: Catalog)
    requires !s.batch.NotInBatch? && BatchInv(s) && NoFault(ans)
    ensures FineRun(s, EventSteps(t, rows, ans), cat)
    ensures WriteSetOf(Run(s, EventSteps(t, rows, ans), cat), t) == All
  {
    var steps := EventSteps(t, rows, ans);
    var init, last := steps[..|steps| - 1], steps[|steps| - 1];
    if rows == [] {
      assert init == [] && FineRun(s, init, cat);
    } else {
      var n := |rows| - 1;
      assert init == EventSteps(t, rows[..n], ans);
      ReplicatedEventIsFine(s, t, rows[..n], ans, cat);
      hide Apply;
      BatchedRunsAreFine(s, init, cat);
      RunKeepsInv(s, init, cat);
      StaysInBatch(Run(s, init, cat), last, cat);
      hide BatchInv, Unbatched, FineRun, EventSteps;
      assert Spares(Run(s, init, cat), last, t, cat) by { BatchedUpdateSpares(Run(s, init, cat), last, cat); }
      SparedWriteSet(Run(s, init, cat), last, t, cat);
    }
  }

  /** A row event: the server marks every column, then sends the rows. */
  function EventSteps(t: TableId, rows: seq<(Row, Row)>, ans: Answers): (steps: seq<Step>)
    ensures |steps| == |rows| + 1 && forall i :: 0 <= i < |steps| ==> steps[i].cfg.dmlInBatch && steps[i].ans == ans
  {
    if rows == [] then [Step(Mark(t, All), Settings(true, true), ans)]
    else
      var last := rows[|rows| - 1];
      EventSteps(t, rows[..|rows| - 1], ans) + [Step(Update(t, last.0, last.1, true), Settings(true, true), ans)]
  }

  // ----- what a run leaves of a write set -----

  /** The step gives the table this write set. */
  predicate Marks(step: Step, t: TableId, w: WriteSet) {
    || (step.op.Mark? && step.op.t == t && step.op.w == w)
    || (step.op.Scan? && step.op.t == t && w.All? && step.ans.statementOk && step.ans.flush.FlushOk?)
  }

  /** The step is an update that narrows its table's write set. */
  ghost predicate Narrows(s: Session, step: Step, cat: Catalog) {
    && step.op.Update? && step.cfg.modifiedColumnsOnly && RowDifference.Flagged(step.op.before, step.op.after) != {}
    && !Rejected(s, step.op.t, step.op.after, step.op.injected) && Unbatched(s, false, step, cat)
  }

  /** The step leaves the table's write set alone. */
  ghost predicate Spares(s: Session, step: Step, t: TableId, cat: Catalog) {
    step.op.t != t || !(step.op.Mark? || step.op.Scan? || Narrows(s, step, cat))
  }

  lemma BatchedUpdateSpares(s: Session, step: Step, cat: Catalog)
    requires step.op.Update? && !Unbatched(s, false, step, cat)
    ensures Spares(s, step, step.op.t, cat)
  {
  }

  /** The last step to set the table's write set set it to `w`, and none has narrowed it since. */
  ghost predicate StillMarked(s: Session, steps: seq<Step>, t: TableId, w: WriteSet, cat: Catalog) {
    steps != [] &&
    var init, last := steps[..|steps| - 1], steps[|steps| - 1];
    Marks(last, t, w) || (Spares(Run(s, init, cat), last, t, cat) && StillMarked(s, init, t, w, cat))
  }

  lemma FlushKeepsWriteSets(s: Session, flush: FlushAnswer, cat: Catalog)
    ensures FlushTo(s, flush, cat).s.writeSets == s.writeSets
    ensures flush.FlushOk? ==> FlushTo(s, flush, cat).ok
  {
  }

  lemma SparedByUpdate(s: Session, step: Step, t: TableId, cat: Catalog)
    requires step.op.Update? && Spares(s, step, t, cat)
    ensures WriteSetOf(Apply(s, step, cat).s, t) == WriteSetOf(s, t)
  {
    EnterBatchKeepsWriteSets(s, false, step.cfg, step.ans.flush, cat);
    hide EnterBatch, UpdateRows, RowDifference.Flagged, TableColumns, FailedUpdate, AppendUpdate;
  }

  lemma SparedWriteSet(s: Session, step: Step, t: TableId, cat: Catalog)
    requires Spares(s, step, t, cat)
    ensures WriteSetOf(Apply(s, step, cat).s, t) == WriteSetOf(s, t)
  {
    EnterBatchKeepsWriteSets(s, true, step.cfg, step.ans.flush, cat);
    EnterBatchKeepsWriteSets(s, false, step.cfg, step.ans.flush, cat);
    FlushKeepsWriteSets(s, step.ans.flush, cat);
    hide EnterBatch, Overwrite, FlushTo, UpdateRow, Narrows;
    if step.op.Update? { SparedByUpdate(s, step, t, cat); }
  }

  lemma {:induction false} StillMarkedIsCurrent(s: Session, steps: seq<Step>, t: TableId, w: WriteSet, cat: Catalog)
    requires StillMarked(s, steps, t, w, cat)
    ensures WriteSetOf(Run(s, steps, cat), t) == w
  {
    var init, last := steps[..|steps| - 1], steps[|steps| - 1];
    if Marks(last, t, w) {
      FlushKeepsWriteSets(Run(s, init, cat), last.ans.flush, cat);
    } else {
      hide Apply;
      StillMarkedIsCurrent(s, init, t, w, cat);
      SparedWriteSet(Run(s, init, cat), last, t, cat);
    }
  }

  // ----- what a narrowed write set does -----

  /** A successful unbatched update that flags columns leaves the table's write set at those. */
  lemma UpdateNarrows(s: Session, t: TableId, before: Row, after: Row, injected: bool, cfg: Settings, ans: Answers,
                      cat: Catalog)
    requires s.batch.NotInBatch? && cfg.modifiedColumnsOnly && RowDifference.Flagged(before, after) != {}
    requires !Rejected(s, t, after, injected)
    ensures var r := UpdateRow(s, t, before, after, injected, cfg, ans, cat);
            && r.s.batch == s.batch && r.s.deltas == s.deltas
            && WriteSetOf(r.s, t) == Only(RowDifference.Flagged(before, after))
  {
  }

  /** With the variable off, an unbatched update that changes its row is complete exactly when the
      table's write set covers the change. */
  lemma PlainUpdateNeedsCover(s: Session, t: TableId, before: Row, after: Row, cfg: Settings, ans: Answers,
                              db: Database, cat: Catalog)
    requires s.batch.NotInBatch? && s.deltas == map[] && !cfg.modifiedColumnsOnly && NoFault(ans) && before != after
    requires Refines(s, db, cat) && UniqueDb(db, cat) && Legal(db, Update(t, before, after, false), cat)
    ensures var step := Step(Update(t, before, after, false), cfg, ans);
            Refines(Apply(s, step, cat).s, Reference(s, db, step, cat), cat) <==>
            Covers(TableColumns(s, t, after), before, after)
  {
    hide *;
    WorkIsVisible(s, db, cat);
    PlainUpdateSound(s, t, before, after, cfg, ans, cat);
    StepRefines(s, Step(Update(t, before, after, false), cfg, ans), db, cat);
  }

  lemma PlainUpdateSound(s: Session, t: TableId, before: Row, after: Row, cfg: Settings, ans: Answers, cat: Catalog)
    requires s.batch.NotInBatch? && s.deltas == map[] && !cfg.modifiedColumnsOnly && NoFault(ans) && before != after
    ensures BatchInv(s)
    ensures var step := Step(Update(t, before, after, false), cfg, ans);
            Sound(s, step, cat) <==> Covers(TableColumns(s, t, after), before, after)
  {
    hide Covers, TableColumns;
    assert LogKeys(PendingOn(s, t).log, cat(t)) == {};
  }

  /** When the variable is turned off within a statement, the next row is sent with the columns the
      previous one changed: it is updated as it should exactly when they cover its change. */
  lemma NextRowLosesColumns(s: Session, t: TableId, before: Row, after: Row, next: Row, next1: Row,
                            cfg: Settings, ans: Answers, db: Database, cat: Catalog)
    requires s.batch.NotInBatch? && s.deltas == map[] && cfg.modifiedColumnsOnly && NoFault(ans)
    requires RowDifference.Flagged(before, after) != {} && next != next1
    requires Refines(UpdateRow(s, t, before, after, false, cfg, ans, cat).s, db, cat)
    requires UniqueDb(db, cat) && Legal(db, Update(t, next, next1, false), cat)
    ensures var s1 := UpdateRow(s, t, before, after, false, cfg, ans, cat).s;
            var step := Step(Update(t, next, next1, false), cfg.(modifiedColumnsOnly := false), ans);
            Refines(Apply(s1, step, cat).s, Reference(s1, db, step, cat), cat) <==>
            Covers(RowDifference.Flagged(before, after), next, next1)
  {
    UpdateNarrows(s, t, before, after, false, cfg, ans, cat);
    hide UpdateRow, Refines, UniqueDb, Legal, Covers, Apply, Reference;
    var s1 := UpdateRow(s, t, before, after, false, cfg, ans, cat).s;
    PlainUpdateNeedsCover(s1, t, next, next1, cfg.(modifiedColumnsOnly := false), ans, db, cat);
  }

  /** A run of a two-row statement: the first update flags `cols`, the variable is turned off, the
      second row changes other columns only.  Both updates succeed, and the second row stays. */
  lemma SecondRowStays(t: TableId, row: Row, row1: Row, next: Row, next1: Row, batch: bool, cat: Catalog)
    requires var pk := cat(t);
             && NoNull(KeyOf(row, pk)) && NoNull(KeyOf(next, pk))
             && KeyOf(row, pk) == KeyOf(row1, pk) && KeyOf(row, pk) != KeyOf(next, pk)
    requires RowDifference.Flagged(row, row1) != {}
    requires forall i :: i in RowDifference.Flagged(row, row1) && i < |next| && i < |next1| ==> next[i] == next1[i]
    ensures var fine := Answers(true, true, true, true, FlushOk);
            var s := Session(NotInBatch, map[], map[t := All], map[t := multiset{row, next}]);
            var r := Apply(s, Step(Update(t, row, row1, false), Settings(batch, true), fine), cat);
            var r1 := Apply(r.s, Step(Update(t, next, next1, false), Settings(batch, false), fine), cat);
            && r.ok && r1.ok
            && TableOf(r1.s.work, t) == multiset{Overwrite(row, row1, RowDifference.Flagged(row, row1)), next}
  {
    hide Apply, UpdateRows, RowDifference.Flagged, Overwrite, KeyOf;
    var fine, cols, pk := Answers(true, true, true, true, FlushOk), RowDifference.Flagged(row, row1), cat(t);
    var s := Session(NotInBatch, map[], map[t := All], map[t := multiset{row, next}]);
    var s1 := Apply(s, Step(Update(t, row, row1, false), Settings(batch, true), fine), cat).s;
    var sent := Overwrite(row, row1, cols);
    UpdateOutsideBatch(s, t, row, row1, Settings(batch, true), cat);
    SwapRow(row, row1, next, cols, pk);
    assert WriteSetOf(s1, t) == Only(cols) && TableOf(s1.work, t) == multiset{sent, next} && s1.batch == NotInBatch;
    UpdateOutsideBatch(s1, t, next, next1, Settings(batch, false), cat);
    OverwrittenKey(row, row1, cols, pk);
    SwapRow(next, next1, sent, cols, pk);
    Untouched(next, next1, cols);
    assert multiset{sent, next} == multiset{next, sent};
  }

  lemma Untouched(x: Row, after: Row, cols: set<nat>)
    requires forall i :: i in cols && i < |x| && i < |after| ==> x[i] == after[i]
    ensures Overwrite(x, after, cols) == x
  {
  }

  lemma SwapRow(row: Row, after: Row, other: Row, cols: set<nat>, pk: seq<nat>)
    requires KeyOf(row, pk) != KeyOf(other, pk) && NoNull(KeyOf(row, pk))
    ensures UpdateRows(multiset{row, other}, KeyOf(row, pk), after, cols, pk)
         == multiset{Overwrite(row, after, cols), other}
  {
    hide UpdateRows, Overwrite;
    var t := multiset{row, other};
    assert OnlyRow(t, row, pk);
    UpdateRowsReplacesOne(t, row, after, cols, pk);
    assert DeleteKeys(t, {KeyOf(row, pk)}, pk) == multiset{other};
  }

  lemma UpdateOutsideBatch(s: Session, t: TableId, before: Row, after: Row, cfg: Settings, cat: Catalog)
    requires s.batch.NotInBatch?
    ensures var fine := Answers(true, true, true, true, FlushOk);
            var r := Apply(s, Step(Update(t, before, after, false), cfg, fine), cat);
            var s1 := Narrow(s, t, before, after, cfg);
            var k, cols := KeyOf(before, cat(t)), TableColumns(s1, t, after);
            && r.ok
            && r.s == s1.(work := s.work[t := UpdateRows(TableOf(s.work, t), k, after, cols, cat(t))])
  {
    hide UpdateRows;
  }

  /** A row event with complete images is refused from its second row on, unless the first row
      changed every column. */
  lemma NextReplicatedRowIsRefused(s: Session, t: TableId, before: Row, after: Row, next: Row, next1: Row,
                                   cfg: Settings, ans: Answers, cat: Catalog)
    requires s.batch.NotInBatch? && cfg.modifiedColumnsOnly && RowDifference.Flagged(before, after) != {}
    requires !Rejected(s, t, after, true) && |next1| == |after| == |before|
    ensures var s1 := UpdateRow(s, t, before, after, true, cfg, ans, cat).s;
            Rejected(s1, t, next1, true) <==> exists i: nat :: i < |after| && i !in RowDifference.Flagged(before, after)
  {
    UpdateNarrows(s, t, before, after, true, cfg, ans, cat);
    hide UpdateRow, RowDifference.Flagged;
  }

  // ----- a deleted row that comes back -----

  /** A row is logged, directly or with a temporary table; an append on another table fails and
      ends the batch; the row is deleted; and the flush of the next scan brings it back. */
  lemma DeletedRowComesBack(t: TableId, u: TableId, row: Row, other: Row, mixed: bool, cfg: Settings, cat: Catalog)
    requires NoNull(KeyOf(row, cat(t))) && t != u
    ensures var fine := Answers(true, true, true, true, FlushOk);
            var s := LoneRow(t, row, mixed);
            var s1 := Apply(s, Step(Insert(u, other, other), cfg, fine.(rowOk := false)), cat).s;
            var s2 := Apply(s1, Step(Delete(t, row), cfg, fine), cat).s;
            var s3 := Apply(s2, Step(Scan(t), cfg, fine), cat).s;
            && BatchInv(s) && Visible(s, t, cat) == multiset{row}
            && TableOf(s2.work, t) == multiset{} && TableOf(s3.work, t) == multiset{row} && s3.deltas == map[]
  {
    var fine, d := Answers(true, true, true, true, FlushOk), AppendInsert(EmptyDelta(mixed), row);
    var s := LoneRow(t, row, mixed);
    LoneInsert(row, mixed, cat(t));
    hide Flushed, ValidDelta, AppendInsert, EmptyDelta;
    assert BatchInv(s) && Visible(s, t, cat) == multiset{row};
    hide Apply;
    FailedInsertElsewhere(s, t, u, other, cfg, cat);
    var s1 := Apply(s, Step(Insert(u, other, other), cfg, fine.(rowOk := false)), cat).s;
    DeleteOutsideBatch(s1, t, row, cfg, cat);
    var s2 := Apply(s1, Step(Delete(t, row), cfg, fine), cat).s;
    ScanFlushes(s2, t, cfg, cat);
  }

  lemma FailedInsertElsewhere(s: Session, t: TableId, u: TableId, row: Row, cfg: Settings, cat: Catalog)
    requires (s.batch.MixBatch? || s.batch.InsertOnlyBatch?) && t in s.deltas && t != u
    ensures var s1 := Apply(s, Step(Insert(u, row, row), cfg, Answers(true, true, false, true, FlushOk)), cat).s;
            && s1.batch == NotInBatch && t in s1.deltas && s1.deltas[t] == s.deltas[t]
            && TableOf(s1.work, t) == TableOf(s.work, t)
  {
    hide Overwrite;
  }

  lemma DeleteOutsideBatch(s: Session, t: TableId, row: Row, cfg: Settings, cat: Catalog)
    requires s.batch.NotInBatch?
    ensures Apply(s, Step(Delete(t, row), cfg, Answers(true, true, true, true, FlushOk)), cat).s
         == s.(work := s.work[t := DeleteKeys(TableOf(s.work, t), {KeyOf(row, cat(t))}, cat(t))])
  {
  }

  lemma ScanFlushes(s: Session, t: TableId, cfg: Settings, cat: Catalog)
    ensures var s1 := Apply(s, Step(Scan(t), cfg, Answers(true, true, true, true, FlushOk)), cat).s;
            s1.deltas == map[] && TableOf(s1.work, t) == Visible(s, t, cat)
  {
    hide Flushed;
  }

  /** A batch that has logged one row. */
  function LoneRow(t: TableId, row: Row, mixed: bool): Session {
    Session(if mixed then MixBatch else InsertOnlyBatch, map[t := AppendInsert(EmptyDelta(mixed), row)], map[], map[])
  }

  lemma LoneInsert(row: Row, mixed: bool, pk: seq<nat>)
    requires NoNull(KeyOf(row, pk))
    ensures var d := AppendInsert(EmptyDelta(mixed), row);
            ValidDelta(d) && d.useTmp == mixed && Flushed(multiset{}, d, pk) == multiset{row}
    ensures DeleteKeys(multiset{}, {KeyOf(row, pk)}, pk) == multiset{}
  {
    LegalInsert(multiset{}, EmptyDelta(mixed), row, pk);
  }
}
