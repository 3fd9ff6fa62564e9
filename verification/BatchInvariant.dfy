/** What every step keeps, whatever the operation, the keys it meets and DuckDB's answers: the
    link between the batch state and the kinds of cached appenders. */
module BatchInvariant {
  import opened Tables
  import opened DeltaLog
  import opened PendingLogs
  import opened BatchSession

  lemma FlushInv(s: Session, flush: FlushAnswer, cat: Catalog)
    requires BatchInv(s)
    ensures BatchInv(FlushTo(s, flush, cat).s)
  {
    hide PartlyFlushed, FailedFlush;
    var s1 := FlushTo(s, flush, cat).s;
    forall t | t in s1.deltas ensures ValidDelta(s1.deltas[t]) {
      EmptiedIsValid(s.deltas[t]);
    }
    hide ValidDelta;
  }

  lemma EmptiedIsValid(d: Delta)
    requires ValidDelta(d)
    ensures ValidDelta(Emptied(d))
  {
  }

  /** `get_batch_state` succeeds for inserts and leaves a batch state; so in a batch an update or
      delete never meets a direct appender, cached or new. */
  lemma EnterBatchInv(s: Session, insertOnly: bool, cfg: Settings, flush: FlushAnswer, cat: Catalog)
    requires BatchInv(s)
    ensures var e := EnterBatch(s, insertOnly, cfg, flush, cat);
            && BatchInv(e.s) && (insertOnly ==> e.ok)
            && (e.ok ==> !e.s.batch.Undefined? && (e.s.batch.InsertOnlyBatch? ==> insertOnly))
            && (e.ok && !insertOnly && !e.s.batch.NotInBatch? ==> forall t :: DeltaFor(e.s, t).useTmp)
  {
    hide FlushTo, BatchInv, DeltaFor;
    FlushInv(s, flush, cat);
    FlushEndsBatch(s, flush, cat);
    var e := EnterBatch(s, insertOnly, cfg, flush, cat);
    var s0 := if s.batch.InsertOnlyBatch? && !insertOnly then FlushTo(s, flush, cat).s else s;
    if s0.batch.Undefined? { SettleInv(s0, e.s.batch); }
    if e.s.batch.MixBatch? { MixedBatch(e.s); }
  }

  lemma FlushEndsBatch(s: Session, flush: FlushAnswer, cat: Catalog)
    ensures var r := FlushTo(s, flush, cat); if r.ok then r.s.batch == Undefined else r.s.batch == s.batch
  {
    hide PartlyFlushed;
  }

  lemma SettleInv(s: Session, batch: BatchState)
    requires BatchInv(s) && s.batch.Undefined?
    ensures BatchInv(s.(batch := batch))
  {
    hide ValidDelta;
  }

  lemma MixedBatch(s: Session)
    requires BatchInv(s) && s.batch.MixBatch?
    ensures forall t :: DeltaFor(s, t).useTmp
  {
    hide ValidDelta;
  }

  lemma StatementInv(s: Session, t: TableId, image: Table, ans: Answers)
    requires BatchInv(s)
    ensures BatchInv(RunStatement(s, t, image, ans).s)
  {
    hide ValidDelta;
  }

  lemma FallBackInv(s: Session, t: TableId, d: Delta, ans: Answers)
    requires BatchInv(s) && ValidDelta(d)
    ensures BatchInv(FallBack(s, t, d, ans))
  {
    hide ValidDelta;
  }

  lemma AppendInv(s: Session, t: TableId, d: Delta)
    requires BatchInv(s) && !s.batch.Undefined? && ValidDelta(d) && d.useTmp == DeltaFor(s, t).useTmp
    ensures BatchInv(WithDelta(s, t, d))
  {
    hide ValidDelta;
  }

  lemma DeltaForIsValid(s: Session, t: TableId)
    requires BatchInv(s)
    ensures ValidDelta(DeltaFor(s, t))
  {
  }

  lemma InsertInv(s: Session, t: TableId, row: Row, defaults: Row, ans: Answers)
    requires BatchInv(s) && !s.batch.Undefined?
    ensures BatchInv(InsertSettled(s, t, row, defaults, ans).s)
  {
    var d := DeltaFor(s, t);
    var image := TableOf(s.work, t) + multiset{Overwrite(defaults, row, TableColumns(s, t, row))};
    DeltaForIsValid(s, t);
    AppendsKeepValid(d, row, []);
    FailedAppendsKeepValid(d, row, true, []);
    hide BatchInv, ValidDelta, FailedInsert, Overwrite;
    if HasAppender(s, t, ans) && ans.rowOk {
      AppendInv(s, t, AppendInsert(d, row));
    } else {
      FallBackInv(s, t, FailedInsert(d), ans);
      StatementInv(s, t, image, ans);
      StatementInv(FallBack(s, t, FailedInsert(d), ans), t, image, ans);
    }
  }

  lemma DeleteInv(s: Session, t: TableId, row: Row, ans: Answers, cat: Catalog)
    requires BatchInv(s) && !s.batch.Undefined?
    ensures BatchInv(DeleteSettled(s, t, row, ans, cat).s)
  {
    var d, image := DeltaFor(s, t), DeleteKeys(TableOf(s.work, t), {KeyOf(row, cat(t))}, cat(t));
    DeltaForIsValid(s, t);
    AppendsKeepValid(d, row, cat(t));
    FailedAppendsKeepValid(d, row, true, cat(t));
    hide BatchInv, ValidDelta, FailedDelete;
    if HasAppender(s, t, ans) && d.useTmp && ans.markerOk {
      AppendInv(s, t, AppendDelete(d, row, cat(t)));
    } else {
      FallBackInv(s, t, FailedDelete(d), ans);
      StatementInv(s, t, image, ans);
      StatementInv(FallBack(s, t, FailedDelete(d), ans), t, image, ans);
    }
  }

  lemma NarrowInv(s: Session, t: TableId, before: Row, after: Row, cfg: Settings)
    requires BatchInv(s)
    ensures BatchInv(Narrow(s, t, before, after, cfg))
  {
    hide ValidDelta;
  }

  lemma UpdateInv(s: Session, t: TableId, before: Row, after: Row, cfg: Settings, ans: Answers, cat: Catalog)
    requires BatchInv(s) && !s.batch.Undefined?
    ensures BatchInv(UpdateSettled(s, t, before, after, cfg, ans, cat).s)
  {
    var d, k, pk, s1 := DeltaFor(s, t), KeyOf(before, cat(t)), cat(t), Narrow(s, t, before, after, cfg);
    var left := FailedUpdate(d, before, ans.markerOk, pk);
    DeltaForIsValid(s, t);
    AppendsKeepValid(d, before, pk);
    FailedAppendsKeepValid(d, before, ans.markerOk, pk);
    NarrowInv(s, t, before, after, cfg);
    hide BatchInv, ValidDelta, FailedUpdate, UpdateRows, Narrow, AppendDelete;
    if s.batch.NotInBatch? {
      StatementInv(s1, t, UpdateRows(TableOf(s.work, t), k, after, TableColumns(s1, t, after), pk), ans);
    } else if HasAppender(s, t, ans) && d.useTmp && ans.markerOk && ans.rowOk {
      AppendsKeepValid(AppendDelete(d, before, pk), after, pk);
      AppendedKind(d, before, after, pk);
      AppendInv(s, t, AppendUpdate(d, before, after, pk));
    } else {
      FallBackInv(s, t, left, ans);
      StatementInv(FallBack(s, t, left, ans), t,
                   UpdateRows(TableOf(s.work, t), k, after, TableColumns(s, t, after), pk), ans);
    }
  }

  lemma AppendedKind(d: Delta, before: Row, after: Row, pk: seq<nat>)
    ensures AppendUpdate(d, before, after, pk).useTmp == d.useTmp
  {
  }

  /** Every step keeps the invariant. */
  lemma StepKeepsInv(s: Session, step: Step, cat: Catalog)
    requires BatchInv(s)
    ensures BatchInv(Apply(s, step, cat).s)
  {
    var cfg, ans := step.cfg, step.ans;
    hide EnterBatch, FlushTo, InsertSettled, UpdateSettled, DeleteSettled, ValidDelta, RunStatement, BatchInv;
    match step.op
    case Mark(t, w) => WriteSetsInv(s, s.writeSets[t := w]);
    case Insert(t, row, defaults) =>
      EnterBatchInv(s, true, cfg, ans.flush, cat);
      InsertInv(EnterBatch(s, true, cfg, ans.flush, cat).s, t, row, defaults, ans);
    case Update(t, before, after, injected) =>
      EnterBatchInv(s, false, cfg, ans.flush, cat);
      var e := EnterBatch(s, false, cfg, ans.flush, cat);
      if e.ok { UpdateInv(e.s, t, before, after, cfg, ans, cat); }
    case Delete(t, row) =>
      EnterBatchInv(s, false, cfg, ans.flush, cat);
      var e := EnterBatch(s, false, cfg, ans.flush, cat);
      if e.ok { DeleteInv(e.s, t, row, ans, cat); }
    case DeleteAll(t) =>
      DropInv(s, t);
      StatementInv(s.(deltas := s.deltas - {t}), t, multiset{}, ans);
    case Direct(t, effect) =>
      FlushInv(s, ans.flush, cat);
      var s1 := FlushTo(s, ans.flush, cat).s;
      StatementInv(s1, t, effect(TableOf(s1.work, t)), ans);
    case Scan(t) =>
      FlushInv(s, ans.flush, cat);
      var s1 := FlushTo(s, ans.flush, cat).s;
      WriteSetsInv(s1, s1.writeSets[t := All]);
  }

  lemma WriteSetsInv(s: Session, w: map<TableId, WriteSet>)
    ensures BatchInv(s.(writeSets := w)) <==> BatchInv(s)
  {
    hide ValidDelta;
  }

  lemma DropInv(s: Session, t: TableId)
    requires BatchInv(s)
    ensures BatchInv(s.(deltas := s.deltas - {t}))
  {
    hide ValidDelta;
  }

  /** It holds at the end of every run, legal or not and whatever fails. */
  lemma {:induction false} RunKeepsInv(s: Session, steps: seq<Step>, cat: Catalog)
    requires BatchInv(s)
    ensures BatchInv(Run(s, steps, cat))
  {
    hide BatchInv, Apply;
    if steps != [] {
      var init, last := steps[..|steps| - 1], steps[|steps| - 1];
      RunKeepsInv(s, init, cat);
      StepKeepsInv(Run(s, init, cat), last, cat);
    }
  }

  // ----- runs without faults -----

  predicate NoFault(ans: Answers) {
    ans.initOk && ans.markerOk && ans.rowOk && ans.statementOk && ans.flush.FlushOk?
  }

  predicate NoFaults(steps: seq<Step>) {
    forall i :: 0 <= i < |steps| ==> NoFault(steps[i].ans)
  }

  /** Nothing is pending outside a batch. */
  predicate Clean(s: Session) {
    s.batch.NotInBatch? || s.batch.Undefined? ==> s.deltas == map[]
  }

  lemma EnterBatchClean(s: Session, insertOnly: bool, cfg: Settings, cat: Catalog)
    requires Clean(s)
    ensures var e := EnterBatch(s, insertOnly, cfg, FlushOk, cat);
            e.ok && Clean(e.s) && !e.s.batch.Undefined? && (e.s.batch.InsertOnlyBatch? ==> insertOnly)
  {
    hide PartlyFlushed;
  }

  lemma InsertClean(s: Session, t: TableId, row: Row, defaults: Row, ans: Answers)
    requires Clean(s) && !s.batch.Undefined? && NoFault(ans)
    ensures var r := InsertSettled(s, t, row, defaults, ans); r.ok && Clean(r.s) && r.s.batch == s.batch
  {
    hide AppendInsert, FailedInsert, Overwrite;
  }

  lemma DeleteClean(s: Session, t: TableId, row: Row, ans: Answers, cat: Catalog)
    requires Clean(s) && !s.batch.Undefined? && NoFault(ans) && (s.batch.NotInBatch? || DeltaFor(s, t).useTmp)
    ensures var r := DeleteSettled(s, t, row, ans, cat); r.ok && Clean(r.s) && r.s.batch == s.batch
  {
    hide AppendDelete, FailedDelete;
  }

  lemma UpdateClean(s: Session, t: TableId, before: Row, after: Row, cfg: Settings, ans: Answers, cat: Catalog)
    requires Clean(s) && !s.batch.Undefined? && NoFault(ans) && (s.batch.NotInBatch? || DeltaFor(s, t).useTmp)
    ensures var r := UpdateSettled(s, t, before, after, cfg, ans, cat); r.ok && Clean(r.s) && r.s.batch == s.batch
  {
    hide AppendUpdate, FailedUpdate, UpdateRows, TableColumns;
  }

  lemma StepKeepsClean(s: Session, step: Step, cat: Catalog)
    requires Clean(s) && BatchInv(s) && NoFault(step.ans)
    ensures Clean(Apply(s, step, cat).s)
  {
    var cfg, ans := step.cfg, step.ans;
    hide EnterBatch, InsertSettled, UpdateSettled, DeleteSettled, PartlyFlushed, BatchInv;
    match step.op
    case Insert(t, row, defaults) =>
      EnterBatchClean(s, true, cfg, cat);
      InsertClean(EnterBatch(s, true, cfg, FlushOk, cat).s, t, row, defaults, ans);
    case Update(t, before, after, injected) =>
      EnterBatchClean(s, false, cfg, cat);
      EnterBatchInv(s, false, cfg, FlushOk, cat);
      UpdateClean(EnterBatch(s, false, cfg, FlushOk, cat).s, t, before, after, cfg, ans, cat);
    case Delete(t, row) =>
      EnterBatchClean(s, false, cfg, cat);
      EnterBatchInv(s, false, cfg, FlushOk, cat);
      DeleteClean(EnterBatch(s, false, cfg, FlushOk, cat).s, t, row, ans, cat);
    case _ =>
  }

  /** Only a failure leaves anything pending outside a batch. */
  lemma {:induction false} RunKeepsClean(s: Session, steps: seq<Step>, cat: Catalog)
    requires Clean(s) && BatchInv(s) && NoFaults(steps)
    ensures Clean(Run(s, steps, cat))
  {
    hide BatchInv, Apply, Clean;
    if steps != [] {
      var init, last := steps[..|steps| - 1], steps[|steps| - 1];
      RunKeepsClean(s, init, cat);
      RunKeepsInv(s, init, cat);
      StepKeepsClean(Run(s, init, cat), last, cat);
    }
  }

  // ----- what the settings decide -----

  /** With `dml_in_batch` off nothing is logged: row operations run as statements. */
  predicate OutOfBatch(s: Session) {
    (s.batch.Undefined? || s.batch.NotInBatch?) && s.deltas == map[]
  }

  lemma EntersNoBatch(s: Session, insertOnly: bool, cfg: Settings, flush: FlushAnswer, cat: Catalog)
    requires OutOfBatch(s) && !cfg.dmlInBatch
    ensures var e := EnterBatch(s, insertOnly, cfg, flush, cat); e.ok && e.s == s.(batch := NotInBatch)
  {
  }

  lemma StepStaysOut(s: Session, step: Step, cat: Catalog)
    requires OutOfBatch(s) && !step.cfg.dmlInBatch
    ensures OutOfBatch(Apply(s, step, cat).s)
  {
    EntersNoBatch(s, true, step.cfg, step.ans.flush, cat);
    EntersNoBatch(s, false, step.cfg, step.ans.flush, cat);
    hide EnterBatch, UpdateRows, Overwrite, PartlyFlushed, AbortedFlush;
    hide AppendInsert, AppendDelete, AppendUpdate, FailedInsert, FailedDelete, FailedUpdate;
  }

  /** Along every run with the variable off, whatever fails, no row is ever logged. */
  lemma {:induction false} OffMeansStatements(s: Session, steps: seq<Step>, cat: Catalog)
    requires OutOfBatch(s) && forall i :: 0 <= i < |steps| ==> !steps[i].cfg.dmlInBatch
    ensures OutOfBatch(Run(s, steps, cat))
  {
    hide Apply, OutOfBatch;
    if steps != [] {
      var init, last := steps[..|steps| - 1], steps[|steps| - 1];
      OffMeansStatements(s, init, cat);
      StepStaysOut(Run(s, init, cat), last, cat);
    }
  }

  /** With the variable on, the first row operation of a transaction is logged and leaves the tables
      alone: an insert in a direct appender, an update or delete in a temporary table. */
  lemma FirstRowIsLogged(s: Session, step: Step, cat: Catalog)
    requires s.batch.Undefined? && s.deltas == map[] && step.cfg.dmlInBatch && NoFault(step.ans)
    requires step.op.Insert? || step.op.Delete? || (step.op.Update? && !step.op.injected)
    ensures var r := Apply(s, step, cat);
            && r.ok && r.s.work == s.work && r.s.deltas.Keys == {step.op.t}
            && (r.s.deltas[step.op.t].useTmp <==> !step.op.Insert?)
            && |r.s.deltas[step.op.t].log| == if step.op.Update? then 2 else 1
  {
  }
}
