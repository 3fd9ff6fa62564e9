/** Row operations of one transaction.  The session is what a connection knows inside it: its
    batch state, one delta per touched table, the write set of each open table, and the tables
    as the DuckDB transaction sees them.  What DuckDB answers is part of every step, so failed
    appends, statements and flushes are steps like any other; a DuckDB call that fails has no
    effect of its own. */
module BatchSession {
  import opened Tables
  import opened DeltaLog
  import opened PendingLogs
  import RowDifference

  datatype BatchState = Undefined | NotInBatch | InsertOnlyBatch | MixBatch

  /** `table->write_set`: the columns that INSERT and UPDATE statements name. */
  datatype WriteSet = All | Only(cols: set<nat>)

  datatype Session = Session(batch: BatchState, deltas: map<TableId, Delta>,
                             writeSets: map<TableId, WriteSet>, work: Database)

  /** Server variables an operation reads; they may change between operations. */
  datatype Settings = Settings(dmlInBatch: bool, modifiedColumnsOnly: bool)

  /** A flush of all tables succeeds, or stops at one table with those of `done` flushed. */
  datatype FlushAnswer = FlushOk | StopsAt(done: set<TableId>, at: TableId, point: FlushPoint)

  /** What DuckDB answers: creating an appender, appending a delete marker, appending a row,
      running a statement, flushing. */
  datatype Answers = Answers(initOk: bool, markerOk: bool, rowOk: bool, statementOk: bool, flush: FlushAnswer)

  /** `Mark` is the server setting a table's write set; `Insert` carries the defaults DuckDB fills
      into columns a statement leaves out; an injected update comes from a row event. */
  datatype Op =
    | Mark(t: TableId, w: WriteSet)
    | Insert(t: TableId, row: Row, defaults: Row)
    | Update(t: TableId, before: Row, after: Row, injected: bool)
    | Delete(t: TableId, row: Row)
    | DeleteAll(t: TableId)
    | Direct(t: TableId, effect: Table -> Table)
    | Scan(t: TableId)

  datatype Step = Step(op: Op, cfg: Settings, ans: Answers)

  /** The session after a step, and whether the server was told that it succeeded. */
  datatype Result = Result(s: Session, ok: bool)

  // ----- flushing -----

  /** A table as it will be once its pending delta is flushed. */
  ghost function Visible(s: Session, t: TableId, cat: Catalog): Table {
    if t in s.deltas then Flushed(TableOf(s.work, t), s.deltas[t], cat(t)) else TableOf(s.work, t)
  }

  /** The tables when the deltas of `done` have been flushed and the others not. */
  ghost function PartlyFlushed(s: Session, done: set<TableId>, cat: Catalog): Database {
    map t | t in s.work.Keys + done :: if t in done then Visible(s, t, cat) else TableOf(s.work, t)
  }

  /** Every delta reaches its table and the batch ends. */
  ghost function FlushAll(s: Session, cat: Catalog): Session {
    s.(batch := Undefined, deltas := map[], work := PartlyFlushed(s, s.deltas.Keys, cat))
  }

  /** The appender of a flushed table is still cached, with an empty log and its flags. */
  function Emptied(d: Delta): Delta {
    d.(log := [])
  }

  /** A flush that stopped at one table: those before it are done, the batch goes on. */
  ghost function AbortedFlush(s: Session, done: set<TableId>, at: TableId, point: FlushPoint, cat: Catalog): Session
    requires at in s.deltas
  {
    s.(deltas := map t | t in s.deltas :: if t in done then Emptied(s.deltas[t]) else s.deltas[t],
       work := PartlyFlushed(s, done, cat)[at := FailedFlush(TableOf(s.work, at), s.deltas[at], point, cat(at))])
  }

  /** The flush meets a table it stops at. */
  predicate Stopped(s: Session, flush: FlushAnswer) {
    flush.StopsAt? && flush.at in s.deltas && flush.at !in flush.done && flush.done <= s.deltas.Keys
  }

  /** `flush_appenders`. */
  ghost function FlushTo(s: Session, flush: FlushAnswer, cat: Catalog): Result {
    if Stopped(s, flush) then Result(AbortedFlush(s, flush.done, flush.at, flush.point, cat), false)
    else Result(FlushAll(s, cat), true)
  }

  // ----- row operations -----

  /** `get_batch_state`. */
  ghost function EnterBatch(s: Session, insertOnly: bool, cfg: Settings, flush: FlushAnswer, cat: Catalog): Result {
    var r := if s.batch.InsertOnlyBatch? && !insertOnly then FlushTo(s, flush, cat) else Result(s, true);
    if !r.ok || !r.s.batch.Undefined? then r
    else
      var batch := if !cfg.dmlInBatch then NotInBatch else if insertOnly then InsertOnlyBatch else MixBatch;
      Result(r.s.(batch := batch), true)
  }

  /** `get_appender`: the table's delta, or a new one of the kind the batch calls for. */
  function DeltaFor(s: Session, t: TableId): Delta {
    if t in s.deltas then s.deltas[t] else EmptyDelta(!s.batch.InsertOnlyBatch?)
  }

  /** An appender is there or can be made. */
  predicate HasAppender(s: Session, t: TableId, ans: Answers) {
    !s.batch.NotInBatch? && (t in s.deltas || ans.initOk)
  }

  function WithDelta(s: Session, t: TableId, d: Delta): Session {
    s.(deltas := s.deltas[t := d])
  }

  /** An append has failed, leaving `d`: the batch ends without a flush. */
  function FallBack(s: Session, t: TableId, d: Delta, ans: Answers): Session {
    if HasAppender(s, t, ans) then WithDelta(s, t, d).(batch := NotInBatch) else s.(batch := NotInBatch)
  }

  /** Run a statement that leaves `image` of the table. */
  function RunStatement(s: Session, t: TableId, image: Table, ans: Answers): Result {
    Result(if ans.statementOk then s.(work := s.work[t := image]) else s, ans.statementOk)
  }

  function WriteSetOf(s: Session, t: TableId): WriteSet {
    if t in s.writeSets then s.writeSets[t] else Only({})
  }

  function Columns(w: WriteSet, row: Row): set<nat> {
    if w.All? then AllColumns(row) else w.cols
  }

  function TableColumns(s: Session, t: TableId, row: Row): set<nat> {
    Columns(WriteSetOf(s, t), row)
  }

  /** `update_row` narrows the write set to the columns found changed, and leaves it narrowed. */
  function Narrow(s: Session, t: TableId, before: Row, after: Row, cfg: Settings): Session {
    var flagged := RowDifference.Flagged(before, after);
    if cfg.modifiedColumnsOnly && flagged != {} then s.(writeSets := s.writeSets[t := Only(flagged)]) else s
  }

  /** A row event is refused unless its after-image has every column. */
  predicate Rejected(s: Session, t: TableId, after: Row, injected: bool) {
    injected && !(AllColumns(after) <= TableColumns(s, t, after))
  }

  ghost function InsertSettled(s: Session, t: TableId, row: Row, defaults: Row, ans: Answers): Result {
    var d, image := DeltaFor(s, t), TableOf(s.work, t) + multiset{Overwrite(defaults, row, TableColumns(s, t, row))};
    if s.batch.NotInBatch? then RunStatement(s, t, image, ans)
    else if HasAppender(s, t, ans) && ans.rowOk then Result(WithDelta(s, t, AppendInsert(d, row)), true)
    else RunStatement(FallBack(s, t, FailedInsert(d), ans), t, image, ans)
  }

  /** `write_row`. */
  ghost function WriteRow(s: Session, t: TableId, row: Row, defaults: Row, cfg: Settings, ans: Answers,
                          cat: Catalog): Result {
    InsertSettled(EnterBatch(s, true, cfg, ans.flush, cat).s, t, row, defaults, ans)
  }

  ghost function UpdateSettled(s: Session, t: TableId, before: Row, after: Row, cfg: Settings, ans: Answers,
                               cat: Catalog): Result {
    var d, k, pk := DeltaFor(s, t), KeyOf(before, cat(t)), cat(t);
    if s.batch.NotInBatch? then
      var s1 := Narrow(s, t, before, after, cfg);
      RunStatement(s1, t, UpdateRows(TableOf(s.work, t), k, after, TableColumns(s1, t, after), pk), ans)
    else if HasAppender(s, t, ans) && d.useTmp && ans.markerOk && ans.rowOk then
      Result(WithDelta(s, t, AppendUpdate(d, before, after, pk)), true)
    else
      RunStatement(FallBack(s, t, FailedUpdate(d, before, ans.markerOk, pk), ans), t,
                   UpdateRows(TableOf(s.work, t), k, after, TableColumns(s, t, after), pk), ans)
  }

  /** `update_row`. */
  ghost function UpdateRow(s: Session, t: TableId, before: Row, after: Row, injected: bool,
                           cfg: Settings, ans: Answers, cat: Catalog): Result {
    if Rejected(s, t, after, injected) then Result(s, false)
    else
      var e := EnterBatch(s, false, cfg, ans.flush, cat);
      if !e.ok then e else UpdateSettled(e.s, t, before, after, cfg, ans, cat)
  }

  ghost function DeleteSettled(s: Session, t: TableId, row: Row, ans: Answers, cat: Catalog): Result {
    var d, image := DeltaFor(s, t), DeleteKeys(TableOf(s.work, t), {KeyOf(row, cat(t))}, cat(t));
    if s.batch.NotInBatch? then RunStatement(s, t, image, ans)
    else if HasAppender(s, t, ans) && d.useTmp && ans.markerOk then
      Result(WithDelta(s, t, AppendDelete(d, row, cat(t))), true)
    else RunStatement(FallBack(s, t, FailedDelete(d), ans), t, image, ans)
  }

  /** `delete_row`. */
  ghost function DeleteRow(s: Session, t: TableId, row: Row, cfg: Settings, ans: Answers, cat: Catalog): Result {
    var e := EnterBatch(s, false, cfg, ans.flush, cat);
    if !e.ok then e else DeleteSettled(e.s, t, row, ans, cat)
  }

  /** `delete_all_rows` drops the pending delta, then empties the table. */
  function DeleteAllRows(s: Session, t: TableId, ans: Answers): Result {
    RunStatement(s.(deltas := s.deltas - {t}), t, multiset{}, ans)
  }

  /** A pushed-down UPDATE or DELETE: flush, then run the statement on the whole table. */
  ghost function DirectStatement(s: Session, t: TableId, effect: Table -> Table, ans: Answers, cat: Catalog): Result {
    var r := FlushTo(s, ans.flush, cat);
    if !r.ok then r else RunStatement(r.s, t, effect(TableOf(r.s.work, t)), ans)
  }

  /** `rnd_init`: flush, run the SELECT, widen the write set to every column. */
  ghost function ScanInit(s: Session, t: TableId, ans: Answers, cat: Catalog): Result {
    var r := FlushTo(s, ans.flush, cat);
    if !r.ok || !ans.statementOk then Result(r.s, false)
    else Result(r.s.(writeSets := r.s.writeSets[t := All]), true)
  }

  ghost function Apply(s: Session, step: Step, cat: Catalog): Result {
    var cfg, ans := step.cfg, step.ans;
    match step.op
    case Mark(t, w) => Result(s.(writeSets := s.writeSets[t := w]), true)
    case Insert(t, row, defaults) => WriteRow(s, t, row, defaults, cfg, ans, cat)
    case Update(t, before, after, injected) => UpdateRow(s, t, before, after, injected, cfg, ans, cat)
    case Delete(t, row) => DeleteRow(s, t, row, cfg, ans, cat)
    case DeleteAll(t) => DeleteAllRows(s, t, ans)
    case Direct(t, effect) => DirectStatement(s, t, effect, ans, cat)
    case Scan(t) => ScanInit(s, t, ans, cat)
  }

  ghost function Run(s: Session, steps: seq<Step>, cat: Catalog): Session {
    if steps == [] then s else Apply(Run(s, steps[..|steps| - 1], cat), steps[|steps| - 1], cat).s
  }

  // ----- the reference: one statement per row -----

  ghost function ApplyRowByRow(db: Database, op: Op, cat: Catalog): Database {
    match op
    case Mark(_, _) => db
    case Insert(t, row, _) => db[t := TableOf(db, t) + multiset{row}]
    case Update(t, before, after, _) =>
      db[t := UpdateRows(TableOf(db, t), KeyOf(before, cat(t)), after, AllColumns(after), cat(t))]
    case Delete(t, row) => db[t := DeleteKeys(TableOf(db, t), {KeyOf(row, cat(t))}, cat(t))]
    case DeleteAll(t) => db[t := multiset{}]
    case Direct(t, effect) => db[t := effect(TableOf(db, t))]
    case Scan(_) => db
  }

  /** An operation that succeeded has happened; one that was reported failed has not. */
  ghost function Reference(s: Session, db: Database, step: Step, cat: Catalog): Database {
    if Apply(s, step, cat).ok then ApplyRowByRow(db, step.op, cat) else db
  }

  ghost function RunReference(s: Session, db: Database, steps: seq<Step>, cat: Catalog): Database {
    if steps == [] then db
    else
      var init, n := steps[..|steps| - 1], |steps| - 1;
      Reference(Run(s, init, cat), RunReference(s, db, init, cat), steps[n], cat)
  }

  /** The operation respects the primary key.  For updates and deletes that found their row this is
      so; that inserts bring new keys, and updates free ones, is an assumption, since neither DuckDB
      nor the handler checks it. */
  ghost predicate Legal(db: Database, op: Op, cat: Catalog) {
    match op
    case Insert(t, row, _) =>
      NoNull(KeyOf(row, cat(t))) && !HasKey(TableOf(db, t), KeyOf(row, cat(t)), cat(t))
    case Update(t, before, after, _) => |before| == |after| && LegalChange(TableOf(db, t), before, after, cat(t))
    case Delete(t, row) => NoNull(KeyOf(row, cat(t)))
    case Direct(t, effect) => UniqueKeys(effect(TableOf(db, t)), cat(t))
    case _ => true
  }

  // ----- what every operation keeps -----

  /** Every delta is valid; none is there before a batch, an insert-only batch has direct
      appenders, a mixed batch temporary tables.  After a failed append there may be any. */
  ghost predicate BatchInv(s: Session) {
    && (s.batch.Undefined? ==> s.deltas == map[])
    && (forall t :: t in s.deltas ==> ValidDelta(s.deltas[t]))
    && (s.batch.InsertOnlyBatch? ==> forall t :: t in s.deltas ==> !s.deltas[t].useTmp)
    && (s.batch.MixBatch? ==> forall t :: t in s.deltas ==> s.deltas[t].useTmp)
  }

  ghost predicate Refines(s: Session, db: Database, cat: Catalog) {
    forall t :: Visible(s, t, cat) == TableOf(db, t)
  }

  ghost predicate UniqueDb(db: Database, cat: Catalog) {
    forall t :: UniqueKeys(TableOf(db, t), cat(t))
  }

  // ----- when a step refines the reference -----

  /** What is pending on a table, nothing if there is no appender. */
  function PendingOn(s: Session, t: TableId): Delta {
    if t in s.deltas then s.deltas[t] else EmptyDelta(true)
  }

  predicate StopSound(s: Session, flush: FlushAnswer) {
    Stopped(s, flush) ==> RetrySafe(s.deltas[flush.at], flush.point)
  }

  ghost predicate InsertSound(s: Session, t: TableId, row: Row, defaults: Row, ans: Answers, cat: Catalog) {
    var d := PendingOn(s, t);
    || (HasAppender(s, t, ans) && ans.rowOk)
    || !ans.statementOk
    || (&& Covers(TableColumns(s, t, row), defaults, row)
        && !(d.hasDelete && KeyOf(row, cat(t)) in LogKeys(d.log, cat(t))))
  }

  ghost predicate DeleteSound(s: Session, t: TableId, row: Row, ans: Answers, cat: Catalog) {
    || (HasAppender(s, t, ans) && ans.markerOk)
    || !ans.statementOk
    || !LastIsLive(PendingOn(s, t).log, KeyOf(row, cat(t)), cat(t))
  }

  ghost predicate UpdateSound(s: Session, t: TableId, before: Row, after: Row, cfg: Settings, ans: Answers,
                              cat: Catalog) {
    var pk, b, a, logged := cat(t), KeyOf(before, cat(t)), KeyOf(after, cat(t)), LogKeys(PendingOn(s, t).log, cat(t));
    if HasAppender(s, t, ans) && ans.markerOk then
      || ans.rowOk
      || (&& ans.statementOk && a != b && a !in logged
          && exists y :: y in TableOf(s.work, t) && KeyOf(y, pk) == b && Covers(TableColumns(s, t, after), y, after))
    else
      var s1 := if s.batch.NotInBatch? then Narrow(s, t, before, after, cfg) else s;
      || !ans.statementOk
      || before == after
      || (Covers(TableColumns(s1, t, after), before, after) && b !in logged && a !in logged)
  }

  /** The exact condition under which a step leaves the visible tables as the reference has them. */
  ghost predicate Sound(s: Session, step: Step, cat: Catalog) {
    var cfg, ans := step.cfg, step.ans;
    match step.op
    case Mark(_, _) => true
    case Insert(t, row, defaults) =>
      InsertSound(EnterBatch(s, true, cfg, ans.flush, cat).s, t, row, defaults, ans, cat)
    case Update(t, before, after, injected) =>
      var e := EnterBatch(s, false, cfg, ans.flush, cat);
      || Rejected(s, t, after, injected)
      || (if e.ok then UpdateSound(e.s, t, before, after, cfg, ans, cat) else StopSound(s, ans.flush))
    case Delete(t, row) =>
      var e := EnterBatch(s, false, cfg, ans.flush, cat);
      if e.ok then DeleteSound(e.s, t, row, ans, cat) else StopSound(s, ans.flush)
    case DeleteAll(t) =>
      ans.statementOk || (t in s.deltas ==> Ineffective(TableOf(s.work, t), s.deltas[t], cat(t)))
    case Direct(_, _) => StopSound(s, ans.flush)
    case Scan(_) => StopSound(s, ans.flush)
  }
}
