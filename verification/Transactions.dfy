/** Transaction ends.  DuckDB's own BEGIN, COMMIT and ROLLBACK are atomic on a snapshot;
    what is at stake is the order in which the engine flushes, commits, discards and
    rolls back, when any of those steps, and any row operation before them, may fail. */
module Transactions {
  import opened Tables
  import opened DeltaLog
  import opened BatchSession
  import opened BatchInvariant
  import opened BatchRefinement
  import opened WriteSets

  /** `EndStatement` is the commit or rollback of one statement inside a transaction. */
  datatype Event =
    | Dml(step: Step, beginOk: bool)
    | EndStatement
    | Prepare(flush: FlushAnswer)
    | Commit(flush: FlushAnswer, commitOk: bool, rollbackOk: bool)
    | Rollback(rollbackOk: bool)

  /** One connection: the committed tables, whether a DuckDB transaction is open, its session,
      and whether a rollback is due because a prepare or a rollback failed. */
  datatype Conn = Conn(committed: Database, active: bool, s: Session, failed: bool)

  /** Outside a transaction only the write sets of the open tables are left. */
  function Idle(writeSets: map<TableId, WriteSet>): Session {
    Session(Undefined, map[], writeSets, map[])
  }

  /** `duckdb_register_trx`: BEGIN takes a snapshot unless a transaction is open. */
  function Begin(c: Conn): Conn {
    if c.active then c else c.(active := true, s := c.s.(work := c.committed))
  }

  /** A scan does not register the transaction, and a refused row event is refused before. */
  predicate Registers(s: Session, op: Op) {
    && !op.Mark? && !op.Scan?
    && (op.Update? ==> !Rejected(s, op.t, op.after, op.injected))
  }

  /** The operation ends with the BEGIN that failed. */
  predicate NotBegun(c: Conn, op: Op, beginOk: bool) {
    Registers(c.s, op) && !c.active && !beginOk
  }

  /** `duckdb_trans_rollback`: the appenders go first, whatever DuckDB answers. */
  function TransRollback(c: Conn, ok: bool): Conn {
    var c1 := c.(s := c.s.(deltas := map[]));
    if !c.active || ok then c1.(active := false, s := Idle(c.s.writeSets), failed := false) else c1.(failed := true)
  }

  /** `duckdb_trans_commit` on a flushed session, with the rollback that follows a failure. */
  function TransCommit(c: Conn, commitOk: bool, rollbackOk: bool): Conn {
    if !c.active then c.(s := c.s.(batch := Undefined))
    else if commitOk then Conn(c.s.work, false, Idle(c.s.writeSets), false)
    else TransRollback(c, rollbackOk)
  }

  ghost function Next(c: Conn, e: Event, cat: Catalog): Conn {
    match e
    case Dml(step, beginOk) =>
      if NotBegun(c, step.op, beginOk) then c
      else
        var c1 := if Registers(c.s, step.op) then Begin(c) else c;
        c1.(s := Apply(c1.s, step, cat).s)
    case EndStatement => c
    case Prepare(flush) =>
      var f := FlushTo(c.s, flush, cat);
      c.(s := f.s, failed := c.failed || !f.ok)
    case Commit(flush, commitOk, rollbackOk) =>
      var f := FlushTo(c.s, flush, cat);
      if f.ok then TransCommit(c.(s := f.s), commitOk, rollbackOk) else TransRollback(c.(s := f.s), rollbackOk)
    case Rollback(ok) => TransRollback(c, ok)
  }

  ghost function RunEvents(c: Conn, es: seq<Event>, cat: Catalog): Conn {
    if es == [] then c else Next(RunEvents(c, es[..|es| - 1], cat), es[|es| - 1], cat)
  }

  // ----- the reference: a transaction publishes all of its operations or none -----

  datatype Ref = Ref(committed: Database, work: Database)

  /** What the connection shows next: its session, or the committed tables when idle. */
  function Current(c: Conn): Session {
    Begin(c).s
  }

  /** The flush and the COMMIT succeed. */
  predicate Publishes(c: Conn, e: Event) {
    e.Commit? && e.commitOk && !Stopped(c.s, e.flush)
  }

  /** A transaction that has failed publishes nothing, whatever is run in it. */
  ghost function RefNext(c: Conn, r: Ref, e: Event, cat: Catalog): Ref {
    match e
    case Dml(step, beginOk) =>
      if c.failed || NotBegun(c, step.op, beginOk) then r
      else r.(work := Reference(Current(c), r.work, step, cat))
    case EndStatement => r
    case Prepare(flush) => if Stopped(c.s, flush) then Ref(r.committed, r.committed) else r
    case Commit(_, _, _) =>
      if Publishes(c, e) && !c.failed then Ref(r.work, r.work) else Ref(r.committed, r.committed)
    case Rollback(_) => Ref(r.committed, r.committed)
  }

  ghost function RefRun(c: Conn, r: Ref, es: seq<Event>, cat: Catalog): Ref {
    if es == [] then r
    else
      var init, n := es[..|es| - 1], |es| - 1;
      RefNext(RunEvents(c, init, cat), RefRun(c, r, init, cat), es[n], cat)
  }

  ghost predicate SameTables(a: Database, b: Database) {
    forall t :: TableOf(a, t) == TableOf(b, t)
  }

  /** The committed tables are the reference's; and unless a rollback is due, so is what the
      connection shows. */
  ghost predicate ConnInv(c: Conn, r: Ref, cat: Catalog) {
    && SameTables(c.committed, r.committed) && BatchInv(c.s)
    && UniqueDb(r.committed, cat) && UniqueDb(r.work, cat)
    && (c.failed ==> c.active && SameTables(r.work, r.committed))
    && (!c.active ==> c.s.deltas == map[])
    && (!c.failed ==> Refines(Current(c), r.work, cat) && UniqueDb(Current(c).work, cat))
  }

  /** Row operations respect the keys. */
  ghost predicate EventOk(c: Conn, r: Ref, e: Event, cat: Catalog) {
    e.Dml? && !c.failed ==> Legal(r.work, e.step.op, cat)
  }

  /** The exact condition on an event: a row operation is sound; and a transaction whose rollback is
      due is not committed, unless it shows nothing new. */
  ghost predicate SoundEvent(c: Conn, e: Event, cat: Catalog) {
    && (e.Dml? ==> c.failed || NotBegun(c, e.step.op, e.beginOk) || Sound(Current(c), e.step, cat))
    && (c.failed && Publishes(c, e) ==> Refines(c.s, c.committed, cat))
  }

  lemma NoDeltasRefines(s: Session, db: Database, cat: Catalog)
    requires s.deltas == map[]
    ensures Refines(s, db, cat) <==> SameTables(s.work, db)
  {
    assert forall t :: Visible(s, t, cat) == TableOf(s.work, t);
  }

  /** A connection with nothing pending, and what it shows. */
  lemma QuietConn(c: Conn, r: Ref, cat: Catalog)
    requires c.s.deltas == map[] && !c.failed && SameTables(c.committed, r.committed)
    requires UniqueDb(r.committed, cat) && UniqueDb(r.work, cat) && SameTables(Current(c).work, r.work)
    ensures ConnInv(c, r, cat)
  {
    NoDeltasRefines(Current(c), r.work, cat);
    WorkIsVisible(Current(c), r.work, cat);
  }

  lemma RollbackRefines(c: Conn, ok: bool, r: Ref, cat: Catalog)
    requires SameTables(c.committed, r.committed) && UniqueDb(r.committed, cat)
    ensures ConnInv(TransRollback(c, ok), Ref(r.committed, r.committed), cat)
  {
    hide UniqueDb;
    if !c.active || ok { QuietConn(TransRollback(c, ok), Ref(r.committed, r.committed), cat); }
  }

  /** Outside a transaction a flush finds nothing. */
  lemma IdleFlush(c: Conn, flush: FlushAnswer, r: Ref, cat: Catalog)
    requires ConnInv(c, r, cat) && !c.active
    ensures var f := FlushTo(c.s, flush, cat);
            f.ok && f.s.deltas == map[] && f.s.batch == Undefined && ConnInv(c.(s := f.s), r, cat)
  {
    NoDeltasRefines(Current(c), r.work, cat);
    hide UniqueDb, BatchInv;
    QuietConn(c.(s := FlushTo(c.s, flush, cat).s), r, cat);
  }

  lemma FlushedConn(c: Conn, flush: FlushAnswer, r: Ref, cat: Catalog)
    requires ConnInv(c, r, cat) && !c.failed && !Stopped(c.s, flush)
    ensures var f := FlushTo(c.s, flush, cat);
            f.ok && f.s.deltas == map[] && ConnInv(c.(s := f.s), r, cat)
  {
    if c.active {
      FlushRefines(c.s, flush, r.work, cat);
      FlushInv(c.s, flush, cat);
      FlushWork(c.s, flush, r.work, cat);
      hide BatchInv, Refines, UniqueDb, PartlyFlushed;
    } else {
      hide BatchInv, Refines, UniqueDb, FlushTo;
      IdleFlush(c, flush, r, cat);
    }
  }

  /** The session an operation runs on keeps its invariant, transaction or not. */
  lemma DmlInv(c: Conn, step: Step, beginOk: bool, cat: Catalog)
    requires BatchInv(c.s)
    ensures BatchInv(Next(c, Dml(step, beginOk), cat).s) && BatchInv(Current(c))
  {
    assert BatchInv(Current(c)) by { hide ValidDelta; }
    hide BatchInv;
    StepKeepsInv(c.s, step, cat);
    StepKeepsInv(Current(c), step, cat);
    hide Apply;
  }

  lemma DmlRefines(c: Conn, r: Ref, step: Step, beginOk: bool, cat: Catalog)
    requires ConnInv(c, r, cat) && EventOk(c, r, Dml(step, beginOk), cat) && !c.failed
    requires !NotBegun(c, step.op, beginOk) && (c.active || Registers(c.s, step.op))
    ensures var e := Dml(step, beginOk);
            ConnInv(Next(c, e, cat), RefNext(c, r, e, cat), cat) <==> Sound(Current(c), step, cat)
  {
    var s, e := Current(c), Dml(step, beginOk);
    DmlInv(c, step, beginOk, cat);
    hide BatchInv, Refines, UniqueDb, Sound, Legal, SameTables, Apply, ApplyRowByRow;
    assert Next(c, e, cat) == Begin(c).(s := Apply(s, step, cat).s);
    assert RefNext(c, r, e, cat) == r.(work := Reference(s, r.work, step, cat));
    hide Next, RefNext, NotBegun, Registers;
    RowByRowKeepsUnique(r.work, step.op, cat);
    assert UniqueDb(Reference(s, r.work, step, cat), cat);
    hide Reference;
    StepRefines(s, step, r.work, cat);
    if Sound(s, step, cat) { StepKeepsWork(s, step, r.work, cat); }
  }

  /** An operation that opens no transaction leaves an idle connection as it was. */
  lemma IdleDml(c: Conn, r: Ref, step: Step, beginOk: bool, cat: Catalog)
    requires ConnInv(c, r, cat) && !c.active && !c.failed && !Registers(c.s, step.op)
    ensures Sound(Current(c), step, cat) && Reference(Current(c), r.work, step, cat) == r.work
    ensures ConnInv(Next(c, Dml(step, beginOk), cat), r, cat)
  {
    NoDeltasRefines(Current(c), r.work, cat);
    hide UniqueDb, BatchInv;
    QuietConn(Next(c, Dml(step, beginOk), cat), r, cat);
  }

  /** Every event moves the connection and the all-or-nothing reference alike, exactly when it is
      sound. */
  lemma NextRefines(c: Conn, r: Ref, e: Event, cat: Catalog)
    requires ConnInv(c, r, cat) && EventOk(c, r, e, cat)
    ensures ConnInv(Next(c, e, cat), RefNext(c, r, e, cat), cat) <==> SoundEvent(c, e, cat)
  {
    match e
    case Dml(step, beginOk) =>
      if c.failed {
        DmlInv(c, step, beginOk, cat);
        hide BatchInv, Refines, UniqueDb, Apply;
      } else if NotBegun(c, step.op, beginOk) {
      } else if c.active || Registers(c.s, step.op) {
        hide ConnInv, Next, RefNext, Sound, EventOk;
        DmlRefines(c, r, step, beginOk, cat);
      } else {
        hide ConnInv, Next, Sound, EventOk;
        IdleDml(c, r, step, beginOk, cat);
      }
    case EndStatement =>
    case Prepare(flush) => PrepareRefines(c, r, flush, cat);
    case Commit(flush, commitOk, rollbackOk) => CommitRefines(c, r, flush, commitOk, rollbackOk, cat);
    case Rollback(ok) => RollbackRefines(c, ok, r, cat);
  }

  lemma PrepareRefines(c: Conn, r: Ref, flush: FlushAnswer, cat: Catalog)
    requires ConnInv(c, r, cat)
    ensures ConnInv(Next(c, Prepare(flush), cat), RefNext(c, r, Prepare(flush), cat), cat)
  {
    FlushInv(c.s, flush, cat);
    if c.failed || Stopped(c.s, flush) {
      hide BatchInv, Refines, UniqueDb, PartlyFlushed, AbortedFlush;
    } else {
      hide ConnInv, FlushTo;
      FlushedConn(c, flush, r, cat);
    }
  }

  lemma CommitRefines(c: Conn, r: Ref, flush: FlushAnswer, commitOk: bool, rollbackOk: bool, cat: Catalog)
    requires ConnInv(c, r, cat)
    ensures var e := Commit(flush, commitOk, rollbackOk);
            ConnInv(Next(c, e, cat), RefNext(c, r, e, cat), cat) <==> SoundEvent(c, e, cat)
  {
    var e, c1 := Commit(flush, commitOk, rollbackOk), c.(s := FlushTo(c.s, flush, cat).s);
    if Stopped(c.s, flush) {
      hide UniqueDb, BatchInv, Refines;
      RollbackRefines(c1, rollbackOk, r, cat);
    } else if c.failed {
      FailedCommit(c, r, flush, commitOk, rollbackOk, cat);
    } else {
      FlushedConn(c, flush, r, cat);
      NoDeltasRefines(Current(c1), r.work, cat);
      hide UniqueDb, BatchInv, Refines, FlushTo;
      if c.active && !commitOk {
        RollbackRefines(c1, rollbackOk, r, cat);
      } else {
        QuietConn(Next(c, e, cat), RefNext(c, r, e, cat), cat);
      }
    }
  }

  /** Committing a transaction whose rollback failed publishes what it shows. */
  lemma FailedCommit(c: Conn, r: Ref, flush: FlushAnswer, commitOk: bool, rollbackOk: bool, cat: Catalog)
    requires ConnInv(c, r, cat) && c.failed && !Stopped(c.s, flush)
    ensures var e := Commit(flush, commitOk, rollbackOk);
            ConnInv(Next(c, e, cat), RefNext(c, r, e, cat), cat) <==> SoundEvent(c, e, cat)
  {
    var e, s1 := Commit(flush, commitOk, rollbackOk), FlushTo(c.s, flush, cat).s;
    FlushShows(c.s, c.committed, cat);
    hide UniqueDb, BatchInv, PartlyFlushed, Refines;
    if !commitOk {
      RollbackRefines(c.(s := s1), rollbackOk, r, cat);
    } else {
      var c1 := Conn(s1.work, false, Idle(s1.writeSets), false);
      assert Next(c, e, cat) == c1 && RefNext(c, r, e, cat) == Ref(r.committed, r.committed);
      hide Next, RefNext, FlushTo, FlushAll;
      if SameTables(s1.work, c.committed) { QuietConn(c1, Ref(r.committed, r.committed), cat); }
    }
  }

  lemma FlushShows(s: Session, db: Database, cat: Catalog)
    ensures Refines(s, db, cat) <==> SameTables(FlushAll(s, cat).work, db)
  {
    hide Flushed;
    forall t ensures Visible(s, t, cat) == TableOf(FlushAll(s, cat).work, t) {
    }
  }

  // ----- what transaction ends publish and show -----

  /** A COMMIT whose flush and statement succeed publishes what the transaction shows, table by
      table; any other leaves the committed tables alone, and so does every other event. */
  lemma OnlyCommitPublishes(c: Conn, e: Event, t: TableId, cat: Catalog)
    requires !c.active ==> c.s.deltas == map[]
    ensures var c1 := Next(c, e, cat);
            if e.Commit? && c.active && e.commitOk && FlushTo(c.s, e.flush, cat).ok
            then TableOf(c1.committed, t) == Visible(c.s, t, cat) && !c1.active
            else c1.committed == c.committed
  {
    hide Flushed, AbortedFlush, Apply;
  }

  /** A rollback that succeeds, and a commit that does not but rolls back, shows the committed tables
      again with nothing pending. */
  lemma RollbackShowsCommitted(c: Conn, e: Event, t: TableId, cat: Catalog)
    requires e.Rollback? || (e.Commit? && c.active && !(e.commitOk && FlushTo(c.s, e.flush, cat).ok))
    requires e.rollbackOk
    ensures var c1 := Next(c, e, cat);
            !c1.active && !c1.failed && c1.s.deltas == map[] && Visible(Current(c1), t, cat) == TableOf(c.committed, t)
  {
    hide Flushed, AbortedFlush, PartlyFlushed;
  }

  // ----- whole histories -----

  ghost predicate LegalEvents(c: Conn, r: Ref, es: seq<Event>, cat: Catalog) {
    es == [] ||
    var init, last := es[..|es| - 1], es[|es| - 1];
    LegalEvents(c, r, init, cat) && EventOk(RunEvents(c, init, cat), RefRun(c, r, init, cat), last, cat)
  }

  ghost predicate SoundEvents(c: Conn, es: seq<Event>, cat: Catalog) {
    es == [] ||
    var init, last := es[..|es| - 1], es[|es| - 1];
    SoundEvents(c, init, cat) && SoundEvent(RunEvents(c, init, cat), last, cat)
  }

  ghost predicate InvThroughout(c: Conn, r: Ref, es: seq<Event>, cat: Catalog) {
    && ConnInv(RunEvents(c, es, cat), RefRun(c, r, es, cat), cat)
    && (es == [] || InvThroughout(c, r, es[..|es| - 1], cat))
  }

  /** Every transaction is all-or-nothing.  After any sequence of row operations, statement ends,
      prepares, commits and rollbacks, each of which may fail, the committed tables are the fold of
      the successful operations of every transaction whose flush and COMMIT both succeeded, and of
      no other, and an open transaction shows its own; at every point, if and only if every event
      was sound. */
  lemma {:induction false} TransactionsAreAllOrNothing(c: Conn, r: Ref, es: seq<Event>, cat: Catalog)
    requires ConnInv(c, r, cat) && LegalEvents(c, r, es, cat)
    ensures InvThroughout(c, r, es, cat) <==> SoundEvents(c, es, cat)
  {
    hide ConnInv, EventOk, Next, RefNext, SoundEvent;
    if es != [] {
      var init, last := es[..|es| - 1], es[|es| - 1];
      TransactionsAreAllOrNothing(c, r, init, cat);
      if SoundEvents(c, init, cat) {
        NextRefines(RunEvents(c, init, cat), RefRun(c, r, init, cat), last, cat);
      }
    }
  }

  // ----- histories without faults in their row operations -----

  /** Row operations meet no fault and have their columns in order, and a rollback that is due
      comes next.  Flushes at prepare and commit, COMMIT and ROLLBACK may still fail. */
  ghost predicate FineEvent(c: Conn, e: Event, cat: Catalog) {
    && (c.failed ==> e.Rollback?)
    && (e.Dml? ==> e.beginOk && NoFault(e.step.ans) && ColumnsFine(Current(c), e.step, cat))
  }

  ghost predicate FineEvents(c: Conn, es: seq<Event>, cat: Catalog) {
    es == [] ||
    var init, last := es[..|es| - 1], es[|es| - 1];
    FineEvents(c, init, cat) && FineEvent(RunEvents(c, init, cat), last, cat)
  }

  /** The reference as a plain fold of the operations. */
  ghost function FoldRun(c: Conn, r: Ref, es: seq<Event>, cat: Catalog): Ref {
    if es == [] then r
    else
      var init, last := es[..|es| - 1], es[|es| - 1];
      var c1, r1 := RunEvents(c, init, cat), FoldRun(c, r, init, cat);
      if last.Dml? then r1.(work := ApplyRowByRow(r1.work, last.step.op, cat)) else RefNext(c1, r1, last, cat)
  }

  lemma FineNext(c: Conn, r: Ref, e: Event, cat: Catalog)
    requires ConnInv(c, r, cat) && EventOk(c, r, e, cat) && FineEvent(c, e, cat) && (!c.failed ==> Clean(c.s))
    ensures SoundEvent(c, e, cat) && (!Next(c, e, cat).failed ==> Clean(Next(c, e, cat).s))
    ensures e.Dml? ==> RefNext(c, r, e, cat) == r.(work := ApplyRowByRow(r.work, e.step.op, cat))
  {
    if e.Dml? {
      FineDml(c, r, e.step, cat);
    } else {
      hide UniqueDb, BatchInv, Refines, ConnInv, EventOk, PartlyFlushed, AbortedFlush;
    }
  }

  lemma FineDml(c: Conn, r: Ref, step: Step, cat: Catalog)
    requires ConnInv(c, r, cat) && !c.failed && Clean(c.s) && Legal(r.work, step.op, cat)
    requires NoFault(step.ans) && ColumnsFine(Current(c), step, cat)
    ensures Sound(Current(c), step, cat) && Apply(Current(c), step, cat).ok
    ensures Clean(Next(c, Dml(step, true), cat).s)
  {
    DmlInv(c, step, true, cat);
    hide UniqueDb, BatchInv, Refines, Apply, Sound, ColumnsFine, Legal, NoFault;
    FineStep(Current(c), step, r.work, cat);
    StepKeepsClean(c.s, step, cat);
    StepKeepsClean(Current(c), step, cat);
  }

  /** Then every event is sound, every operation succeeds, and each successful COMMIT publishes the
      plain fold of its transaction's operations, whatever COMMITs and ROLLBACKs failed before. */
  lemma {:induction false} FineHistoriesPublishFolds(c: Conn, r: Ref, es: seq<Event>, cat: Catalog)
    requires ConnInv(c, r, cat) && (!c.failed ==> Clean(c.s)) && LegalEvents(c, r, es, cat) && FineEvents(c, es, cat)
    ensures SoundEvents(c, es, cat) && InvThroughout(c, r, es, cat) && RefRun(c, r, es, cat) == FoldRun(c, r, es, cat)
    ensures !RunEvents(c, es, cat).failed ==> Clean(RunEvents(c, es, cat).s)
  {
    hide ConnInv, EventOk, Next, RefNext, SoundEvent, FineEvent, Clean;
    if es != [] {
      var init, last := es[..|es| - 1], es[|es| - 1];
      FineHistoriesPublishFolds(c, r, init, cat);
      FineNext(RunEvents(c, init, cat), RefRun(c, r, init, cat), last, cat);
    }
    TransactionsAreAllOrNothing(c, r, es, cat);
  }
}
