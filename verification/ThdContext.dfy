/** The classes behind a batch: the appender of one table, and the per-connection context
    that caches appenders and ends transactions.  Every method is proved against the
    functions of DeltaLog, BatchSession and Transactions.  The tables inside DuckDB are
    specification state; which DuckDB calls fail is a parameter of each method. */
module ThdContext {
  import opened Common
  import opened Tables
  import opened DeltaLog
  import opened PendingLogs
  import opened BatchSession
  import opened Transactions
  import RowDifference

  /** Which DuckDB calls fail during one operation, and where the flush of a table would stop. */
  datatype Faults = Faults(beginOk: bool, initOk: bool, markerOk: bool, rowOk: bool, statementOk: bool,
                           stops: map<TableId, FlushPoint>)

  /** The answers DuckDB gave under these faults.  An appender may also fail to be made because of
      a name clash, and a flush because of a temporary table that is gone. */
  ghost predicate AnswersTo(ans: Answers, f: Faults) {
    && ans.markerOk == f.markerOk && ans.rowOk == f.rowOk && ans.statementOk == f.statementOk
    && (ans.initOk ==> f.initOk)
  }

  // ----- names of temporary tables -----

  const SEPARATOR := "_rds_buf_"

  /** `buf_table_name`. */
  function BufName(t: TableId): string {
    t.schema + SEPARATOR + t.name
  }

  /** The tables of two schemas can share a temporary table exactly when the longer schema name,
      with the separator, continues the shorter one with it. */
  lemma BufNamesClash(x: string, y: string)
    requires x != y && |x| <= |y|
    ensures (exists m, n :: BufName(TableId(x, m)) == BufName(TableId(y, n))) <==> x + SEPARATOR <= y + SEPARATOR
  {
    hide *;
    var short, long := x + SEPARATOR, y + SEPARATOR;
    if m, n :| BufName(TableId(x, m)) == BufName(TableId(y, n)) {
      assert short + m == long + n by { BufNameIs(x, m); BufNameIs(y, n); }
      assert short == (long + n)[..|short|] == long[..|short|];
    }
    if short <= long {
      var rest := long[|short|..];
      assert short + rest == long + "";
      BufNameIs(x, rest);
      BufNameIs(y, "");
    }
  }

  lemma BufNameIs(x: string, m: string)
    ensures BufName(TableId(x, m)) == x + SEPARATOR + m
  {
  }

  /** Within one schema they never do. */
  lemma BufNamesOfOneSchema(x: string, m: string, n: string)
    ensures BufName(TableId(x, m)) == BufName(TableId(x, n)) <==> m == n
  {
    hide BufName, SEPARATOR;
    BufNameIs(x, m);
    BufNameIs(x, n);
    var start := x + SEPARATOR;
    assert (start + m)[|start|..] == m && (start + n)[|start|..] == n;
  }

  /** Such names exist. */
  lemma BufNamesDoClash()
    ensures BufName(TableId("a", "b_rds_buf_c")) == BufName(TableId("a_rds_buf_b", "c"))
  {
  }

  // ----- one appender -----

  /** The flush of this delta meets the point where it is to stop. */
  predicate StopsFlush(d: Delta, stop: Option<FlushPoint>) {
    stop.Some? &&
    match stop.value
    case AtAppender => true
    case AtDelete => d.useTmp && d.hasDelete
    case AtInsert => d.useTmp && d.hasInsert
    case AtDrop => d.useTmp
  }

  lemma NotStopped(d: Delta)
    ensures !StopsFlush(d, None)
  {
  }

  class DeltaAppender {
    const useTmp: bool
    var log: seq<LogRow>
    var rowCount: nat
    var hasInsert: bool
    var hasDelete: bool
    var gone: bool

    function View(): Delta
      reads this
    {
      Delta(useTmp, log, rowCount, hasInsert, hasDelete)
    }

    /** The temporary table that holds the log has been dropped. */
    predicate HasLost()
      reads this
    {
      useTmp && gone
    }

    constructor (useTmp: bool)
      ensures View() == EmptyDelta(useTmp) && !gone
    {
      this.useTmp := useTmp;
      log, rowCount, hasInsert, hasDelete, gone := [], 0, false, false, false;
    }

    /** A failing append has already counted the row and raised the flag. */
    method AppendRowInsert(row: Row, appendOk: bool) returns (err: bool)
      modifies this
      ensures err <==> !appendOk
      ensures View() == if err then FailedInsert(old(View())) else AppendInsert(old(View()), row)
      ensures gone == old(gone)
    {
      rowCount, hasInsert := rowCount + 1, true;
      if appendOk { log := log + [LogRow(row, false, rowCount)]; }
      err := !appendOk;
    }

    method AppendRowDelete(row: Row, pk: seq<nat>, appendOk: bool) returns (err: bool)
      modifies this
      ensures err <==> !useTmp || !appendOk
      ensures View() == if err then FailedDelete(old(View())) else AppendDelete(old(View()), row, pk)
      ensures gone == old(gone)
    {
      if !useTmp { return true; }
      rowCount, hasDelete := rowCount + 1, true;
      if appendOk { log := log + [LogRow(MarkerRow(row, pk), true, rowCount)]; }
      err := !appendOk;
    }

    method AppendRowUpdate(before: Row, after: Row, pk: seq<nat>, markerOk: bool, rowOk: bool) returns (err: bool)
      modifies this
      ensures err <==> !useTmp || !markerOk || !rowOk
      ensures View() == if err then FailedUpdate(old(View()), before, markerOk, pk)
                        else AppendUpdate(old(View()), before, after, pk)
      ensures gone == old(gone)
    {
      err := AppendRowDelete(before, pk, markerOk);
      if !err { err := AppendRowInsert(after, rowOk); }
    }

    /** A flush moves the rows into the target, or runs the two statements and drops the
        temporary table; `image` is what it leaves of the target, also when it stops on the way.
        Without its temporary table it always fails. */
    method Flush(ghost target: Table, pk: seq<nat>, stop: Option<FlushPoint>)
      returns (err: bool, ghost image: Table, ghost point: FlushPoint)
      modifies this
      ensures err <==> StopsFlush(old(View()), stop) || old(HasLost())
      ensures !err ==> image == Flushed(target, old(View()), pk) && View() == Emptied(old(View())) && gone == useTmp
      ensures err ==> image == FailedFlush(target, old(View()), point, pk) && View() == old(View()) && gone == old(gone)
      ensures old(HasLost()) ==> image == target
    {
      image, point := target, AtAppender;
      if stop == Some(AtAppender) { return true, image, point; }
      if !useTmp {
        image := image + DirectRows(log);
      } else {
        if hasDelete {
          point := AtDelete;
          if gone || stop == Some(AtDelete) { return true, image, point; }
          image := DeleteKeys(image, LogKeys(log, pk), pk);
        }
        if hasInsert {
          point := AtInsert;
          if gone || stop == Some(AtInsert) { return true, image, point; }
          image := image + LatestRows(log, |log|, pk);
        }
        point := AtDrop;
        if gone || stop == Some(AtDrop) { return true, image, point; }
      }
      log, gone, err := [], useTmp, false;
    }
  }

  // ----- the context of a connection -----

  class DuckdbThdContext {
    const cat: Catalog
    var batchState: BatchState
    var appenders: map<TableId, DeltaAppender>
    var writeSets: map<TableId, WriteSet>
    var active: bool
    ghost var work: Database
    ghost var committed: Database

    ghost predicate Valid()
      reads this
    {
      forall t, u :: t in appenders && u in appenders && t != u ==> appenders[t] != appenders[u]
    }

    ghost function View(): Session
      reads this, appenders.Values
    {
      Session(batchState, map t | t in appenders :: appenders[t].View(), writeSets, work)
    }

    ghost function AsConn(failed: bool): Conn
      reads this, appenders.Values
    {
      Conn(committed, active, View(), failed)
    }

    /** The appenders that have lost their temporary table, in a failed flush or to a name clash. */
    ghost function Lost(): set<TableId>
      reads this, appenders.Values
    {
      set t | t in appenders && appenders[t].HasLost()
    }

    constructor (cat: Catalog, ghost committed: Database)
      ensures Valid() && this.cat == cat && AsConn(false) == Conn(committed, false, Idle(map[]), false)
    {
      this.cat := cat;
      batchState, appenders, writeSets, active := Undefined, map[], map[], false;
      this.work, this.committed := map[], committed;
    }

    /** `duckdb_register_trx`. */
    method TransBegin(ok: bool) returns (err: bool)
      modifies `active, `work
      ensures err <==> !old(active) && !ok
      ensures AsConn(false) == if err then old(AsConn(false)) else Transactions.Begin(old(AsConn(false)))
      ensures Lost() == old(Lost())
    {
      err := !active && !ok;
      if !active && ok {
        active, work := true, committed;
      }
    }

    /** One table of `flush_all`, when those of `done` have been flushed. */
    method FlushTable(t: TableId, stop: Option<FlushPoint>, ghost s0: Session, ghost done: set<TableId>)
      returns (err: bool, ghost point: FlushPoint)
      requires t in appenders && t !in done && t in s0.deltas && appenders[t].View() == s0.deltas[t]
      requires work == PartlyFlushed(s0, done, cat)
      modifies `work, appenders[t]
      ensures err <==> StopsFlush(s0.deltas[t], stop) || old(appenders[t].HasLost())
      ensures !err ==> work == PartlyFlushed(s0, done + {t}, cat) && appenders[t].View() == Emptied(s0.deltas[t])
      ensures !err ==> appenders[t].HasLost() == appenders[t].useTmp
      ensures err ==> appenders[t].View() == s0.deltas[t]
      ensures err ==> work == old(work)[t := FailedFlush(TableOf(s0.work, t), s0.deltas[t], point, cat(t))]
    {
      hide Flushed, PartlyFlushed, FailedFlush;
      FlushOneMore(s0, done, t, cat);
      ghost var image;
      err, image, point := appenders[t].Flush(TableOf(work, t), cat(t), stop);
      work := work[t := image];
    }

    /** The loop of `flush_all`: it ends with every table flushed, or at the first that fails. */
    method FlushLoop(stops: map<TableId, FlushPoint>, ghost s0: Session, ghost lost: set<TableId>)
      returns (err: bool, ghost flush: FlushAnswer)
      requires Valid() && s0.deltas.Keys == appenders.Keys && lost <= appenders.Keys
      requires work == PartlyFlushed(s0, {}, cat)
      requires forall t :: t in appenders ==> appenders[t].View() == s0.deltas[t]
      requires forall t :: t in appenders ==> (t in lost <==> appenders[t].HasLost())
      modifies `work, appenders.Values
      ensures !err ==> work == PartlyFlushed(s0, appenders.Keys, cat) && lost == {} && flush.FlushOk?
      ensures err ==> Stopped(s0, flush) && (stops == map[] ==> flush.at in lost)
      ensures err ==> forall t :: t in appenders ==>
                appenders[t].View() == if t in flush.done then Emptied(s0.deltas[t]) else s0.deltas[t]
      ensures err ==> forall t :: t in flush.done && appenders[t].useTmp ==> appenders[t].HasLost()
      ensures err ==> work == AbortedFlush(s0, flush.done, flush.at, flush.point, cat).work
    {
      hide PartlyFlushed, FailedFlush, StopsFlush, Emptied, DeltaAppender.View, DeltaAppender.HasLost;
      var todo := appenders.Keys;
      ghost var done := {};
      while todo != {}
        invariant todo <= appenders.Keys && done == appenders.Keys - todo && lost <= todo
        invariant forall t :: t in todo ==>
                    appenders[t].View() == s0.deltas[t] && (t in lost <==> appenders[t].HasLost())
        invariant forall t :: t in done ==>
                    appenders[t].View() == Emptied(s0.deltas[t]) && appenders[t].HasLost() == appenders[t].useTmp
        invariant work == PartlyFlushed(s0, done, cat)
        decreases todo
      {
        var t :| t in todo;
        ghost var point;
        err, point := FlushTable(t, if t in stops then Some(stops[t]) else None, s0, done);
        if err {
          flush := StopsAt(done, t, point);
          NotStopped(s0.deltas[t]);
          return;
        }
        todo, done := todo - {t}, done + {t};
      }
      assert done == appenders.Keys;
      err, flush := false, FlushOk;
    }

    /** `flush_all`. */
    method FlushTables(stops: map<TableId, FlushPoint>) returns (err: bool, ghost flush: FlushAnswer)
      requires Valid()
      modifies `work, appenders.Values
      ensures (err <==> Stopped(old(View()), flush)) && (!err ==> flush.FlushOk?)
      ensures !err ==> work == PartlyFlushed(old(View()), appenders.Keys, cat)
      ensures err ==> View() == AbortedFlush(old(View()), flush.done, flush.at, flush.point, cat)
      ensures stops == map[] && err ==> old(Lost()) != {}
      ensures old(Lost()) != {} ==> err
      ensures err ==> forall t :: t in flush.done && appenders[t].useTmp ==> t in Lost()
    {
      hide FailedFlush, Emptied, AbortedFlush;
      ghost var s0 := View();
      assert work == PartlyFlushed(s0, {}, cat);
      hide PartlyFlushed;
      err, flush := FlushLoop(stops, s0, Lost());
      if err { AbortedView(s0, flush); }
    }

    lemma AbortedView(s0: Session, flush: FlushAnswer)
      requires s0.deltas.Keys == appenders.Keys && Stopped(s0, flush)
      requires batchState == s0.batch && writeSets == s0.writeSets
      requires forall t :: t in appenders ==>
        appenders[t].View() == if t in flush.done then Emptied(s0.deltas[t]) else s0.deltas[t]
      requires work == AbortedFlush(s0, flush.done, flush.at, flush.point, cat).work
      ensures View() == AbortedFlush(s0, flush.done, flush.at, flush.point, cat)
    {
      hide PartlyFlushed, FailedFlush;
    }

    /** `flush_appenders`.  It fails as long as an appender has lost its temporary table; and a
        failed flush has taken those of the mixed tables it got past. */
    method FlushAppenders(stops: map<TableId, FlushPoint>) returns (err: bool, ghost flush: FlushAnswer)
      requires Valid()
      modifies `work, `appenders, `batchState, appenders.Values
      ensures Valid() && (appenders == old(appenders) || appenders == map[])
      ensures View() == FlushTo(old(View()), flush, cat).s && (err <==> !FlushTo(old(View()), flush, cat).ok)
      ensures !err ==> flush.FlushOk?
      ensures stops == map[] && err ==> old(Lost()) != {}
      ensures old(Lost()) != {} ==> err
      ensures err ==> forall t :: t in flush.done && appenders[t].useTmp ==> t in Lost()
    {
      hide PartlyFlushed, AbortedFlush, Lost;
      ghost var s0 := View();
      assert s0.deltas.Keys == appenders.Keys;
      err, flush := FlushTables(stops);
      if err { return; }
      appenders, batchState := map[], Undefined;
      assert View().deltas == map[];
    }

    /** `get_batch_state`. */
    method GetBatchState(insertOnly: bool, cfg: Settings, stops: map<TableId, FlushPoint>)
      returns (err: bool, ghost flush: FlushAnswer)
      requires Valid()
      modifies `work, `appenders, `batchState, appenders.Values
      ensures Valid() && (appenders == old(appenders) || appenders == map[])
      ensures var e := EnterBatch(old(View()), insertOnly, cfg, flush, cat);
              View() == e.s && (err <==> !e.ok)
      ensures stops == map[] && old(Lost()) == {} ==> flush.FlushOk?
    {
      hide PartlyFlushed, AbortedFlush;
      err, flush := false, FlushOk;
      if batchState.InsertOnlyBatch? && !insertOnly {
        err, flush := FlushAppenders(stops);
        if err { return; }
      }
      if batchState.Undefined? {
        batchState := if !cfg.dmlInBatch then NotInBatch else if insertOnly then InsertOnlyBatch else MixBatch;
      }
    }

    /** An appender for the table can be made: an existing temporary table of the same name, left
        by another table, makes `Initialize` fail. */
    predicate CanMake(t: TableId, initOk: bool)
      reads this, appenders.Values
    {
      && initOk
      && (|| batchState.InsertOnlyBatch?
          || forall u :: u in appenders && u != t && appenders[u].useTmp && !appenders[u].gone ==>
               BufName(u) != BufName(t))
    }

    /** The names of the temporary tables of other appenders differ from this table's. */
    ghost predicate NamesApart(t: TableId)
      reads this
    {
      forall u :: u in appenders && u != t ==> BufName(u) != BufName(t)
    }

    /** So a connection that writes to one schema never meets a clash, whatever its tables are called. */
    lemma OneSchemaIsApart(t: TableId)
      requires forall u :: u in appenders ==> u.schema == t.schema
      ensures NamesApart(t)
    {
      forall u | u in appenders && u != t ensures BufName(u) != BufName(t) {
        BufNamesOfOneSchema(t.schema, u.name, t.name);
      }
    }

    /** `DROP TABLE IF EXISTS` on a temporary table: whosever log it was is lost. */
    method DropBuffer(name: string)
      requires Valid()
      modifies appenders.Values`gone
      ensures View() == old(View())
      ensures forall u :: u in appenders ==>
                (appenders[u].gone <==> old(appenders[u].gone) || (appenders[u].useTmp && BufName(u) == name))
    {
      forall u | u in appenders && appenders[u].useTmp && BufName(u) == name {
        appenders[u].gone := true;
      }
    }

    method MakeAppender(t: TableId) returns (a: DeltaAppender)
      requires Valid() && t !in appenders
      modifies `appenders
      ensures Valid() && fresh(a) && appenders == old(appenders)[t := a] && a.View() == DeltaFor(old(View()), t)
      ensures View() == WithDelta(old(View()), t, a.View())
    {
      ghost var s := View();
      a := new DeltaAppender(!batchState.InsertOnlyBatch?);
      appenders := appenders[t := a];
      hide WithDelta;
      ViewWith(s, t, a);
    }

    lemma ViewWith(s: Session, t: TableId, a: DeltaAppender)
      requires t in appenders && appenders[t] == a && s.deltas.Keys + {t} == appenders.Keys
      requires s.batch == batchState && s.writeSets == writeSets && s.work == work
      requires forall u :: u in s.deltas && u != t ==> s.deltas[u] == appenders[u].View()
      ensures View() == WithDelta(s, t, a.View())
    {
    }

    /** `get_appender`: the cached appender, or a new one unless it cannot be initialised.  A failed
        one is destroyed, and drops the temporary table of its name. */
    method GetAppender(t: TableId, initOk: bool) returns (a: DeltaAppender?)
      requires Valid()
      modifies `appenders, appenders.Values`gone
      ensures Valid()
      ensures a == null <==> t !in old(appenders) && !old(CanMake(t, initOk))
      ensures a == null ==> appenders == old(appenders) && View() == old(View())
      ensures a != null ==> t in appenders && appenders[t] == a && a.View() == DeltaFor(old(View()), t)
      ensures a != null ==> View() == WithDelta(old(View()), t, a.View()) && (t in old(appenders) || fresh(a))
      ensures a != null ==> appenders == if t in old(appenders) then old(appenders) else old(appenders)[t := a]
      ensures forall u :: u in old(appenders) && old(appenders[u].gone) ==> old(appenders)[u].gone
      ensures a == null && !batchState.InsertOnlyBatch? ==>
                forall u :: u in appenders && BufName(u) == BufName(t) && appenders[u].useTmp ==> appenders[u].gone
    {
      if t in appenders {
        a := appenders[t];
      } else if CanMake(t, initOk) {
        a := MakeAppender(t);
      } else {
        a := null;
        if !batchState.InsertOnlyBatch? { DropBuffer(BufName(t)); }
      }
    }

    /** A change of one appender is a change of one delta. */
    twostate lemma OneAppenderChanged(t: TableId)
      requires old(Valid()) && t in appenders && unchanged(this)
      requires forall u :: u in appenders && u != t ==> unchanged(appenders[u])
      ensures View() == WithDelta(old(View()), t, appenders[t].View())
    {
    }

    /** `DuckdbThdContext::append_row_insert`. */
    method AppendRowInsert(t: TableId, row: Row, f: Faults, ghost ans: Answers) returns (err: bool)
      requires Valid() && !batchState.NotInBatch? && ans.initOk == CanMake(t, f.initOk)
      modifies `appenders, appenders.Values
      ensures Valid()
      ensures var s, d := old(View()), DeltaFor(old(View()), t);
              && (err <==> !(HasAppender(s, t, ans) && f.rowOk))
              && View() == if !HasAppender(s, t, ans) then s
                           else WithDelta(s, t, if err then FailedInsert(d) else AppendInsert(d, row))
    {
      ghost var s := View();
      assert s.deltas.Keys == appenders.Keys && s.batch == batchState;
      hide WithDelta, DuckdbThdContext.View, CanMake;
      var a := GetAppender(t, f.initOk);
      if a == null { return true; }
      label got:
      err := a.AppendRowInsert(row, f.rowOk);
      OneAppenderChanged@got(t);
      WithDeltaAgain(s, t, DeltaFor(s, t), a.View());
    }

    method AppendRowDelete(t: TableId, row: Row, f: Faults, ghost ans: Answers) returns (err: bool)
      requires Valid() && !batchState.NotInBatch? && ans.initOk == CanMake(t, f.initOk)
      modifies `appenders, appenders.Values
      ensures Valid()
      ensures var s, d := old(View()), DeltaFor(old(View()), t);
              && (err <==> !(HasAppender(s, t, ans) && d.useTmp && f.markerOk))
              && View() == if !HasAppender(s, t, ans) then s
                           else WithDelta(s, t, if err then FailedDelete(d) else AppendDelete(d, row, cat(t)))
    {
      ghost var s := View();
      assert s.deltas.Keys == appenders.Keys && s.batch == batchState;
      hide WithDelta, DuckdbThdContext.View, CanMake;
      var a := GetAppender(t, f.initOk);
      if a == null { return true; }
      label got:
      err := a.AppendRowDelete(row, cat(t), f.markerOk);
      OneAppenderChanged@got(t);
      WithDeltaAgain(s, t, DeltaFor(s, t), a.View());
    }

    method AppendRowUpdate(t: TableId, before: Row, after: Row, f: Faults, ghost ans: Answers) returns (err: bool)
      requires Valid() && !batchState.NotInBatch? && ans.initOk == CanMake(t, f.initOk)
      modifies `appenders, appenders.Values
      ensures Valid()
      ensures var s, d := old(View()), DeltaFor(old(View()), t);
              && (err <==> !(HasAppender(s, t, ans) && d.useTmp && f.markerOk && f.rowOk))
              && View() == if !HasAppender(s, t, ans) then s
                           else WithDelta(s, t, if err then FailedUpdate(d, before, f.markerOk, cat(t))
                                                else AppendUpdate(d, before, after, cat(t)))
    {
      ghost var s := View();
      assert s.deltas.Keys == appenders.Keys && s.batch == batchState;
      hide WithDelta, DuckdbThdContext.View, CanMake;
      var a := GetAppender(t, f.initOk);
      if a == null { return true; }
      label got:
      err := a.AppendRowUpdate(before, after, cat(t), f.markerOk, f.rowOk);
      OneAppenderChanged@got(t);
      WithDeltaAgain(s, t, DeltaFor(s, t), a.View());
    }

    // ----- row operations -----

    /** The answers that fit the faults, once the flush has given its own. */
    ghost function AnswersFor(t: TableId, f: Faults, flush: FlushAnswer): (ans: Answers)
      reads this, appenders.Values
      ensures AnswersTo(ans, f) && ans.flush == flush && (f.initOk && NamesApart(t) ==> ans.initOk)
    {
      Answers(CanMake(t, f.initOk), f.markerOk, f.rowOk, f.statementOk, flush)
    }

    method RunStatement(t: TableId, ghost image: Table, ok: bool) returns (err: bool)
      modifies `work
      ensures View() == if ok then old(View()).(work := old(View()).work[t := image]) else old(View())
      ensures err <==> !ok
    {
      if ok { work := work[t := image]; }
      err := !ok;
    }

    method LeaveBatch()
      modifies `batchState
      ensures View() == old(View()).(batch := NotInBatch)
    {
      batchState := NotInBatch;
    }

    /** The server sets a table's write set before a statement, and a scan widens it. */
    method MarkWriteSet(t: TableId, w: WriteSet)
      modifies `writeSets
      ensures View() == old(View()).(writeSets := old(View()).writeSets[t := w])
    {
      writeSets := writeSets[t := w];
    }

    /** The write set keeps the columns found changed, for the rows that follow too. */
    method NarrowWriteSet(t: TableId, before: Row, after: Row, cfg: Settings)
      modifies `writeSets
      ensures View() == Narrow(old(View()), t, before, after, cfg)
    {
      var flagged := RowDifference.Flagged(before, after);
      if cfg.modifiedColumnsOnly && flagged != {} { writeSets := writeSets[t := Only(flagged)]; }
    }

    lemma ViewFields()
      ensures View().batch == batchState && View().deltas.Keys == appenders.Keys
      ensures View().writeSets == writeSets && View().work == work
    {
    }

    method InsertOrFallBack(t: TableId, row: Row, defaults: Row, f: Faults, ghost ans: Answers) returns (err: bool)
      requires Valid() && ans == AnswersFor(t, f, ans.flush)
      modifies `batchState, `work, `appenders, appenders.Values
      ensures Valid()
      ensures var r := InsertSettled(old(View()), t, row, defaults, ans); View() == r.s && (err <==> !r.ok)
    {
      hide Overwrite, DuckdbThdContext.View, TableColumns, AppendInsert, FailedInsert;
      ghost var s := View();
      ViewFields();
      ghost var image := TableOf(s.work, t) + multiset{Overwrite(defaults, row, TableColumns(s, t, row))};
      if !batchState.NotInBatch? {
        err := AppendRowInsert(t, row, f, ans);
        if !err { return; }
        LeaveBatch();
      }
      err := RunStatement(t, image, f.statementOk);
    }

    method DeleteOrFallBack(t: TableId, row: Row, f: Faults, ghost ans: Answers) returns (err: bool)
      requires Valid() && ans == AnswersFor(t, f, ans.flush)
      modifies `batchState, `work, `appenders, appenders.Values
      ensures Valid()
      ensures var r := DeleteSettled(old(View()), t, row, ans, cat); View() == r.s && (err <==> !r.ok)
    {
      hide DuckdbThdContext.View, AppendDelete, FailedDelete;
      ghost var s := View();
      ViewFields();
      ghost var image := DeleteKeys(TableOf(s.work, t), {KeyOf(row, cat(t))}, cat(t));
      if !batchState.NotInBatch? {
        err := AppendRowDelete(t, row, f, ans);
        if !err { return; }
        LeaveBatch();
      }
      err := RunStatement(t, image, f.statementOk);
    }

    method UpdateOrFallBack(t: TableId, before: Row, after: Row, cfg: Settings, f: Faults, ghost ans: Answers)
      returns (err: bool)
      requires Valid() && ans == AnswersFor(t, f, ans.flush)
      modifies `batchState, `work, `appenders, `writeSets, appenders.Values
      ensures Valid()
      ensures var r := UpdateSettled(old(View()), t, before, after, cfg, ans, cat); View() == r.s && (err <==> !r.ok)
    {
      hide UpdateRows, DuckdbThdContext.View, AppendUpdate, FailedUpdate, TableColumns;
      ghost var s := View();
      ViewFields();
      NarrowKeepsTables(s, t, before, after, cfg);
      hide Narrow;
      if batchState.NotInBatch? {
        NarrowWriteSet(t, before, after, cfg);
      } else {
        err := AppendRowUpdate(t, before, after, f, ans);
        if !err { return; }
        LeaveBatch();
      }
      ghost var cols := TableColumns(if s.batch.NotInBatch? then View() else s, t, after);
      err := RunStatement(t, UpdateRows(TableOf(s.work, t), KeyOf(before, cat(t)), after, cols, cat(t)), f.statementOk);
    }

    /** What an operation does to the session once the transaction is open, and the answers it got.
        Without faults, lost tables or name clashes every answer is good. */
    twostate predicate Ran(op: Op, cfg: Settings, f: Faults, ans: Answers, err: bool)
      reads this, appenders.Values
    {
      && AnswersTo(ans, f) && (f.initOk && old(NamesApart(op.t)) ==> ans.initOk)
      && (f.stops == map[] && old(Lost()) == {} ==> ans.flush.FlushOk?)
      && View() == Apply(old(View()), Step(op, cfg, ans), cat).s
      && (err <==> !Apply(old(View()), Step(op, cfg, ans), cat).ok)
    }

    method InsertBegun(t: TableId, row: Row, defaults: Row, cfg: Settings, f: Faults)
      returns (err: bool, ghost ans: Answers)
      requires Valid()
      modifies `batchState, `work, `appenders, appenders.Values
      ensures Valid() && Ran(Insert(t, row, defaults), cfg, f, ans, err)
    {
      hide EnterBatch, InsertSettled, DuckdbThdContext.View, Lost;
      ghost var flush;
      err, flush := GetBatchState(true, cfg, f.stops);
      ans := AnswersFor(t, f, flush);
      err := InsertOrFallBack(t, row, defaults, f, ans);
    }

    method UpdateBegun(t: TableId, before: Row, after: Row, injected: bool, cfg: Settings, f: Faults)
      returns (err: bool, ghost ans: Answers)
      requires Valid() && !Rejected(View(), t, after, injected)
      modifies `batchState, `work, `appenders, `writeSets, appenders.Values
      ensures Valid() && Ran(Update(t, before, after, injected), cfg, f, ans, err)
    {
      hide EnterBatch, UpdateSettled, DuckdbThdContext.View, Lost, Rejected;
      ghost var flush;
      err, flush := GetBatchState(false, cfg, f.stops);
      ans := AnswersFor(t, f, flush);
      if !err { err := UpdateOrFallBack(t, before, after, cfg, f, ans); }
    }

    method DeleteBegun(t: TableId, row: Row, cfg: Settings, f: Faults) returns (err: bool, ghost ans: Answers)
      requires Valid()
      modifies `batchState, `work, `appenders, appenders.Values
      ensures Valid() && Ran(Delete(t, row), cfg, f, ans, err)
    {
      hide EnterBatch, DeleteSettled, DuckdbThdContext.View, Lost;
      ghost var flush;
      err, flush := GetBatchState(false, cfg, f.stops);
      ans := AnswersFor(t, f, flush);
      if !err { err := DeleteOrFallBack(t, row, f, ans); }
    }

    method DropAppender(t: TableId)
      requires Valid()
      modifies `appenders
      ensures Valid() && View() == old(View()).(deltas := old(View()).deltas - {t})
    {
      ghost var s := View();
      appenders := appenders - {t};
      assert View().deltas == s.deltas - {t};
    }

    method DeleteAllBegun(t: TableId, cfg: Settings, f: Faults) returns (err: bool, ghost ans: Answers)
      requires Valid()
      modifies `work, `appenders
      ensures Valid() && Ran(DeleteAll(t), cfg, f, ans, err)
    {
      hide DuckdbThdContext.View, Lost, CanMake;
      ans := AnswersFor(t, f, FlushOk);
      DropAppender(t);
      err := RunStatement(t, multiset{}, f.statementOk);
    }

    method DirectBegun(t: TableId, ghost effect: Table -> Table, cfg: Settings, f: Faults)
      returns (err: bool, ghost ans: Answers)
      requires Valid()
      modifies `batchState, `work, `appenders, appenders.Values
      ensures Valid() && Ran(Direct(t, effect), cfg, f, ans, err)
    {
      hide FlushTo, DuckdbThdContext.View, Lost, CanMake;
      ghost var flush;
      ans := AnswersFor(t, f, FlushOk);
      err, flush := FlushAppenders(f.stops);
      ans := ans.(flush := flush);
      if err { return; }
      ViewFields();
      err := RunStatement(t, effect(TableOf(work, t)), f.statementOk);
    }

    method ScanSession(t: TableId, cfg: Settings, f: Faults) returns (err: bool, ghost ans: Answers)
      requires Valid()
      modifies `batchState, `work, `appenders, `writeSets, appenders.Values
      ensures Valid() && Ran(Scan(t), cfg, f, ans, err)
    {
      hide FlushTo, DuckdbThdContext.View, Lost, CanMake;
      ghost var flush;
      ans := AnswersFor(t, f, FlushOk);
      err, flush := FlushAppenders(f.stops);
      ans := ans.(flush := flush);
      if err { return; }
      err := !f.statementOk;
      if !err { MarkWriteSet(t, All); }
    }

    /** What an operation does to the connection. */
    twostate predicate Did(op: Op, cfg: Settings, f: Faults, ans: Answers, err: bool)
      reads this, appenders.Values
    {
      && AnswersTo(ans, f) && (f.initOk && old(NamesApart(op.t)) ==> ans.initOk)
      && (f.stops == map[] && old(Lost()) == {} ==> ans.flush.FlushOk?)
      && AsConn(false) == Next(old(AsConn(false)), Dml(Step(op, cfg, ans), f.beginOk), cat)
      && (err <==> || NotBegun(old(AsConn(false)), op, f.beginOk)
                   || !Apply(Current(old(AsConn(false))), Step(op, cfg, ans), cat).ok)
    }

    /** `write_row`. */
    method WriteRow(t: TableId, row: Row, defaults: Row, cfg: Settings, f: Faults)
      returns (err: bool, ghost ans: Answers)
      requires Valid()
      modifies this, appenders.Values
      ensures Valid() && Did(Insert(t, row, defaults), cfg, f, ans, err)
    {
      hide Apply, DuckdbThdContext.View, Lost, CanMake, Next, NotBegun;
      ghost var c := AsConn(false);
      ans := AnswersFor(t, f, FlushOk);
      err := TransBegin(f.beginOk);
      if !err { err, ans := InsertBegun(t, row, defaults, cfg, f); }
      NextDml(c, Step(Insert(t, row, defaults), cfg, ans), f.beginOk, cat);
    }

    method UpdateAccepted(t: TableId, before: Row, after: Row, injected: bool, cfg: Settings, f: Faults)
      returns (err: bool, ghost ans: Answers)
      requires Valid() && !Rejected(View(), t, after, injected)
      modifies this, appenders.Values
      ensures Valid() && Did(Update(t, before, after, injected), cfg, f, ans, err)
    {
      hide Apply, DuckdbThdContext.View, Lost, CanMake, Next, NotBegun, TableColumns;
      ghost var c := AsConn(false);
      SameWriteSets(c, t, after, injected);
      hide Rejected;
      ans := AnswersFor(t, f, FlushOk);
      err := TransBegin(f.beginOk);
      if !err { err, ans := UpdateBegun(t, before, after, injected, cfg, f); }
      NextDml(c, Step(Update(t, before, after, injected), cfg, ans), f.beginOk, cat);
    }

    /** `update_row`. */
    method UpdateRow(t: TableId, before: Row, after: Row, injected: bool, cfg: Settings, f: Faults)
      returns (err: bool, ghost ans: Answers)
      requires Valid()
      modifies this, appenders.Values
      ensures Valid() && Did(Update(t, before, after, injected), cfg, f, ans, err)
    {
      hide Apply, Lost;
      ViewFields();
      hide DuckdbThdContext.View;
      var writeSet := if t in writeSets then writeSets[t] else Only({});
      if injected && !(AllColumns(after) <= Columns(writeSet, after)) {
        ans := AnswersFor(t, f, FlushOk);
        RefusedRow(AsConn(false), t, before, after, cfg, ans, f.beginOk, cat);
        err := true;
      } else {
        err, ans := UpdateAccepted(t, before, after, injected, cfg, f);
      }
    }

    /** `delete_row`. */
    method DeleteRow(t: TableId, row: Row, cfg: Settings, f: Faults) returns (err: bool, ghost ans: Answers)
      requires Valid()
      modifies this, appenders.Values
      ensures Valid() && Did(Delete(t, row), cfg, f, ans, err)
    {
      hide Apply, DuckdbThdContext.View, Lost, CanMake, Next, NotBegun;
      ghost var c := AsConn(false);
      ans := AnswersFor(t, f, FlushOk);
      err := TransBegin(f.beginOk);
      if !err { err, ans := DeleteBegun(t, row, cfg, f); }
      NextDml(c, Step(Delete(t, row), cfg, ans), f.beginOk, cat);
    }

    /** `delete_all_rows`: the pending rows go before the statement that may fail. */
    method DeleteAllRows(t: TableId, cfg: Settings, f: Faults) returns (err: bool, ghost ans: Answers)
      requires Valid()
      modifies this
      ensures Valid() && Did(DeleteAll(t), cfg, f, ans, err)
    {
      hide Apply, DuckdbThdContext.View, Lost, CanMake, Next, NotBegun;
      ghost var c := AsConn(false);
      ans := AnswersFor(t, f, FlushOk);
      err := TransBegin(f.beginOk);
      if !err { err, ans := DeleteAllBegun(t, cfg, f); }
      NextDml(c, Step(DeleteAll(t), cfg, ans), f.beginOk, cat);
    }

    /** `direct_update_rows` and `direct_delete_rows` flush first, so DuckDB sees every pending row. */
    method DirectStatement(t: TableId, ghost effect: Table -> Table, cfg: Settings, f: Faults)
      returns (err: bool, ghost ans: Answers)
      requires Valid()
      modifies this, appenders.Values
      ensures Valid() && Did(Direct(t, effect), cfg, f, ans, err)
    {
      hide Apply, DuckdbThdContext.View, Lost, CanMake, Next, NotBegun;
      ghost var c := AsConn(false);
      ans := AnswersFor(t, f, FlushOk);
      err := TransBegin(f.beginOk);
      if !err { err, ans := DirectBegun(t, effect, cfg, f); }
      NextDml(c, Step(Direct(t, effect), cfg, ans), f.beginOk, cat);
    }

    /** `rnd_init`: flush, SELECT, widen the write set.  It opens no transaction. */
    method RndInit(t: TableId, cfg: Settings, f: Faults) returns (err: bool, ghost ans: Answers)
      requires Valid()
      modifies this, appenders.Values
      ensures Valid() && Did(Scan(t), cfg, f, ans, err)
    {
      hide Apply, DuckdbThdContext.View, Lost, CanMake, Next, NotBegun;
      ghost var c := AsConn(false);
      err, ans := ScanSession(t, cfg, f);
      NextScan(c, t, cfg, ans, f.beginOk, cat);
    }

    // ----- transaction ends -----

    /** `duckdb_trans_rollback`. */
    method TransRollback(ok: bool) returns (err: bool)
      modifies this
      ensures Valid() && (err <==> old(active) && !ok)
      ensures AsConn(err) == Transactions.TransRollback(old(AsConn(false)), ok)
    {
      appenders := map[];
      if active && !ok { return true; }
      active, batchState, work, err := false, Undefined, map[], false;
    }

    /** `duckdb_prepare`. */
    method Prepare(stops: map<TableId, FlushPoint>) returns (err: bool, ghost flush: FlushAnswer)
      requires Valid()
      modifies this, appenders.Values
      ensures Valid() && AsConn(err) == Next(old(AsConn(false)), Transactions.Prepare(flush), cat)
      ensures old(Lost()) != {} ==> err
      ensures stops == map[] && old(Lost()) == {} ==> !err && flush.FlushOk?
    {
      hide FlushTo, Lost;
      err, flush := FlushAppenders(stops);
    }

    /** `duckdb_commit`: flush, then COMMIT, and roll back when either fails.  `due` says that
        the rollback failed too.  While an appender has lost its temporary table nothing is
        published. */
    method Commit(stops: map<TableId, FlushPoint>, commitOk: bool, rollbackOk: bool)
      returns (err: bool, due: bool, ghost flush: FlushAnswer)
      requires Valid()
      modifies this, appenders.Values
      ensures Valid() && (err <==> Stopped(old(View()), flush) || (old(active) && !commitOk))
      ensures AsConn(due) == Next(old(AsConn(false)), Transactions.Commit(flush, commitOk, rollbackOk), cat)
      ensures forall t :: TableOf(committed, t) == if !err && old(active) then Visible(old(View()), t, cat)
                                                   else TableOf(old(committed), t)
      ensures old(Lost()) != {} ==> err && committed == old(committed)
      ensures stops == map[] && old(Lost()) == {} ==> flush.FlushOk? && (err <==> old(active) && !commitOk)
    {
      hide Visible, PartlyFlushed, AbortedFlush, Lost;
      ghost var s0 := View();
      err, flush := FlushAppenders(stops);
      due := false;
      forall t ensures TableOf(FlushAll(s0, cat).work, t) == Visible(s0, t, cat) {
        FlushAllShows(s0, t, cat);
      }
      if !err && active && commitOk {
        committed, active, work := work, false, map[];
      } else if err || active {
        due := TransRollback(rollbackOk);
        err := true;
      }
    }
  }

  lemma FlushAllShows(s: Session, t: TableId, cat: Catalog)
    ensures TableOf(FlushAll(s, cat).work, t) == Visible(s, t, cat)
  {
    hide Flushed;
  }

  lemma NextDml(c: Conn, step: Step, beginOk: bool, cat: Catalog)
    requires Registers(c.s, step.op)
    ensures NotBegun(c, step.op, beginOk) <==> !c.active && !beginOk
    ensures Next(c, Dml(step, beginOk), cat)
         == if !c.active && !beginOk then c else Begin(c).(s := Apply(Current(c), step, cat).s)
  {
  }

  lemma SameWriteSets(c: Conn, t: TableId, after: Row, injected: bool)
    ensures Rejected(Current(c), t, after, injected) == Rejected(c.s, t, after, injected)
  {
  }

  lemma RefusedRow(c: Conn, t: TableId, before: Row, after: Row, cfg: Settings, ans: Answers, beginOk: bool,
                   cat: Catalog)
    requires Rejected(c.s, t, after, true)
    ensures var step := Step(Update(t, before, after, true), cfg, ans);
            Next(c, Dml(step, beginOk), cat) == c && !Apply(Current(c), step, cat).ok
  {
    SameWriteSets(c, t, after, true);
    hide Rejected;
  }

  lemma NextScan(c: Conn, t: TableId, cfg: Settings, ans: Answers, beginOk: bool, cat: Catalog)
    ensures var step := Step(Scan(t), cfg, ans);
            && !NotBegun(c, Scan(t), beginOk)
            && Next(c, Dml(step, beginOk), cat) == c.(s := Apply(c.s, step, cat).s)
            && Apply(Current(c), step, cat).ok == Apply(c.s, step, cat).ok
  {
    hide PartlyFlushed, AbortedFlush;
  }

  lemma NarrowKeepsTables(s: Session, t: TableId, before: Row, after: Row, cfg: Settings)
    ensures Narrow(s, t, before, after, cfg).work == s.work
  {
  }

  lemma WithDeltaAgain(s: Session, t: TableId, d: Delta, e: Delta)
    ensures WithDelta(WithDelta(s, t, d), t, e) == WithDelta(s, t, e)
  {
  }

  lemma FlushOneMore(s: Session, done: set<TableId>, t: TableId, cat: Catalog)
    requires t in s.deltas && t !in done
    ensures TableOf(PartlyFlushed(s, done, cat), t) == TableOf(s.work, t)
    ensures PartlyFlushed(s, done + {t}, cat)
         == PartlyFlushed(s, done, cat)[t := Flushed(TableOf(s.work, t), s.deltas[t], cat(t))]
  {
    hide Flushed;
  }
}
