/** Streaming a MariaDB SELECT into DuckDB chunks: a coroutine fills a fixed-size buffer and
    yields when it is full; the scan function resumes it once per chunk.  The direct scan
    fills each chunk itself. */
module FiberScan {
  import opened Common

  /** The chunks DuckDB should see: full ones, then a shorter one if rows are left over. */
  function Stream<T>(rows: seq<T>, capacity: nat): (chunks: seq<seq<T>>)
    requires capacity >= 1
  {
    if rows == [] then []
    else if |rows| <= capacity then [rows]
    else [rows[..capacity]] + Stream(rows[capacity..], capacity)
  }

  function Flatten<T>(chunks: seq<seq<T>>): seq<T> {
    if chunks == [] then [] else chunks[0] + Flatten(chunks[1..])
  }

  /** Nothing is lost or repeated, no chunk exceeds the capacity, and only the last may be short. */
  lemma {:induction false} StreamIsExact<T>(rows: seq<T>, capacity: nat)
    requires capacity >= 1
    ensures Flatten(Stream(rows, capacity)) == rows
    ensures forall i :: 0 <= i < |Stream(rows, capacity)| ==>
              && 1 <= |Stream(rows, capacity)[i]| <= capacity
              && (i + 1 < |Stream(rows, capacity)| ==> |Stream(rows, capacity)[i]| == capacity)
  {
    if |rows| > capacity {
      StreamIsExact(rows[capacity..], capacity);
      var tail := Stream(rows[capacity..], capacity);
      assert Stream(rows, capacity)[1..] == tail;
      assert rows == rows[..capacity] + rows[capacity..];
    } else if rows != [] {
      assert Flatten([rows]) == rows + Flatten([]) == rows;
    }
  }

  /** `n` rows fill whole chunks. */
  predicate Whole(n: nat, capacity: nat)
    requires capacity >= 1
  {
    n == 0 || (n >= capacity && Whole(n - capacity, capacity))
  }

  /** Appending one chunk to a stream that has delivered whole chunks so far. */
  lemma {:induction false} StreamStep<T>(rows: seq<T>, n: nat, m: nat, capacity: nat)
    requires capacity >= 1 && Whole(n, capacity) && n < m <= |rows|
    requires m == n + capacity || (m < n + capacity && m == |rows|)
    ensures Stream(rows[..m], capacity) == Stream(rows[..n], capacity) + [rows[n..m]]
    decreases n
  {
    if n == 0 {
      assert rows[..n] == [] && rows[..m] == rows[0..m];
    } else {
      var rest := rows[capacity..];
      StreamStep(rest, n - capacity, m - capacity, capacity);
      assert rows[..m][capacity..] == rest[..m - capacity];
      assert rest[n - capacity..m - capacity] == rows[n..m];
      assert rows[..m][..capacity] == rows[..capacity];
      if n > capacity {
        assert rows[..n][capacity..] == rest[..n - capacity] && rows[..n][..capacity] == rows[..capacity];
      } else {
        assert rows[..n] == rows[..capacity] && rest[..0] == [];
      }
    }
  }

  /** The coroutine: select_to_duckdb and FiberScanState.  `rows` is what the SELECT yields and
      `failAt` the row at which its execution reports an error, if it does. */
  class Fiber<T> {
    const rows: seq<T>
    const failAt: Option<nat>
    const capacity: nat
    var slots: seq<T>
    var size: nat
    var rowCount: nat
    var pos: nat
    var started: bool
    var finished: bool
    var error: bool

    /** Where a suspended fiber is: `pos` rows have been sent and none is held back. */
    ghost predicate Suspended()
      reads this
    {
      capacity >= 1 && !finished && !error && rowCount == 0 && pos <= Reach() && Whole(pos, capacity)
    }

    /** The rows the SELECT gets through. */
    function Reach(): nat {
      if failAt.Some? && failAt.value < |rows| then failAt.value else |rows|
    }

    predicate Fails() {
      failAt.Some? && failAt.value <= |rows|
    }

    constructor (rows: seq<T>, failAt: Option<nat>, capacity: nat)
      requires capacity >= 1
      ensures Suspended() && pos == 0 && !started && size == 0
      ensures this.rows == rows && this.failAt == failAt && this.capacity == capacity
    {
      this.rows, this.failAt, this.capacity := rows, failAt, capacity;
      slots, size, rowCount, pos := [], 0, 0, 0;
      started, finished, error := false, false, false;
    }

    /** send_data: one row into the buffer; true when the fiber yields with a full chunk. */
    method SendData(row: T) returns (yielded: bool)
      requires capacity >= 1 && rowCount <= |slots| && rowCount < capacity
      modifies `slots, `size, `rowCount
      ensures slots == old(slots)[..old(rowCount)] + [row]
      ensures yielded <==> old(rowCount) + 1 == capacity
      ensures if yielded then size == capacity && rowCount == 0 else size == old(size) && rowCount == old(rowCount) + 1
    {
      slots := slots[..rowCount] + [row];
      rowCount := rowCount + 1;
      yielded := rowCount >= capacity;
      if yielded {
        size, rowCount := rowCount, 0;
      }
    }

    /** send_eof. */
    method SendEof()
      requires rowCount <= |slots|
      modifies `size, `rowCount, `finished
      ensures finished && rowCount == 0 && size == if old(rowCount) > 0 then old(rowCount) else old(size)
    {
      if rowCount > 0 {
        size, rowCount := rowCount, 0;
      }
      finished := true;
    }

    /** From one resumption to the next yield, or to the end of fiber_scan_func. */
    method Resume()
      requires Suspended() && size == 0
      modifies this
      ensures started == old(started) && old(pos) <= pos <= Reach() && size <= |slots|
      ensures slots[..size] == if error then [] else rows[old(pos)..pos]
      ensures if pos == old(pos) + capacity && !finished then Suspended() && size == capacity
              else finished && pos == Reach() && pos < old(pos) + capacity && (error <==> Fails())
    {
      while pos < |rows|
        invariant old(pos) <= pos <= Reach() && pos < old(pos) + capacity
        invariant rowCount == pos - old(pos) <= |slots| && slots[..rowCount] == rows[old(pos)..pos]
        invariant !finished && !error && size == 0 && started == old(started)
        decreases |rows| - pos
      {
        if failAt == Some(pos) {
          error, finished := true, true;
          return;
        }
        assert rows[old(pos)..pos + 1] == rows[old(pos)..pos] + [rows[pos]];
        var yielded := SendData(rows[pos]);
        assert slots[..|slots|] == slots;
        pos := pos + 1;
        if yielded {
          return;
        }
      }
      if failAt == Some(|rows|) {
        error, finished := true, true;
        return;
      }
      SendEof();
    }
  }

  /** mdb_scan_function over a fiber: one chunk per call.  The first call initialises the fiber. */
  class FiberReader<T> {
    const initOk: bool
    const fiber: Fiber<T>
    var scanStarted: bool
    var finished: bool

    ghost predicate Valid()
      reads this, fiber
    {
      && fiber.capacity >= 1 && (!finished ==> fiber.Suspended() && (!fiber.started ==> fiber.size == 0))
      && (scanStarted ==> initOk)
    }

    constructor (rows: seq<T>, failAt: Option<nat>, capacity: nat, initOk: bool)
      requires capacity >= 1
      ensures Valid() && !finished && fresh(fiber) && fiber.pos == 0 && this.initOk == initOk
      ensures fiber.rows == rows && fiber.failAt == failAt && fiber.capacity == capacity
    {
      fiber := new Fiber(rows, failAt, capacity);
      this.initOk, scanStarted, finished := initOk, false, false;
    }

    /** An execution error is thrown to DuckDB, never mistaken for the end of the rows; a failed
        initialisation is. */
    method NextChunk() returns (chunk: seq<T>, threw: bool)
      requires Valid()
      modifies this, fiber
      ensures Valid()
      ensures old(finished) ==> chunk == [] && !threw && finished
      ensures !old(finished) && !initOk ==> chunk == [] && !threw && finished && fiber.pos == old(fiber.pos)
      ensures !old(finished) && initOk ==>
        var p, n := old(fiber.pos), fiber.pos;
        && p <= n <= fiber.Reach() && n <= p + fiber.capacity
        && (threw <==> n < p + fiber.capacity && fiber.Fails())
        && (finished <==> n < p + fiber.capacity) && (finished ==> n == fiber.Reach())
        && chunk == (if threw then [] else fiber.rows[p..n]) && scanStarted
    {
      chunk, threw := [], false;
      if finished { return; }
      if !scanStarted {
        if !initOk {
          finished := true;
          return;
        }
        scanStarted := true;
      }
      if !fiber.started {
        fiber.Resume();
        fiber.started := true;
      } else {
        fiber.size := 0;
        fiber.Resume();
      }
      if fiber.error {
        finished := true;
        return [], true;
      }
      if fiber.size > 0 {
        chunk := fiber.slots[..fiber.size];
        if fiber.finished { finished := true; }
      } else {
        finished := true;
      }
    }
  }

  /** DuckDB asks for chunks until it gets an empty one.  It receives exactly the stream of the
      rows; or, when the SELECT fails, the whole chunks before the failure and an exception.  When
      the fiber cannot be initialised it receives nothing and no exception: so the rows are
      delivered or the failure is reported exactly when the fiber starts or there are no rows. */
  method DrainFiber<T>(rows: seq<T>, failAt: Option<nat>, capacity: nat, initOk: bool)
    returns (chunks: seq<seq<T>>, threw: bool)
    requires capacity >= 1
    ensures threw <==> initOk && failAt.Some? && failAt.value <= |rows|
    ensures !threw ==> chunks == if initOk then Stream(rows, capacity) else []
    ensures threw ==> exists n: nat ::
              n <= failAt.value < n + capacity && Whole(n, capacity) && chunks == Stream(rows[..n], capacity)
    ensures threw || chunks == Stream(rows, capacity) <==> initOk || rows == []
  {
    var scan := new FiberReader(rows, failAt, capacity, initOk);
    chunks, threw := [], false;
    ghost var sent := 0;
    while true
      invariant fresh(scan) && fresh(scan.fiber) && scan.Valid() && !threw && scan.initOk == initOk
      invariant !initOk ==> sent == 0
      invariant scan.fiber.rows == rows && scan.fiber.failAt == failAt && scan.fiber.capacity == capacity
      invariant sent == scan.fiber.pos <= |rows| && chunks == Stream(rows[..sent], capacity)
      invariant if scan.finished then initOk && sent == |rows| && !scan.fiber.Fails() else Whole(sent, capacity)
      decreases !scan.finished, |rows| - sent
    {
      var chunk;
      chunk, threw := scan.NextChunk();
      if threw { return; }
      if chunk == [] {
        assert rows[..|rows|] == rows;
        return;
      }
      StreamStep(rows, sent, scan.fiber.pos, capacity);
      chunks, sent := chunks + [chunk], scan.fiber.pos;
    }
  }

  /** The fallback without a fiber: the chunk is filled row by row from the handler, and any error
      of the handler, in opening the scan or in reading a row, ends it like the end of the table. */
  class DirectReader<T> {
    const rows: seq<T>
    const failAt: Option<nat>
    const capacity: nat
    const initOk: bool
    var inited: bool
    var pos: nat
    var finished: bool

    /** The rows the handler gets through. */
    function Reach(): nat {
      if !initOk then 0 else if failAt.Some? && failAt.value < |rows| then failAt.value else |rows|
    }

    constructor (rows: seq<T>, failAt: Option<nat>, capacity: nat, initOk: bool)
      ensures pos == 0 && !finished && !inited
      ensures this.rows == rows && this.failAt == failAt && this.capacity == capacity && this.initOk == initOk
    {
      this.rows, this.failAt, this.capacity, this.initOk := rows, failAt, capacity, initOk;
      pos, finished, inited := 0, false, false;
    }

    method NextChunk() returns (chunk: seq<T>)
      requires pos <= Reach() && capacity >= 1 && (inited ==> initOk)
      modifies this
      ensures inited ==> initOk
      ensures old(finished) ==> chunk == [] && finished
      ensures !old(finished) ==> old(pos) <= pos <= Reach() && chunk == rows[old(pos)..pos]
      ensures !old(finished) ==> if finished then pos == Reach() < old(pos) + capacity else pos == old(pos) + capacity
    {
      chunk := [];
      if finished { return; }
      if !inited {
        if !initOk {
          finished := true;
          return;
        }
        inited := true;
      }
      var count := 0;
      while count < capacity
        invariant 0 <= count <= capacity && pos == old(pos) + count <= Reach() && inited
        invariant chunk == rows[old(pos)..pos] && !finished
      {
        if pos == Reach() {
          finished := true;
          break;
        }
        chunk := chunk + [rows[pos]];
        count, pos := count + 1, pos + 1;
      }
    }
  }

  /** The direct scan delivers the same chunks as the fiber when nothing fails; when the handler
      fails after `n` rows it delivers the stream of those rows and reports nothing.  It delivers
      everything exactly when no error comes before the end. */
  method DrainDirect<T>(rows: seq<T>, failAt: Option<nat>, capacity: nat, initOk: bool) returns (chunks: seq<seq<T>>)
    requires capacity >= 1
    ensures var n := if !initOk then 0 else if failAt.Some? && failAt.value < |rows| then failAt.value else |rows|;
            chunks == Stream(rows[..n], capacity)
    ensures chunks == Stream(rows, capacity) <==> rows == [] || (initOk && (failAt.Some? ==> failAt.value >= |rows|))
  {
    var scan := new DirectReader(rows, failAt, capacity, initOk);
    chunks := [];
    ghost var reach := rows[..scan.Reach()];
    ghost var sent := 0;
    StreamIsExact(rows, capacity);
    StreamIsExact(reach, capacity);
    while true
      invariant fresh(scan) && scan.rows == rows && scan.failAt == failAt && scan.capacity == capacity
      invariant scan.initOk == initOk && (scan.inited ==> initOk)
      invariant sent == scan.pos <= scan.Reach() && chunks == Stream(reach[..sent], capacity)
      invariant if scan.finished then sent == scan.Reach() else Whole(sent, capacity)
      decreases !scan.finished, |reach| - sent
    {
      var chunk := scan.NextChunk();
      if chunk == [] {
        assert reach[..|reach|] == reach && rows[..|rows|] == rows;
        return;
      }
      StreamStep(reach, sent, scan.pos, capacity);
      assert chunk == reach[sent..scan.pos];
      chunks, sent := chunks + [chunk], scan.pos;
    }
  }
}
