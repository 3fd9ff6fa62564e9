/** The AUTO_INCREMENT block cache: a {next, end} pair claimed by compare-and-swap and
    refilled, under a mutex, from a DuckDB sequence that writers outside MariaDB draw from
    too.  Any number of threads, one atomic step at a time. */
module AutoIncrement {
  import opened Common

  const TWO_64: nat := 0x1_0000_0000_0000_0000
  const TWO_63: nat := 0x8000_0000_0000_0000

  /** Unsigned 64-bit arithmetic, as the code computes it. */
  function Add64(a: nat, b: nat): nat { (a + b) % TWO_64 }
  function Sub64(a: nat, b: nat): nat { (a - b) % TWO_64 }
  function Mul64(a: nat, b: nat): nat { (a * b) % TWO_64 }

  function Max(a: nat, b: nat): nat { if a < b then b else a }

  type Tid = nat

  datatype Range = Range(next: nat, end: nat)

  /** What a caller asked for: `nb` values on a grid of step `increment`. */
  datatype Request = Request(nb: nat, increment: nat) {
    function Need(): nat { Mul64(nb, increment) }
  }

  /** Where a thread is in get_auto_increment. */
  datatype Pc =
    | Outside
    | Loaded(req: Request, cur: Range)
    | Locked(req: Request)
    | Drawing(req: Request, want: nat, attempt: nat, drawn: seq<nat>)
    | Storing(req: Request, want: nat, first: nat)
    | Unlocking

  /** Ids [start, stop) handed to one caller. */
  datatype Claim = Claim(req: Request, start: nat, stop: nat)

  /** `inside` and `outside` are the sequence values drawn by refills and by other writers;
      `failed` are the calls that were told ULONGLONG_MAX. */
  datatype State = State(
    range: Range, mutex: Option<Tid>, threads: map<Tid, Pc>,
    last: nat, inside: set<nat>, outside: set<nat>, claims: seq<Claim>, failed: seq<Request>)

  const INITIAL := State(Range(0, 0), None, map[], 0, {}, {}, [], [])

  function At(s: State, t: Tid): Pc {
    if t in s.threads then s.threads[t] else Outside
  }

  function Goto(s: State, t: Tid, pc: Pc): State {
    s.(threads := s.threads[t := pc])
  }

  datatype Action =
    | Call(t: Tid, req: Request)
    | TryClaim(t: Tid, spurious: bool)
    | Lock(t: Tid)
    | Recheck(t: Tid, cacheSize: nat)
    | Draw(t: Tid, v: nat)
    | Decide(t: Tid)
    | QueryFails(t: Tid)
    | Store(t: Tid)
    | Unlock(t: Tid)
    | DrawOutside(v: nat)

  /** The sequence is only assumed to hand out increasing positive 63-bit values. */
  predicate Fresh(s: State, v: nat) {
    s.last < v < TWO_63
  }

  predicate Enabled(s: State, a: Action) {
    match a
    case Call(t, req) => At(s, t).Outside? && 1 <= req.increment < TWO_64 && req.nb < TWO_64
    case TryClaim(t, _) =>
      At(s, t).Loaded? && Sub64(At(s, t).cur.end, At(s, t).cur.next) >= At(s, t).req.Need()
    case Lock(t) =>
      At(s, t).Loaded? && Sub64(At(s, t).cur.end, At(s, t).cur.next) < At(s, t).req.Need() && s.mutex == None
    case Recheck(t, cacheSize) => At(s, t).Locked? && cacheSize >= 1
    case Draw(t, v) => At(s, t).Drawing? && |At(s, t).drawn| < At(s, t).want && Fresh(s, v)
    case Decide(t) => At(s, t).Drawing? && |At(s, t).drawn| == At(s, t).want
    case QueryFails(t) => At(s, t).Drawing?
    case Store(t) => At(s, t).Storing?
    case Unlock(t) => At(s, t).Unlocking?
    case DrawOutside(v) => Fresh(s, v)
  }

  function Claimed(s: State, req: Request, start: nat): State {
    s.(claims := s.claims + [Claim(req, start, Add64(start, req.Need()))])
  }

  function Failed(s: State, req: Request): State {
    s.(failed := s.failed + [req])
  }

  function Next(s: State, a: Action): State
    requires Enabled(s, a)
  {
    match a
    case Call(t, req) =>
      if req.Need() / req.increment != req.nb then Failed(s, req) else Goto(s, t, Loaded(req, s.range))
    case TryClaim(t, spurious) =>
      var pc := At(s, t);
      if s.range == pc.cur && !spurious then
        var rest := Range(Add64(pc.cur.next, pc.req.Need()), pc.cur.end);
        Goto(Claimed(s.(range := rest), pc.req, pc.cur.next), t, Outside)
      else Goto(s, t, pc.(cur := s.range))
    case Lock(t) => Goto(s.(mutex := Some(t)), t, Locked(At(s, t).req))
    case Recheck(t, cacheSize) =>
      var req := At(s, t).req;
      if Sub64(s.range.end, s.range.next) >= req.Need() then Goto(s.(mutex := None), t, Loaded(req, s.range))
      else Goto(s, t, Drawing(req, Max(req.Need(), cacheSize), 0, []))
    case Draw(t, v) =>
      var pc := At(s, t);
      Goto(s.(last := v, inside := s.inside + {v}), t, pc.(drawn := pc.drawn + [v]))
    case Decide(t) =>
      var pc := At(s, t);
      // the draws increase, so the query's min and max are the first and the last
      if pc.want > 0 && Add64(Sub64(pc.drawn[pc.want - 1], pc.drawn[0]), 1) == pc.want then
        Goto(s, t, Storing(pc.req, pc.want, pc.drawn[0]))
      else if pc.attempt + 1 < 3 then Goto(s, t, Drawing(pc.req, pc.want, pc.attempt + 1, []))
      else Goto(Failed(s, pc.req), t, Unlocking)
    case QueryFails(t) => Goto(Failed(s, At(s, t).req), t, Unlocking)
    case Store(t) =>
      var pc := At(s, t);
      var block := Range(Add64(pc.first, pc.req.Need()), Add64(pc.first, pc.want));
      Goto(Claimed(s.(range := block), pc.req, pc.first), t, Unlocking)
    case Unlock(t) => Goto(s.(mutex := None), t, Outside)
    case DrawOutside(v) => s.(last := v, outside := s.outside + {v})
  }

  ghost predicate IsRun(states: seq<State>, actions: seq<Action>) {
    && |states| == |actions| + 1 && states[0] == INITIAL
    && forall i :: 0 <= i < |actions| ==> Enabled(states[i], actions[i]) && states[i + 1] == Next(states[i], actions[i])
  }

  // ----- invariant -----

  ghost predicate AllInside(s: State, lo: nat, hi: nat) {
    forall i :: lo <= i < hi ==> i in s.inside
  }

  ghost predicate Increasing(xs: seq<nat>) {
    forall i, j :: 0 <= i < j < |xs| ==> xs[i] < xs[j]
  }

  ghost predicate RequestInv(req: Request) {
    req.increment >= 1 && req.nb * req.increment < TWO_64
  }

  /** The mutex is held exactly in the refill states, and a refill in progress lies above the cached block. */
  ghost predicate ThreadInv(s: State, t: Tid) {
    var pc := At(s, t);
    && (s.mutex == Some(t) <==> pc.Locked? || pc.Drawing? || pc.Storing? || pc.Unlocking?)
    && (pc.Loaded? || pc.Locked? || pc.Drawing? || pc.Storing? ==> RequestInv(pc.req))
    && (pc.Loaded? ==> pc.cur.next <= pc.cur.end <= s.range.end && pc.cur.next <= s.range.next)
    && (pc.Drawing? ==>
          && 1 <= pc.want && pc.req.Need() <= pc.want && |pc.drawn| <= pc.want && Increasing(pc.drawn)
          && forall i :: 0 <= i < |pc.drawn| ==> pc.drawn[i] in s.inside && s.range.end <= pc.drawn[i] <= s.last)
    && (pc.Storing? ==>
          && 1 <= pc.want && pc.req.Need() <= pc.want && s.range.end <= pc.first && pc.first + pc.want <= s.last + 1
          && AllInside(s, pc.first, pc.first + pc.want))
  }

  ghost predicate SequenceInv(s: State) {
    && s.last < TWO_63 && s.inside !! s.outside
    && (forall v :: v in s.inside || v in s.outside ==> v <= s.last)
  }

  ghost predicate ClaimsInv(s: State) {
    && s.range.next <= s.range.end <= s.last + 1
    && AllInside(s, s.range.next, s.range.end)
    && (forall i :: 0 <= i < |s.claims| ==>
          && RequestInv(s.claims[i].req) && s.claims[i].stop == s.claims[i].start + s.claims[i].req.Need()
          && s.claims[i].stop <= s.range.next
          && AllInside(s, s.claims[i].start, s.claims[i].stop))
    && (forall i, j :: 0 <= i < j < |s.claims| ==> s.claims[i].stop <= s.claims[j].start)
  }

  ghost predicate Inv(s: State) {
    && SequenceInv(s) && ClaimsInv(s)
    && forall t :: ThreadInv(s, t)
  }

  lemma {:induction false} GridStep(k: nat, l: nat, increment: nat)
    requires k < l
    ensures k * increment + increment <= l * increment
  {
    assert l * increment == (l - 1) * increment + increment;
    if k + 1 < l { GridStep(k, l - 1, increment); }
  }

  lemma DivOfProduct(n: nat, d: nat)
    requires d >= 1
    ensures n * d / d == n
  {
    var q, r := n * d / d, n * d % d;
    assert n * d == q * d + r;
    if q < n { GridStep(q, n, d); }
    if n < q { GridStep(n, q, d); }
  }

  lemma QuotientBound(a: nat, d: nat)
    requires d >= 1
    ensures a / d * d <= a
  {
  }

  /** The overflow test of the code is exact. */
  lemma OverflowTestIsExact(req: Request)
    requires 1 <= req.increment
    ensures req.Need() / req.increment == req.nb <==> req.nb * req.increment < TWO_64
    ensures req.nb * req.increment < TWO_64 ==> req.Need() == req.nb * req.increment
  {
    var p := req.nb * req.increment;
    assert req.Need() == p % TWO_64;
    if p < TWO_64 {
      DivOfProduct(req.nb, req.increment);
    } else {
      QuotientBound(req.Need(), req.increment);
    }
  }

  /** `want` increasing values that span `want` ids are consecutive: no other writer got in between. */
  lemma SpanIsExact(xs: seq<nat>, i: nat)
    requires Increasing(xs) && i < |xs| && xs[|xs| - 1] - xs[0] + 1 == |xs|
    ensures xs[i] == xs[0] + i
  {
    SpanLower(xs, i);
    SpanUpper(xs, i);
  }

  lemma {:induction false} SpanLower(xs: seq<nat>, i: nat)
    requires Increasing(xs) && i < |xs|
    ensures xs[0] + i <= xs[i]
  {
    if i > 0 { SpanLower(xs, i - 1); }
  }

  lemma {:induction false} SpanUpper(xs: seq<nat>, i: nat)
    requires Increasing(xs) && i < |xs|
    ensures xs[i] + (|xs| - 1 - i) <= xs[|xs| - 1]
    decreases |xs| - i
  {
    if i + 1 < |xs| { SpanUpper(xs, i + 1); }
  }

  // ----- every step keeps the invariant -----

  /** What a step of another thread may change under thread `u`. */
  ghost predicate Untouched(s: State, s1: State, u: Tid) {
    && At(s1, u) == At(s, u) && (s1.mutex == Some(u) <==> s.mutex == Some(u))
    && s.inside <= s1.inside && s.last <= s1.last
    && s.range.next <= s1.range.next && s.range.end <= s1.range.end
    && (s.mutex == Some(u) ==> s1.range.end == s.range.end)
  }

  lemma OtherThreads(s: State, s1: State, t: Tid)
    requires Inv(s) && ThreadInv(s1, t)
    requires forall u :: u != t ==> Untouched(s, s1, u)
    ensures forall u :: ThreadInv(s1, u)
  {
    forall u ensures ThreadInv(s1, u) {
      if u != t {
        assert ThreadInv(s, u) && Untouched(s, s1, u);
      }
    }
  }

  lemma CallKeepsInv(s: State, t: Tid, req: Request)
    requires Inv(s) && Enabled(s, Call(t, req))
    ensures Inv(Next(s, Call(t, req)))
  {
    OverflowTestIsExact(req);
    assert ThreadInv(s, t);
    OtherThreads(s, Next(s, Call(t, req)), t);
  }

  /** A new claim goes above all others and below what stays cached. */
  lemma AddClaim(s: State, s1: State, c: Claim)
    requires ClaimsInv(s) && s1.claims == s.claims + [c] && s1.inside == s.inside && s1.last == s.last
    requires RequestInv(c.req) && c.stop == c.start + c.req.Need() && AllInside(s, c.start, c.stop)
    requires s.range.next <= c.start && c.stop <= s1.range.next <= s1.range.end <= s1.last + 1
    requires AllInside(s1, s1.range.next, s1.range.end)
    ensures ClaimsInv(s1)
  {
    hide Mul64, RequestInv;
  }

  lemma TryClaimKeepsInv(s: State, t: Tid, spurious: bool)
    requires Inv(s) && Enabled(s, TryClaim(t, spurious))
    ensures Inv(Next(s, TryClaim(t, spurious)))
  {
    hide Mul64, RequestInv;
    assert ThreadInv(s, t);
    var pc := At(s, t);
    assert Sub64(pc.cur.end, pc.cur.next) == pc.cur.end - pc.cur.next;
    var s1 := Next(s, TryClaim(t, spurious));
    if s1.claims != s.claims { AddClaim(s, s1, s1.claims[|s.claims|]); }
    OtherThreads(s, s1, t);
  }

  lemma LockKeepsInv(s: State, t: Tid)
    requires Inv(s) && Enabled(s, Lock(t))
    ensures Inv(Next(s, Lock(t)))
  {
    assert ThreadInv(s, t);
    OtherThreads(s, Next(s, Lock(t)), t);
  }

  lemma RecheckKeepsInv(s: State, t: Tid, cacheSize: nat)
    requires Inv(s) && Enabled(s, Recheck(t, cacheSize))
    ensures Inv(Next(s, Recheck(t, cacheSize)))
  {
    assert ThreadInv(s, t);
    OtherThreads(s, Next(s, Recheck(t, cacheSize)), t);
  }

  lemma DrawKeepsInv(s: State, t: Tid, v: nat)
    requires Inv(s) && Enabled(s, Draw(t, v))
    ensures Inv(Next(s, Draw(t, v)))
  {
    assert ThreadInv(s, t);
    OtherThreads(s, Next(s, Draw(t, v)), t);
  }

  lemma SpanWidth(hi: nat, lo: nat)
    requires lo <= hi < TWO_63
    ensures Add64(Sub64(hi, lo), 1) == hi - lo + 1
  {
  }

  /** An accepted block is exactly the ids drawn for it. */
  lemma BlockIsInside(s: State, drawn: seq<nat>)
    requires |drawn| > 0 && Increasing(drawn) && drawn[|drawn| - 1] - drawn[0] + 1 == |drawn|
    requires forall i :: 0 <= i < |drawn| ==> drawn[i] in s.inside
    ensures AllInside(s, drawn[0], drawn[0] + |drawn|)
  {
    forall i | drawn[0] <= i < drawn[0] + |drawn| ensures i in s.inside {
      SpanIsExact(drawn, i - drawn[0]);
    }
  }

  lemma DecideKeepsInv(s: State, t: Tid)
    requires Inv(s) && Enabled(s, Decide(t))
    ensures Inv(Next(s, Decide(t)))
  {
    assert ThreadInv(s, t);
    var pc, s1 := At(s, t), Next(s, Decide(t));
    SpanWidth(pc.drawn[pc.want - 1], pc.drawn[0]);
    if At(s1, t).Storing? { BlockIsInside(s, pc.drawn); }
    OtherThreads(s, s1, t);
  }

  /** The claim of a refill starts above everything claimed or cached before. */
  lemma StoreKeepsClaims(s: State, t: Tid)
    requires Inv(s) && Enabled(s, Store(t))
    ensures var s1 := Next(s, Store(t));
            SequenceInv(s1) && ClaimsInv(s1) && s.range.end <= s1.range.next && s1.range.end <= s1.last + 1
  {
    hide Mul64, RequestInv;
    assert ThreadInv(s, t);
    var s1 := Next(s, Store(t));
    AddClaim(s, s1, s1.claims[|s.claims|]);
  }

  lemma StoreKeepsInv(s: State, t: Tid)
    requires Inv(s) && Enabled(s, Store(t))
    ensures Inv(Next(s, Store(t)))
  {
    StoreKeepsClaims(s, t);
    assert ThreadInv(s, t) && s.range.next <= s.range.end;
    hide Mul64, RequestInv, ClaimsInv, SequenceInv;
    OtherThreads(s, Next(s, Store(t)), t);
  }

  lemma UnlockKeepsInv(s: State, a: Action)
    requires Inv(s) && Enabled(s, a) && (a.Unlock? || a.QueryFails?)
    ensures Inv(Next(s, a))
  {
    assert ThreadInv(s, a.t);
    OtherThreads(s, Next(s, a), a.t);
  }

  lemma DrawOutsideKeepsInv(s: State, v: nat)
    requires Inv(s) && Enabled(s, DrawOutside(v))
    ensures Inv(Next(s, DrawOutside(v)))
  {
    var s1 := Next(s, DrawOutside(v));
    forall u ensures ThreadInv(s1, u) {
      assert ThreadInv(s, u);
    }
  }

  lemma NextKeepsInv(s: State, a: Action)
    requires Inv(s) && Enabled(s, a)
    ensures Inv(Next(s, a))
  {
    match a
    case Call(t, req) => CallKeepsInv(s, t, req);
    case TryClaim(t, spurious) => TryClaimKeepsInv(s, t, spurious);
    case Lock(t) => LockKeepsInv(s, t);
    case Recheck(t, cacheSize) => RecheckKeepsInv(s, t, cacheSize);
    case Draw(t, v) => DrawKeepsInv(s, t, v);
    case Decide(t) => DecideKeepsInv(s, t);
    case QueryFails(_) => UnlockKeepsInv(s, a);
    case Store(t) => StoreKeepsInv(s, t);
    case Unlock(_) => UnlockKeepsInv(s, a);
    case DrawOutside(v) => DrawOutsideKeepsInv(s, v);
  }

  lemma {:induction false} RunsKeepInv(states: seq<State>, actions: seq<Action>, i: nat)
    requires IsRun(states, actions) && i < |states|
    ensures Inv(states[i])
  {
    if i > 0 {
      RunsKeepInv(states, actions, i - 1);
      NextKeepsInv(states[i - 1], actions[i - 1]);
    }
  }

  // ----- what callers get -----

  /** The server rounds the first value up to its offset/increment grid and steps from there. */
  function ServerId(c: Claim, offset: nat, k: nat): nat
    requires c.req.increment >= 1
  {
    c.start + (offset - c.start) % c.req.increment + k * c.req.increment
  }

  lemma GridMembers(start: nat, offset: nat, increment: nat, k: nat)
    requires increment >= 1
    ensures (start + (offset - start) % increment + k * increment - offset) % increment == 0
  {
    var d := offset - start;
    var q := k - d / increment;
    assert start + d % increment + k * increment - offset == q * increment;
    MultipleMod(q, increment);
  }

  lemma MultipleMod(q: int, n: nat)
    requires n >= 1
    ensures q * n % n == 0
  {
    var r := q * n % n;
    var m := q - q * n / n;
    assert m * n == r;
  }

  /** Every id the server derives from a claim is on its grid and inside the claimed interval. */
  lemma ServerIdsStayInside(s: State, i: nat, offset: nat, k: nat)
    requires Inv(s) && i < |s.claims| && k < s.claims[i].req.nb
    ensures var c := s.claims[i];
            && c.start <= ServerId(c, offset, k) < c.stop
            && (ServerId(c, offset, k) - offset) % c.req.increment == 0
  {
    var c := s.claims[i];
    GridMembers(c.start, offset, c.req.increment, k);
    GridStep(k, c.req.nb, c.req.increment);
    OverflowTestIsExact(c.req);
  }

  /** The first id is the least one on the grid that the claim holds, and the others follow in steps. */
  lemma ServerRoundsUp(c: Claim, offset: nat, y: nat, k: nat)
    requires c.req.increment >= 1
    ensures c.start <= ServerId(c, offset, 0) && (ServerId(c, offset, 0) - offset) % c.req.increment == 0
    ensures c.start <= y && (y - offset) % c.req.increment == 0 ==> ServerId(c, offset, 0) <= y
    ensures ServerId(c, offset, k) == ServerId(c, offset, 0) + k * c.req.increment
  {
    var inc, x := c.req.increment, ServerId(c, offset, 0);
    GridMembers(c.start, offset, inc, 0);
    if c.start <= y < x && (y - offset) % inc == 0 {
      var a, b := (x - offset) / inc, (y - offset) / inc;
      assert x == offset + a * inc && y == offset + b * inc;
      MultiplesApart(a, b, inc);
      assert false;
    }
  }

  lemma MultiplesApart(a: int, b: int, inc: nat)
    requires b * inc < a * inc
    ensures b * inc + inc <= a * inc
  {
    if b < a {
      NotNegative(a - b - 1, inc);
      assert (a - b - 1) * inc == a * inc - b * inc - inc;
    } else {
      NotNegative(b - a, inc);
    }
  }

  lemma NotNegative(x: nat, n: nat)
    ensures x * n >= 0
  {
  }

  lemma SameClaimIdsDiffer(c: Claim, offset: nat, k: nat, l: nat)
    requires c.req.increment >= 1 && k < l
    ensures ServerId(c, offset, k) < ServerId(c, offset, l)
  {
    GridStep(k, l, c.req.increment);
  }

  /** The main theorem.  At every point of every interleaving, no id is given out twice: ids
      of different calls, or different ids of one call, differ, whatever offsets the callers
      use; none of them was drawn by a writer outside MariaDB; and claims come in increasing
      order. */
  lemma NoIdIsGivenOutTwice(states: seq<State>, actions: seq<Action>, n: nat,
                            i: nat, j: nat, o: nat, p: nat, k: nat, l: nat)
    requires IsRun(states, actions) && n < |states|
    requires i < |states[n].claims| && j < |states[n].claims| && (i != j || (o == p && k != l))
    requires k < states[n].claims[i].req.nb && l < states[n].claims[j].req.nb
    ensures Inv(states[n])
    ensures ServerId(states[n].claims[i], o, k) != ServerId(states[n].claims[j], p, l)
    ensures ServerId(states[n].claims[i], o, k) !in states[n].outside
    ensures i < j ==> states[n].claims[i].stop <= states[n].claims[j].start
  {
    RunsKeepInv(states, actions, n);
    var s := states[n];
    ServerIdsStayInside(s, i, o, k);
    ServerIdsStayInside(s, j, p, l);
    if i == j {
      if k < l { SameClaimIdsDiffer(s.claims[i], o, k, l); } else { SameClaimIdsDiffer(s.claims[i], o, l, k); }
    }
  }

  /** In every reachable state the unsigned operations of the code do not wrap. */
  lemma NothingWraps(states: seq<State>, actions: seq<Action>, n: nat, t: Tid)
    requires IsRun(states, actions) && n < |states|
    ensures var s := states[n]; var pc := At(s, t);
      && Sub64(s.range.end, s.range.next) == s.range.end - s.range.next
      && (pc.Loaded? ==> pc.req.Need() == pc.req.nb * pc.req.increment
                         && Sub64(pc.cur.end, pc.cur.next) == pc.cur.end - pc.cur.next
                         && (Sub64(pc.cur.end, pc.cur.next) >= pc.req.Need() ==>
                               Add64(pc.cur.next, pc.req.Need()) == pc.cur.next + pc.req.Need()))
      && (pc.Storing? ==> Add64(pc.first, pc.want) == pc.first + pc.want
                          && Add64(pc.first, pc.req.Need()) == pc.first + pc.req.Need())
  {
    RunsKeepInv(states, actions, n);
    assert ThreadInv(states[n], t);
    if At(states[n], t).Loaded? { OverflowTestIsExact(At(states[n], t).req); }
  }

  // ----- what each step gives -----

  /** A call fails at once exactly when its ids do not fit 64 bits. */
  lemma CallIsExact(s: State, t: Tid, req: Request)
    requires Enabled(s, Call(t, req))
    ensures Next(s, Call(t, req))
         == if req.nb * req.increment < TWO_64 then Goto(s, t, Loaded(req, s.range)) else s.(failed := s.failed + [req])
  {
    OverflowTestIsExact(req);
    hide Mul64;
  }

  /** A thread that has loaded a range claims from it exactly when it holds enough ids, and
      otherwise waits for the mutex. */
  lemma LoadedMoves(s: State, t: Tid, spurious: bool)
    requires Inv(s) && At(s, t).Loaded?
    ensures var pc := At(s, t);
            && (Enabled(s, TryClaim(t, spurious)) <==> pc.req.nb * pc.req.increment <= pc.cur.end - pc.cur.next)
            && (Enabled(s, Lock(t)) <==> pc.req.nb * pc.req.increment > pc.cur.end - pc.cur.next && s.mutex == None)
  {
    assert ThreadInv(s, t);
    OverflowTestIsExact(At(s, t).req);
    hide Mul64;
  }

  /** A claim takes exactly what it needs from the front of the cached range, if the range is still
      the one loaded, and otherwise takes nothing and loads it again. */
  lemma ClaimIsExact(s: State, t: Tid, spurious: bool)
    requires Inv(s) && Enabled(s, TryClaim(t, spurious))
    ensures var pc, s1 := At(s, t), Next(s, TryClaim(t, spurious));
            var stop := s.range.next + pc.req.nb * pc.req.increment;
            if s.range == pc.cur && !spurious then
              && s1.claims == s.claims + [Claim(pc.req, s.range.next, stop)] && At(s1, t) == Outside
              && s1.range == Range(stop, s.range.end) && stop <= s.range.end
            else s1 == Goto(s, t, Loaded(pc.req, s.range))
  {
    assert ThreadInv(s, t);
    OverflowTestIsExact(At(s, t).req);
    hide Mul64;
  }

  /** Under the mutex a thread refills exactly when the shared range is still too short, with as many
      ids as the call needs or the cache size, whichever is more. */
  lemma RecheckIsExact(s: State, t: Tid, cacheSize: nat)
    requires Inv(s) && Enabled(s, Recheck(t, cacheSize))
    ensures var req := At(s, t).req;
            var need := req.nb * req.increment;
            var s1 := Next(s, Recheck(t, cacheSize));
            if need <= s.range.end - s.range.next then s1 == Goto(s.(mutex := None), t, Loaded(req, s.range))
            else s1 == Goto(s, t, Drawing(req, if need < cacheSize then cacheSize else need, 0, []))
  {
    assert ThreadInv(s, t);
    OverflowTestIsExact(At(s, t).req);
    hide Mul64;
  }

  ghost predicate Consecutive(xs: seq<nat>) {
    forall i :: 0 <= i < |xs| ==> xs[i] == xs[0] + i
  }

  /** A block is accepted exactly when its ids are consecutive; otherwise it is drawn again, and the
      call fails with the third. */
  lemma DecideIsExact(s: State, t: Tid)
    requires Inv(s) && Enabled(s, Decide(t))
    ensures At(s, t).want >= 1
    ensures var pc, s1 := At(s, t), Next(s, Decide(t));
            if Consecutive(pc.drawn) then s1 == Goto(s, t, Storing(pc.req, pc.want, pc.drawn[0]))
            else if pc.attempt < 2 then s1 == Goto(s, t, Drawing(pc.req, pc.want, pc.attempt + 1, []))
            else s1 == Goto(s.(failed := s.failed + [pc.req]), t, Unlocking)
  {
    assert ThreadInv(s, t);
    var pc := At(s, t);
    SpanWidth(pc.drawn[pc.want - 1], pc.drawn[0]);
    if pc.drawn[pc.want - 1] - pc.drawn[0] + 1 == pc.want {
      forall i | 0 <= i < pc.want ensures pc.drawn[i] == pc.drawn[0] + i {
        SpanIsExact(pc.drawn, i);
      }
    } else {
      assert pc.drawn[pc.want - 1] != pc.drawn[0] + (pc.want - 1);
    }
  }

  /** An accepted block is split in two: the front is the caller's, the rest is cached, and none of
      its ids is lost. */
  lemma StoreIsExact(s: State, t: Tid)
    requires Inv(s) && Enabled(s, Store(t))
    ensures var pc, s1 := At(s, t), Next(s, Store(t));
            var stop := pc.first + pc.req.nb * pc.req.increment;
            && s1.claims == s.claims + [Claim(pc.req, pc.first, stop)]
            && s1.range == Range(stop, pc.first + pc.want) && stop <= pc.first + pc.want
  {
    assert ThreadInv(s, t);
    OverflowTestIsExact(At(s, t).req);
    hide Mul64;
  }

  // ----- every call is answered once -----

  /** The thread's call has no answer yet. */
  predicate Waiting(pc: Pc) {
    pc.Loaded? || pc.Locked? || pc.Drawing? || pc.Storing?
  }

  function Busy(s: State): set<Tid> {
    set t | t in s.threads && Waiting(s.threads[t])
  }

  function Calls(actions: seq<Action>): nat {
    if actions == [] then 0
    else Calls(actions[..|actions| - 1]) + if actions[|actions| - 1].Call? then 1 else 0
  }

  function Answers(s: State): nat {
    |s.claims| + |s.failed|
  }

  lemma BusyGoto(s: State, s1: State, t: Tid, pc: Pc)
    requires s1.threads == s.threads[t := pc]
    ensures |Busy(s1)| + (if Waiting(At(s, t)) then 1 else 0) == |Busy(s)| + if Waiting(pc) then 1 else 0
  {
    var rest := Busy(s) - {t};
    assert Busy(s1) == if Waiting(pc) then rest + {t} else rest;
    assert Busy(s) == if Waiting(At(s, t)) then rest + {t} else rest;
  }

  /** A step answers one call or none. */
  lemma StepAnswers(s: State, a: Action)
    requires Enabled(s, a)
    ensures Answers(Next(s, a)) + |Busy(Next(s, a))| == Answers(s) + |Busy(s)| + if a.Call? then 1 else 0
  {
    hide Busy, Mul64, Add64, Sub64, Max;
    var s1 := Next(s, a);
    if s1.threads != s.threads || a.TryClaim? || a.QueryFails? || a.Decide? || a.Store? {
      BusyGoto(s, s1, a.t, At(s1, a.t));
    } else {
      SameBusy(s, s1);
    }
  }

  lemma SameBusy(s: State, s1: State)
    requires s1.threads == s.threads
    ensures Busy(s1) == Busy(s)
  {
  }

  /** At every point of every run each call has one claim, one failure, or is under way. */
  lemma {:induction false} EveryCallIsAnsweredOnce(states: seq<State>, actions: seq<Action>, n: nat)
    requires IsRun(states, actions) && n < |states|
    ensures Calls(actions[..n]) == Answers(states[n]) + |Busy(states[n])|
  {
    if n > 0 {
      EveryCallIsAnsweredOnce(states, actions, n - 1);
      StepAnswers(states[n - 1], actions[n - 1]);
      assert actions[..n][..n - 1] == actions[..n - 1];
    }
  }

  // ----- a call that nothing disturbs -----

  /** The state after the actions, if each is enabled in its turn. */
  function Perform(s: State, actions: seq<Action>): Option<State>
    decreases |actions|
  {
    if actions == [] then Some(s)
    else if Enabled(s, actions[0]) then Perform(Next(s, actions[0]), actions[1..])
    else None
  }

  lemma {:induction false} PerformAppend(s: State, a: seq<Action>, b: seq<Action>)
    requires Perform(s, a).Some?
    ensures Perform(s, a + b) == Perform(Perform(s, a).value, b)
    decreases |a|
  {
    if a == [] {
      assert a + b == b;
    } else {
      PerformAppend(Next(s, a[0]), a[1..], b);
      assert (a + b)[1..] == a[1..] + b;
    }
  }

  function Upwards(v: nat, n: nat): (xs: seq<nat>)
    ensures |xs| == n && forall i :: 0 <= i < n ==> xs[i] == v + i
  {
    seq(n, i => v + i)
  }

  function Draws(t: Tid, v: nat, n: nat): seq<Action>
    decreases n
  {
    if n == 0 then [] else [Draw(t, v)] + Draws(t, v + 1, n - 1)
  }

  lemma {:induction false} DrawsRun(s: State, t: Tid, v: nat, k: nat)
    requires At(s, t).Drawing? && k <= At(s, t).want && At(s, t).drawn == Upwards(v, k)
    requires s.last + 1 == v + k && v + At(s, t).want < TWO_63
    ensures var pc := At(s, t);
            var r := Perform(s, Draws(t, v + k, pc.want - k));
            && r.Some? && At(r.value, t) == pc.(drawn := Upwards(v, pc.want))
            && r.value.range == s.range && r.value.claims == s.claims && r.value.mutex == s.mutex
            && r.value.failed == s.failed
    decreases At(s, t).want - k
  {
    var pc := At(s, t);
    if k < pc.want {
      var s1 := Next(s, Draw(t, v + k));
      assert Upwards(v, k) + [v + k] == Upwards(v, k + 1);
      DrawsRun(s1, t, v, k + 1);
    }
  }

  /** What a call does when no other thread moves and the sequence is not drawn from elsewhere. */
  function CallActions(s: State, t: Tid, req: Request, cacheSize: nat): seq<Action> {
    if req.nb * req.increment <= s.range.end - s.range.next then [Call(t, req), TryClaim(t, false)]
    else
      [Call(t, req), Lock(t), Recheck(t, cacheSize)] + Draws(t, s.last + 1, Max(req.nb * req.increment, cacheSize))
      + [Decide(t), Store(t), Unlock(t)]
  }

  /** Such a call gets its ids: the next ones of the cached range, or else the front of a fresh block
      whose rest is cached; and it leaves the mutex free. */
  lemma UndisturbedCallClaims(s: State, t: Tid, req: Request, cacheSize: nat)
    requires Inv(s) && At(s, t).Outside? && s.mutex == None && cacheSize >= 1
    requires 1 <= req.increment < TWO_64 && req.nb < TWO_64 && req.nb * req.increment < TWO_64
    requires s.last + 1 + Max(req.nb * req.increment, cacheSize) < TWO_63
    ensures var need, r := req.nb * req.increment, Perform(s, CallActions(s, t, req, cacheSize));
            && r.Some? && At(r.value, t) == Outside && r.value.mutex == None && r.value.failed == s.failed
            && if need <= s.range.end - s.range.next then
                 && r.value.claims == s.claims + [Claim(req, s.range.next, s.range.next + need)]
                 && r.value.range == Range(s.range.next + need, s.range.end)
               else
                 && r.value.claims == s.claims + [Claim(req, s.last + 1, s.last + 1 + need)]
                 && r.value.range == Range(s.last + 1 + need, s.last + 1 + Max(need, cacheSize))
  {
    var need := req.nb * req.increment;
    OverflowTestIsExact(req);
    hide Mul64;
    var s1 := Next(s, Call(t, req));
    CallKeepsInv(s, t, req);
    if need <= s.range.end - s.range.next {
      FastPath(s, t, req);
    } else {
      SlowPath(s, t, req, cacheSize);
    }
  }

  lemma FastPath(s: State, t: Tid, req: Request)
    requires Inv(s) && At(s, t).Outside? && s.mutex == None
    requires 1 <= req.increment < TWO_64 && req.nb < TWO_64 && req.nb * req.increment < TWO_64
    requires req.nb * req.increment <= s.range.end - s.range.next
    ensures var need, r := req.nb * req.increment, Perform(s, [Call(t, req), TryClaim(t, false)]);
            && r.Some? && At(r.value, t) == Outside && r.value.mutex == None && r.value.failed == s.failed
            && r.value.claims == s.claims + [Claim(req, s.range.next, s.range.next + need)]
            && r.value.range == Range(s.range.next + need, s.range.end)
  {
    var s1 := Next(s, Call(t, req));
    CallKeepsInv(s, t, req);
    CallIsExact(s, t, req);
    LoadedMoves(s1, t, false);
    ClaimIsExact(s1, t, false);
    var s2 := Next(s1, TryClaim(t, false));
    hide Inv, Mul64;
    assert [Call(t, req), TryClaim(t, false)][1..] == [TryClaim(t, false)];
    assert Perform(s2, []) == Some(s2);
    assert Perform(s1, [TryClaim(t, false)]) == Some(s2);
  }

  lemma ToDrawing(s: State, t: Tid, req: Request, cacheSize: nat)
    requires Inv(s) && At(s, t).Outside? && s.mutex == None && cacheSize >= 1
    requires 1 <= req.increment < TWO_64 && req.nb < TWO_64 && req.nb * req.increment < TWO_64
    requires req.nb * req.increment > s.range.end - s.range.next
    ensures var r := Perform(s, [Call(t, req), Lock(t), Recheck(t, cacheSize)]);
            && r.Some? && Inv(r.value) && r.value.range == s.range && r.value.claims == s.claims
            && r.value.failed == s.failed && r.value.last == s.last && r.value.mutex == Some(t)
            && At(r.value, t) == Drawing(req, Max(req.nb * req.increment, cacheSize), 0, [])
  {
    var a, b, c := Call(t, req), Lock(t), Recheck(t, cacheSize);
    CallIsExact(s, t, req);
    CallKeepsInv(s, t, req);
    var s1 := Next(s, a);
    LoadedMoves(s1, t, false);
    LockKeepsInv(s1, t);
    var s2 := Next(s1, b);
    RecheckIsExact(s2, t, cacheSize);
    RecheckKeepsInv(s2, t, cacheSize);
    var s3 := Next(s2, c);
    hide Inv, Mul64;
    assert [a, b, c][1..] == [b, c] && [b, c][1..] == [c] && [c][1..] == [];
    assert Perform(s3, []) == Some(s3);
    assert Perform(s2, [c]) == Some(s3);
    assert Perform(s1, [b, c]) == Some(s3);
  }

  lemma FromDrawn(s: State, t: Tid)
    requires Inv(s) && At(s, t).Drawing? && |At(s, t).drawn| == At(s, t).want && Consecutive(At(s, t).drawn)
    ensures At(s, t).want >= 1
    ensures var pc, r := At(s, t), Perform(s, [Decide(t), Store(t), Unlock(t)]);
            var need := pc.req.nb * pc.req.increment;
            && r.Some? && At(r.value, t) == Outside && r.value.mutex == None && r.value.failed == s.failed
            && r.value.claims == s.claims + [Claim(pc.req, pc.drawn[0], pc.drawn[0] + need)]
            && r.value.range == Range(pc.drawn[0] + need, pc.drawn[0] + pc.want)
  {
    var a, b, c := Decide(t), Store(t), Unlock(t);
    assert ThreadInv(s, t);
    DecideIsExact(s, t);
    DecideKeepsInv(s, t);
    var s1 := Next(s, a);
    StoreIsExact(s1, t);
    var s2 := Next(s1, b);
    var s3 := Next(s2, c);
    hide Inv, Mul64, ThreadInv;
    assert [a, b, c][1..] == [b, c] && [b, c][1..] == [c] && [c][1..] == [];
    assert Perform(s3, []) == Some(s3);
    assert Perform(s2, [c]) == Some(s3);
    assert Perform(s1, [b, c]) == Some(s3);
  }

  lemma {:induction false} PerformKeepsInv(s: State, actions: seq<Action>)
    requires Inv(s) && Perform(s, actions).Some?
    ensures Inv(Perform(s, actions).value)
    decreases |actions|
  {
    if actions != [] {
      NextKeepsInv(s, actions[0]);
      PerformKeepsInv(Next(s, actions[0]), actions[1..]);
    }
  }

  lemma SlowPath(s: State, t: Tid, req: Request, cacheSize: nat)
    requires Inv(s) && At(s, t).Outside? && s.mutex == None && cacheSize >= 1
    requires 1 <= req.increment < TWO_64 && req.nb < TWO_64 && req.nb * req.increment < TWO_64
    requires s.last + 1 + Max(req.nb * req.increment, cacheSize) < TWO_63
    requires req.nb * req.increment > s.range.end - s.range.next
    ensures var need, r := req.nb * req.increment, Perform(s, CallActions(s, t, req, cacheSize));
            && r.Some? && At(r.value, t) == Outside && r.value.mutex == None && r.value.failed == s.failed
            && r.value.claims == s.claims + [Claim(req, s.last + 1, s.last + 1 + need)]
            && r.value.range == Range(s.last + 1 + need, s.last + 1 + Max(need, cacheSize))
  {
    hide Inv, Perform, Mul64, Next, Enabled, Draws, Fresh;
    var need, v := req.nb * req.increment, s.last + 1;
    var want := Max(need, cacheSize);
    var open := [Call(t, req), Lock(t), Recheck(t, cacheSize)];
    var draws, close := Draws(t, v, want), [Decide(t), Store(t), Unlock(t)];
    ToDrawing(s, t, req, cacheSize);
    var s1 := Perform(s, open).value;
    assert Upwards(v, 0) == [];
    DrawsRun(s1, t, v, 0);
    var s2 := Perform(s1, draws).value;
    PerformKeepsInv(s1, draws);
    FromDrawn(s2, t);
    PerformAppend(s, open, draws);
    PerformAppend(s, open + draws, close);
  }

  // ----- stale ranges -----

  lemma {:induction false} EndGrows(states: seq<State>, actions: seq<Action>, i: nat, j: nat)
    requires IsRun(states, actions) && i <= j < |states|
    ensures states[i].range.end <= states[j].range.end
    decreases j - i
  {
    if i < j {
      RunsKeepInv(states, actions, i);
      StepGrowsEnd(states[i], actions[i]);
      EndGrows(states, actions, i + 1, j);
    }
  }

  lemma StepGrowsEnd(s: State, a: Action)
    requires Inv(s) && Enabled(s, a)
    ensures s.range.end <= Next(s, a).range.end
    ensures a.Store? ==> s.range.end < Next(s, a).range.end
  {
    if a.Store? { assert ThreadInv(s, a.t); }
  }

  /** A range loaded before a refill never equals the shared range again, so the stale
      compare-and-swap fails however long it is delayed. */
  lemma StaleClaimFails(states: seq<State>, actions: seq<Action>, i: nat, j: nat, u: Tid)
    requires IsRun(states, actions) && i < j < |states| && actions[i].Store?
    requires At(states[i], u).Loaded? && At(states[j], u) == At(states[i], u)
    ensures states[j].range != At(states[j], u).cur
  {
    RunsKeepInv(states, actions, i);
    assert ThreadInv(states[i], u);
    StepGrowsEnd(states[i], actions[i]);
    EndGrows(states, actions, i + 1, j);
  }
}
