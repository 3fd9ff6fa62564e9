/** KILL QUERY reaches DuckDB only while a pushed-down SELECT runs.  One query thread and any
    number of killing threads share the kill flag, the window flag and DuckDB's pending
    interrupt; each step below is atomic (a mutex-protected function or one DuckDB call). */
module KillWindow {

  /** Where the query thread is: no SELECT, window opened, query submitted, kill re-delivered
      (and fetching), or stopped by an interrupt. */
  datatype Pc = Idle | Opened | Submitted | Fetching | Interrupted

  /** `delivering` counts killers that have set the flag and not yet called interrupt(). */
  datatype State = State(killed: bool, delivering: nat, window: bool, pending: bool, pc: Pc)

  const INITIAL := State(false, 0, false, false, Idle)

  datatype Action =
    | BeginInterruptible
    | Submit
    | InterruptIfKilled
    | Fetch
    | EndInterruptible
    | ResetKilled
    | SetKilled
    | Interrupt

  predicate Enabled(s: State, a: Action) {
    match a
    case BeginInterruptible => s.pc == Idle
    case Submit => s.pc == Opened
    case InterruptIfKilled => s.pc == Submitted
    case Fetch => s.pc == Fetching
    case EndInterruptible => true
    case ResetKilled => s.pc == Idle && s.delivering == 0  // the killer holds the THD's lock
    case SetKilled => true
    case Interrupt => s.delivering > 0
  }

  function Next(s: State, a: Action): State
    requires Enabled(s, a)
  {
    match a
    case BeginInterruptible => s.(pending := false, window := true, pc := Opened)
    case Submit => s.(pending := false, pc := Submitted)  // DuckDB drops a pending interrupt
    case InterruptIfKilled => s.(pending := s.pending || (s.window && s.killed), pc := Fetching)
    case Fetch => if s.pending then s.(pc := Interrupted) else s
    case EndInterruptible => s.(window := false, pending := false, pc := Idle)
    case ResetKilled => s.(killed := false)
    case SetKilled => s.(killed := true, delivering := s.delivering + 1)
    case Interrupt => s.(pending := s.pending || s.window, delivering := s.delivering - 1)
  }

  ghost predicate IsRun(states: seq<State>, actions: seq<Action>) {
    && |states| == |actions| + 1 && states[0] == INITIAL
    && forall i :: 0 <= i < |actions| ==> Enabled(states[i], actions[i]) && states[i + 1] == Next(states[i], actions[i])
  }

  /** No interrupt outside the window; none without a kill; and once the kill has been
      re-delivered, a set flag means an interrupt is pending or on its way. */
  predicate Inv(s: State) {
    && (s.window <==> s.pc != Idle)
    && (!s.window ==> !s.pending)
    && (s.pending || s.delivering > 0 || s.pc == Interrupted ==> s.killed)
    && ((s.pc == Fetching || s.pc == Interrupted) && s.killed ==> s.pending || s.delivering > 0)
  }

  lemma {:induction false} KillIsNeverLost(states: seq<State>, actions: seq<Action>, n: nat)
    requires IsRun(states, actions) && n < |states|
    ensures Inv(states[n])
  {
    if n > 0 {
      KillIsNeverLost(states, actions, n - 1);
      assert states[n] == Next(states[n - 1], actions[n - 1]);
    }
  }

  // ----- the state told by the actions -----

  function Count(actions: seq<Action>, a: Action): (n: nat)
    ensures n <= |actions| && (n > 0 <==> a in actions)
  {
    if actions == [] then 0
    else Count(actions[..|actions| - 1], a) + if actions[|actions| - 1] == a then 1 else 0
  }

  /** `a` has happened, and `undo` not since. */
  predicate Holds(actions: seq<Action>, a: Action, undo: Action) {
    actions != [] &&
    var last := actions[|actions| - 1];
    last == a || (last != undo && Holds(actions[..|actions| - 1], a, undo))
  }

  lemma CountStep(actions: seq<Action>, n: nat, a: Action)
    requires 0 < n <= |actions|
    ensures Count(actions[..n], a) == Count(actions[..n - 1], a) + if actions[n - 1] == a then 1 else 0
  {
    assert actions[..n][..n - 1] == actions[..n - 1];
  }

  lemma HoldsStep(actions: seq<Action>, n: nat, a: Action, undo: Action)
    requires 0 < n <= |actions|
    ensures Holds(actions[..n], a, undo) <==>
            actions[n - 1] == a || (actions[n - 1] != undo && Holds(actions[..n - 1], a, undo))
  {
    assert actions[..n][..n - 1] == actions[..n - 1];
  }

  lemma StepIsHistory(s: State, a: Action)
    requires Enabled(s, a) && Inv(s)
    ensures var s1 := Next(s, a);
            && s1.delivering == s.delivering + (if a == SetKilled then 1 else 0) - (if a == Interrupt then 1 else 0)
            && (s1.killed <==> a == SetKilled || (a != ResetKilled && s.killed))
            && (s1.window <==> a == BeginInterruptible || (a != EndInterruptible && s.window))
            && (s1.pc in {Submitted, Fetching, Interrupted} <==>
                a == Submit || (a != EndInterruptible && s.pc in {Submitted, Fetching, Interrupted}))
            && (s1.pc in {Fetching, Interrupted} <==>
                a == InterruptIfKilled || (a != EndInterruptible && s.pc in {Fetching, Interrupted}))
  {
  }

  /** Along every run: the killers on their way are those that set the flag less those that called
      interrupt(); the flag is up if it was set and not reset since; the window is open if it was
      opened and not closed since; and before a fetch the query was submitted and the kill
      re-delivered in that window. */
  lemma {:induction false} StateIsHistory(states: seq<State>, actions: seq<Action>, n: nat)
    requires IsRun(states, actions) && n < |states|
    ensures states[n].delivering == Count(actions[..n], SetKilled) - Count(actions[..n], Interrupt)
    ensures states[n].killed <==> Holds(actions[..n], SetKilled, ResetKilled)
    ensures states[n].window <==> Holds(actions[..n], BeginInterruptible, EndInterruptible)
    ensures states[n].pc == Submitted || states[n].pc == Fetching || states[n].pc == Interrupted <==>
            Holds(actions[..n], Submit, EndInterruptible)
    ensures states[n].pc == Fetching || states[n].pc == Interrupted <==>
            Holds(actions[..n], InterruptIfKilled, EndInterruptible)
  {
    if n > 0 {
      StateIsHistory(states, actions, n - 1);
      KillIsNeverLost(states, actions, n - 1);
      assert Enabled(states[n - 1], actions[n - 1]) && states[n] == Next(states[n - 1], actions[n - 1]);
      hide *;
      StepIsHistory(states[n - 1], actions[n - 1]);
      CountStep(actions, n, SetKilled);
      CountStep(actions, n, Interrupt);
      HoldsStep(actions, n, SetKilled, ResetKilled);
      HoldsStep(actions, n, BeginInterruptible, EndInterruptible);
      HoldsStep(actions, n, Submit, EndInterruptible);
      HoldsStep(actions, n, InterruptIfKilled, EndInterruptible);
    }
  }

  /** Once every killer has called interrupt(), the next fetch stops if the query was killed, and
      goes on if it was not; and it changes nothing else. */
  lemma NextFetchStops(states: seq<State>, actions: seq<Action>, n: nat)
    requires IsRun(states, actions) && n < |actions| && actions[n] == Fetch
    requires Count(actions[..n], SetKilled) == Count(actions[..n], Interrupt)
    ensures var killed := Holds(actions[..n], SetKilled, ResetKilled);
            states[n + 1] == states[n].(pc := if killed then Interrupted else Fetching)
  {
    KillIsNeverLost(states, actions, n);
    StateIsHistory(states, actions, n);
  }

  /** A kill that arrives while the query fetches stops the fetch that follows it. */
  lemma KillDuringFetchStops(states: seq<State>, actions: seq<Action>, n: nat)
    requires IsRun(states, actions) && n + 1 < |actions| && actions[n] == Interrupt && actions[n + 1] == Fetch
    ensures states[n + 2].pc == Interrupted
  {
    KillIsNeverLost(states, actions, n);
    assert states[n + 1] == Next(states[n], Interrupt) && states[n + 2] == Next(states[n + 1], Fetch);
  }

  /** A query is stopped only by a kill since the flag was last reset; one whose window is closed
      is never stopped, and leaves no interrupt to the next. */
  lemma StoppedMeansKilled(states: seq<State>, actions: seq<Action>, n: nat)
    requires IsRun(states, actions) && n < |states|
    ensures states[n].pc == Interrupted ==> Holds(actions[..n], SetKilled, ResetKilled)
    ensures !Holds(actions[..n], BeginInterruptible, EndInterruptible) ==> states[n].pc == Idle && !states[n].pending
  {
    KillIsNeverLost(states, actions, n);
    StateIsHistory(states, actions, n);
  }

  /** From wherever killers left the flags, a query runs through its window and leaves it closed,
      fetching or stopped in between as the flag says. */
  lemma QueryRunsThrough(s: State)
    requires Inv(s) && s.pc == Idle && s.delivering == 0
    ensures Enabled(s, BeginInterruptible)
    ensures var s1 := Next(s, BeginInterruptible);
            && Enabled(s1, Submit)
            && var submitted := Next(s1, Submit);
               && Enabled(submitted, InterruptIfKilled)
               && var fetching := Next(submitted, InterruptIfKilled);
                  && Enabled(fetching, Fetch)
                  && var fetched := Next(fetching, Fetch);
                     && fetched.pc == (if s.killed then Interrupted else Fetching)
                     && Enabled(fetched, EndInterruptible) && Next(fetched, EndInterruptible) == s
  {
  }

  /** A killer is never held up: it may set the flag at any time and interrupt once it has. */
  lemma KillerMoves(s: State)
    ensures Enabled(s, SetKilled) && Enabled(Next(s, SetKilled), Interrupt) && Enabled(s, EndInterruptible)
  {
  }

  /** Why the kill is re-delivered: submitting the query drops one that came before. */
  lemma SubmitAloneLosesTheKill()
    ensures exists states: seq<State>, actions: seq<Action> ::
              && IsRun(states, actions)
              && states[|states| - 1] == State(true, 0, true, false, Submitted)
  {
    var actions := [BeginInterruptible, SetKilled, Interrupt, Submit];
    var s1 := Next(INITIAL, actions[0]);
    var s2 := Next(s1, actions[1]);
    var s3 := Next(s2, actions[2]);
    var states := [INITIAL, s1, s2, s3, Next(s3, actions[3])];
    assert IsRun(states, actions);
  }
}
