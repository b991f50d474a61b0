/** When every waiting process of kernel/src/execution/scheduler.c gets its turn, and when one starves. */
module SchedulerFairness {
  import opened Bytes
  import opened SchedulerModel
  import opened SchedulerRuns

  // ---------- calls that keep the turn ----------

  /** The turn of the process with an id. */
  function TurnOf(s: Sched, id: nat): (d: nat)
    requires Has(s.procs, id)
    ensures 1 <= d <= |s.procs|
  {
    Turn(s, IndexOf(s.procs, id))
  }

  predicate Waits(s: Sched, id: nat) {
    Has(s.procs, id) && Get(s.procs, id).state == Waiting
  }

  /**
   The call is not the current process's own sleep or stop, and does not put process id away.
   While nothing runs the search starts behind the head, so a stop of the head would put the
   next process last.
   */
  predicate Calm(s: Sched, op: Op, id: nat) {
    match op
    case SleepOp(other, _, _) => other != id && s.current != Some(other)
    case StopOp(other) => other != id && s.current.Some? && s.current != Some(other)
    case _ => true
  }

  /** Enabled ticks bring the turn closer, a new process may come in between. */
  function Gain(s: Sched, op: Op): nat {
    if op.TickOp? && s.enabled then 1 else 0
  }

  function Delay(op: Op): nat {
    if op.StartOp? then 1 else 0
  }

  /** After the call process id runs, or still waits with its turn closer by the gain. */
  ghost predicate Closer(s: Sched, t: Sched, id: nat, gain: nat, delay: nat) {
    t.current == Some(id) || (Waits(s, id) && Waits(t, id) && TurnOf(t, id) + gain <= TurnOf(s, id) + delay)
  }

  lemma CalmTick(s: Sched, r: nat, id: nat)
    requires Inv(s) && r != 0 && s.enabled && Waits(s, id)
    ensures Closer(s, Tick(s, r).s, id, 1, 0)
  {
    hide Tick, Turn;
    var k := IndexOf(s.procs, id);
    TurnShrinks(s, r, k);
    var t := Tick(s, r).s;
    IndexIs(t.procs, k);
  }

  lemma CalmStart(s: Sched, p: Proc, id: nat)
    requires Inv(s) && Waits(s, id) && !Has(s.procs, p.id) && p.state != Running
    ensures Closer(s, Start(s, p).s, id, 0, 1)
  {
    var t := Start(s, p).s;
    StartKeepsInv(s, p);
    IndexIs(t.procs, IndexOf(s.procs, id));
    if s.current.Some? { IndexIs(t.procs, IndexOf(s.procs, s.current.value)); }
  }

  /** Where a process is once another one has left the list. */
  lemma IndexWithout(procs: seq<Proc>, gone: nat, id: nat)
    requires Distinct(procs) && Has(procs, gone) && Has(procs, id) && id != gone
    ensures Has(Without(procs, gone), id)
    ensures var i, j := IndexOf(procs, id), IndexOf(procs, gone);
      i != j && IndexOf(Without(procs, gone), id) == if i < j then i else i - 1
    ensures Get(Without(procs, gone), id) == Get(procs, id)
  {
    hide Without, IndexOf;
    WithoutAt(procs, gone);
    WithoutOne(procs, gone);
    var i, j := IndexOf(procs, id), IndexOf(procs, gone);
    IndexIs(Without(procs, gone), if i < j then i else i - 1);
  }

  lemma CalmStop(s: Sched, gone: nat, id: nat)
    requires Inv(s) && Waits(s, id) && Has(s.procs, gone) && Calm(s, StopOp(gone), id)
    ensures Closer(s, Stop(s, gone).s, id, 0, 0)
  {
    hide IndexOf, Without, Switch;
    IndexWithout(s.procs, gone, id);
    IndexWithout(s.procs, gone, s.current.value);
    WithoutAt(s.procs, gone);
  }

  lemma CalmSleep(s: Sched, other: nat, ms: uint32, r: nat, id: nat)
    requires Inv(s) && Waits(s, id) && Has(s.procs, other) && Calm(s, SleepOp(other, ms, r), id)
    ensures Closer(s, Sleep(s, other, ms, r).s, id, 0, 0)
  {
    hide IndexOf, Switch;
    SameIds(s.procs, Sleep(s, other, ms, r).s.procs);
  }

  lemma CalmStep(s: Sched, op: Op, id: nat)
    requires Inv(s) && Admissible(s, op) && Calm(s, op, id) && Waits(s, id)
    ensures Closer(s, Step(s, op).s, id, Gain(s, op), Delay(op))
  {
    match op
    case TickOp(r) => if s.enabled { CalmTick(s, r, id); }
    case StartOp(p) => CalmStart(s, p, id);
    case StopOp(gone) => CalmStop(s, gone, id);
    case SleepOp(other, ms, r) => CalmSleep(s, other, ms, r, id);
    case EnableOp =>
    case DisableOp =>
  }

  // ---------- fairness over calm runs ----------

  ghost predicate AllCalm(s: Sched, ops: seq<Op>, id: nat)
    requires Run(s, ops).Some?
    decreases |ops|
  {
    ops == [] ||
    var init := ops[..|ops| - 1];
    AllCalm(s, init, id) && Calm(Run(s, init).value, ops[|ops| - 1], id)
  }

  /** How many processes are started. */
  function Starts(ops: seq<Op>): nat
    decreases |ops|
  {
    if ops == [] then 0 else Starts(ops[..|ops| - 1]) + Delay(ops[|ops| - 1])
  }

  /** Process id has run after j of the calls; 0 if it has waited all the time. */
  lemma {:induction false} CalmRun(s: Sched, ops: seq<Op>, id: nat) returns (j: nat)
    requires Inv(s) && Waits(s, id) && Run(s, ops).Some? && AllCalm(s, ops, id)
    ensures Inv(Run(s, ops).value) && j <= |ops|
    ensures j > 0 ==> Run(s, ops[..j]).Some? && Run(s, ops[..j]).value.current == Some(id)
    ensures j == 0 ==>
      var t := Run(s, ops).value;
      Waits(t, id) && TurnOf(t, id) + EnabledTicks(s, ops) <= TurnOf(s, id) + Starts(ops)
    decreases |ops|
  {
    hide Step, Admissible, Calm, Inv, Waits, TurnOf;
    j := 0;
    if ops != [] {
      var init, last := ops[..|ops| - 1], ops[|ops| - 1];
      j := CalmRun(s, init, id);
      var t := Run(s, init).value;
      StepKeepsInv(t, last);
      if j > 0 {
        assert ops[..j] == init[..j];
      } else {
        CalmStep(t, last, id);
        if Step(t, last).s.current == Some(id) {
          j := |ops|;
          assert ops[..j] == ops;
        }
      }
    }
  }

  /**
   Fairness survives every call but those by which the current process itself gives up the
   processor: a waiting process runs before its turn, plus one for each process started in
   between, is over in enabled ticks.
   */
  lemma DispatchedUnlessHandedOn(s: Sched, ops: seq<Op>, id: nat) returns (j: nat)
    requires Inv(s) && Waits(s, id) && Run(s, ops).Some? && AllCalm(s, ops, id)
    requires EnabledTicks(s, ops) >= TurnOf(s, id) + Starts(ops)
    ensures 1 <= j <= |ops| && Run(s, ops[..j]).Some? && Run(s, ops[..j]).value.current == Some(id)
  {
    j := CalmRun(s, ops, id);
  }

  // ---------- starvation ----------

  function FourProcs(r: nat, one: State, two: State): seq<Proc> {
    [Proc(0, Waiting, 0, r), Proc(1, one, 0, r), Proc(2, two, 0, r), Proc(3, Waiting, 0, r)]
  }

  /** Process 1 runs and process 2 sleeps; 0 and 3 wait. */
  function Trap(r: nat): Sched {
    Sched(FourProcs(r, Running, Sleeping), Some(1), true, r)
  }

  /** A tick has woken and dispatched process 2. */
  function Sprung(r: nat): Sched {
    Sched(FourProcs(r, Waiting, Running), Some(2), true, r)
  }

  /** The first n calls of: a tick, process 2 sleeps for no time, and so on. */
  function Alternate(n: nat, r: nat): seq<Op> {
    if n == 0 then [] else Alternate(n - 1, r) + [if n % 2 == 1 then TickOp(r) else SleepOp(2, 0, r)]
  }

  lemma TrapSprings(r: nat)
    requires r != 0
    ensures Step(Trap(r), TickOp(r)) == Outcome(Sprung(r), Resume(2, r))
  {
    hide Switch;
    var s := Trap(r);
    IndexIs(s.procs, 1);
    var w := s.(procs := Wake(s.procs));
    assert w.procs == FourProcs(r, Running, Waiting);
    IndexIs(w.procs, 1);
    assert Save(w, r).procs == FourProcs(r, Waiting, Waiting);
    SearchFromOne(r);
  }

  lemma SearchFromOne(r: nat)
    ensures Switch(Sched(FourProcs(r, Waiting, Waiting), Some(1), true, r)) == Outcome(Sprung(r), Resume(2, r))
  {
    var u := Sched(FourProcs(r, Waiting, Waiting), Some(1), true, r);
    IndexIs(u.procs, 1);
    assert FirstWaiting(u.procs, 1, 1) == 1;
    assert Switch(u).s.procs == FourProcs(r, Waiting, Running);
  }

  lemma TrapCloses(r: nat)
    requires r != 0
    ensures Admissible(Sprung(r), SleepOp(2, 0, r))
    ensures Step(Sprung(r), SleepOp(2, 0, r)) == Outcome(Trap(r), Resume(1, r))
  {
    var s := Sprung(r);
    IndexIs(s.procs, 2);
    var u := s.(procs := FourProcs(r, Waiting, Sleeping), current := None);
    assert Put(s.procs, Proc(2, Sleeping, 0, r)) == u.procs;
    assert FirstWaiting(u.procs, 0, 1) == 1;
    assert Switch(u).s.procs == FourProcs(r, Running, Sleeping);
  }

  lemma RunMore(s: Sched, ops: seq<Op>, op: Op)
    requires Run(s, ops).Some? && Admissible(Run(s, ops).value, op)
    ensures Run(s, ops + [op]) == Some(Step(Run(s, ops).value, op).s)
  {
    hide Step, Admissible;
    assert (ops + [op])[..|ops|] == ops;
  }

  function FreshProcs(n: nat, r: nat): (procs: seq<Proc>)
    ensures |procs| == n && forall i :: 0 <= i < n ==> procs[i] == Proc(i, Waiting, 0, r)
  {
    if n == 0 then [] else FreshProcs(n - 1, r) + [Proc(n - 1, Waiting, 0, r)]
  }

  function StartAll(n: nat, r: nat): seq<Op> {
    if n == 0 then [] else StartAll(n - 1, r) + [StartOp(Proc(n - 1, Waiting, 0, r))]
  }

  lemma {:induction false} AllStarted(n: nat, r: nat)
    ensures Run(INITIAL, StartAll(n, r)) == Some(Sched(FreshProcs(n, r), None, false, 0))
  {
    hide Run;
    if n == 0 {
      RunNothing(INITIAL);
    } else {
      AllStarted(n - 1, r);
      RunMore(INITIAL, StartAll(n - 1, r), StartOp(Proc(n - 1, Waiting, 0, r)));
    }
  }

  /** Calls from the start of the kernel that lead into the trap. */
  function IntoTrap(r: nat): seq<Op> {
    StartAll(4, r) + [EnableOp] + [TickOp(r)] + [SleepOp(2, 0, r)]
  }

  lemma RunNothing(s: Sched)
    ensures Run(s, []) == Some(s)
  {
  }

  lemma TrapEntered(r: nat)
    requires r != 0
    ensures Run(INITIAL, IntoTrap(r)) == Some(Trap(r))
  {
    hide Run, FreshProcs, StartAll;
    var starts := StartAll(4, r);
    AllStarted(4, r);
    assert FreshProcs(4, r) == FourProcs(r, Waiting, Waiting);
    FirstTick(r);
    SecondSleeps(r);
    RunMore(INITIAL, starts, EnableOp);
    RunMore(INITIAL, starts + [EnableOp], TickOp(r));
    RunMore(INITIAL, starts + [EnableOp] + [TickOp(r)], SleepOp(2, 0, r));
  }

  lemma FirstTick(r: nat)
    requires r != 0
    ensures Step(Sched(FourProcs(r, Waiting, Waiting), None, true, 0), TickOp(r)).s ==
      Sched(FourProcs(r, Running, Waiting), Some(1), true, r)
  {
    var procs := FourProcs(r, Waiting, Waiting);
    assert Wake(procs) == procs;
    assert FirstWaiting(procs, 0, 1) == 1;
    assert procs[1 := procs[1].(state := Running)] == FourProcs(r, Running, Waiting);
  }

  lemma SecondSleeps(r: nat)
    ensures var s := Sched(FourProcs(r, Running, Waiting), Some(1), true, r);
      Has(s.procs, 2) && Sleep(s, 2, 0, r).s == Trap(r)
  {
    var s := Sched(FourProcs(r, Running, Waiting), Some(1), true, r);
    IndexIs(s.procs, 2);
    assert Put(s.procs, Proc(2, Sleeping, 0, r)) == FourProcs(r, Running, Sleeping);
  }

  /**
   Starvation: the search restarts behind the head of the list when the current process goes
   to sleep. Processes 1 and 2 take turns for ever, and 0 and 3, which wait in both states,
   never run.
   */
  lemma {:induction false} Starved(n: nat, r: nat)
    requires r != 0
    ensures Run(INITIAL, IntoTrap(r) + Alternate(n, r)) == Some(if n % 2 == 0 then Trap(r) else Sprung(r))
  {
    hide Run, Step, Admissible, Trap, Sprung, IntoTrap;
    if n == 0 {
      TrapEntered(r);
      assert IntoTrap(r) + Alternate(0, r) == IntoTrap(r);
    } else {
      Starved(n - 1, r);
      var op := if n % 2 == 1 then TickOp(r) else SleepOp(2, 0, r);
      assert IntoTrap(r) + Alternate(n, r) == IntoTrap(r) + Alternate(n - 1, r) + [op];
      if n % 2 == 1 {
        TickAllowed(Trap(r), r);
        TrapSprings(r);
      } else {
        TrapCloses(r);
      }
      RunMore(INITIAL, IntoTrap(r) + Alternate(n - 1, r), op);
    }
  }

  lemma TickAllowed(s: Sched, r: nat)
    requires r != 0
    ensures Admissible(s, TickOp(r))
  {
  }
}
