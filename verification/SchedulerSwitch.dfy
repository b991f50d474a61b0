/**
 When kernel/src/execution/scheduler.c takes the processor away, and who gets it: said by the
 states and places of the processes in the list.
 */
module SchedulerSwitch {
  import opened Bytes
  import opened SchedulerModel
  import opened SchedulerRuns

  /** An enabled tick, or the running process stops or goes to sleep. */
  predicate Yields(s: Sched, op: Op) {
    match op
    case TickOp(_) => s.enabled
    case StopOp(id) => s.current == Some(id)
    case SleepOp(id, _, _) => s.current == Some(id)
    case _ => false
  }

  /** The process could run when the call picks the next one. */
  predicate CanRun(s: Sched, op: Op, p: Proc) {
    match op
    case TickOp(_) => s.current == Some(p.id) || p.state == Waiting || (p.state == Sleeping && p.sleep == 0)
    case _ => s.current != Some(p.id) && p.state == Waiting
  }

  /** Where the search starts: at the process a tick interrupts, else at the head of the list. */
  function From(s: Sched, op: Op): nat {
    if op.TickOp? && s.current.Some? then IndexOf(s.procs, s.current.value) else 0
  }

  /** Place i comes before place j going round a list of n from behind place at. */
  predicate Sooner(at: nat, i: nat, j: nat, n: nat)
    requires at < n
  {
    (i + n - at - 1) % n < (j + n - at - 1) % n
  }

  /** The processor goes to the first waiting process behind place at, or to the kernel when none waits. */
  ghost predicate HandedOn(t: Sched, at: nat, d: Dispatch) {
    match d
    case Resume(id, frame) =>
      && t.current == Some(id)
      && exists i :: 0 <= i < |t.procs| && t.procs[i].id == id && t.procs[i].state == Running && t.procs[i].esp == frame
           && forall j :: 0 <= j < |t.procs| && t.procs[j].state == Waiting ==>
             at < |t.procs| && Sooner(at, i, j, |t.procs|)
    case Idle(frame) =>
      t.current == None && frame == t.kernelEsp && forall j :: 0 <= j < |t.procs| ==> t.procs[j].state == Sleeping
    case _ => false
  }

  lemma DistanceIs(at: nat, i: nat, n: nat)
    requires at < n && i < n
    ensures (i + n - at - 1) % n == Distance(at, i, n) - 1
  {
    if i > at {
      Quotient(i + n - at - 1, n, 1, i - at - 1);
    } else {
      Quotient(i + n - at - 1, n, 0, i + n - at - 1);
    }
  }

  lemma NextComesFirst(s: Sched, i: nat, j: nat)
    requires Next(s) == Some(i) && j < |s.procs| && j != i && s.procs[i].state == s.procs[j].state == Waiting
    requires StartAt(s) < |s.procs|
    ensures Sooner(StartAt(s), i, j, |s.procs|)
  {
    hide Next, StartAt, Distance;
    NextIff(s, i);
    DistanceIs(StartAt(s), i, |s.procs|);
    DistanceIs(StartAt(s), j, |s.procs|);
    SamePlace(StartAt(s), i, j, |s.procs|);
  }

  lemma NextWaits(s: Sched)
    requires Next(s).Some?
    ensures s.procs[Next(s).value].state == Waiting && StartAt(s) < |s.procs|
  {
    hide FirstWaiting, After;
  }

  /** A switch from a state in which no process is marked RUNNING. */
  lemma SwitchHandsOn(s: Sched)
    requires Ready(s)
    ensures HandedOn(Switch(s).s, StartAt(s), Switch(s).dispatch)
    ensures |Switch(s).s.procs| == |s.procs|
    ensures forall j :: 0 <= j < |s.procs| ==>
      Switch(s).s.procs[j].id == s.procs[j].id &&
        (Switch(s).s.procs[j].state == Sleeping <==> s.procs[j].state == Sleeping)
  {
    hide Next, StartAt, Sooner;
    var t, n := Switch(s).s, |s.procs|;
    NextNone(s);
    if Next(s).Some? {
      NextWaits(s);
      var i := Next(s).value;
      forall j | 0 <= j < n && t.procs[j].state == Waiting
        ensures StartAt(s) < n && Sooner(StartAt(s), i, j, n)
      {
        NextComesFirst(s, i, j);
      }
      assert t.procs[i].id == s.procs[i].id && t.procs[i].state == Running && t.procs[i].esp == s.procs[i].esp;
    }
  }

  lemma SamePlace(at: nat, i: nat, j: nat, n: nat)
    requires at < n && i < n && j < n
    ensures Distance(at, i, n) == Distance(at, j, n) ==> i == j
  {
  }

  // ---------- every call ----------

  /** All processes but a stopped one are still there; those sleep that could not run. */
  ghost predicate SleepersLeft(s: Sched, op: Op, t: Sched) {
    && |t.procs| == |s.procs| - (if op.StopOp? then 1 else 0)
    && forall q :: q in t.procs ==> Has(s.procs, q.id) && (q.state == Sleeping <==> !CanRun(s, op, Get(s.procs, q.id)))
  }

  lemma TickHandsOn(s: Sched, r: nat)
    requires Inv(s) && r != 0 && s.enabled
    ensures var o := Tick(s, r); HandedOn(o.s, From(s, TickOp(r)), o.dispatch) && SleepersLeft(s, TickOp(r), o.s)
  {
    hide FirstWaiting, After, HandedOn, Switch;
    var u := Save(s.(procs := Wake(s.procs)), r);
    TickReady(s, r);
    SavedState(s, r);
    SwitchHandsOn(u);
    var t := Switch(u).s;
    forall q | q in t.procs ensures Has(s.procs, q.id) &&
      (q.state == Sleeping <==> !CanRun(s, TickOp(r), Get(s.procs, q.id))) {
      var j :| 0 <= j < |t.procs| && t.procs[j] == q;
      IndexIs(s.procs, j);
      SavedAt(s, r, j);
    }
  }

  lemma SavedAt(s: Sched, r: nat, j: nat)
    requires Inv(s) && j < |s.procs|
    ensures var u := Save(s.(procs := Wake(s.procs)), r);
      j < |u.procs| && (u.procs[j].state == Sleeping <==> !CanRun(s, TickOp(r), s.procs[j]))
  {
    hide IndexOf;
    var w := s.(procs := Wake(s.procs));
    SameIds(s.procs, w.procs);
    if s.current.Some? {
      IndexIs(s.procs, j);
      IndexIs(s.procs, IndexOf(s.procs, s.current.value));
    }
  }

  lemma StopHandsOn(s: Sched, id: nat)
    requires Inv(s) && s.current == Some(id)
    ensures HandedOn(Stop(s, id).s, 0, Stop(s, id).dispatch)
    ensures SleepersLeft(s, StopOp(id), Stop(s, id).s) && !Has(Stop(s, id).s.procs, id)
  {
    hide HandedOn, Without, Switch, IndexOf;
    WithoutOne(s.procs, id);
    WithoutAt(s.procs, id);
    var u := s.(procs := Without(s.procs, id), current := None);
    forall j | 0 <= j < |u.procs| ensures u.procs[j].state != Running { assert u.procs[j] in u.procs; }
    SwitchHandsOn(u);
    var t := Switch(u).s;
    forall q | q in t.procs ensures Has(s.procs, q.id) && q.id != id &&
      (q.state == Sleeping <==> !CanRun(s, StopOp(id), Get(s.procs, q.id))) {
      var j :| 0 <= j < |t.procs| && t.procs[j] == q;
      assert u.procs[j] in u.procs;
      HasIs(s.procs, u.procs[j]);
    }
    assert Has(t.procs, id) ==> Get(t.procs, id) in t.procs;
  }

  lemma SleepHandsOn(s: Sched, id: nat, ms: uint32, r: nat)
    requires Inv(s) && s.current == Some(id) && r != 0
    ensures var o := Sleep(s, id, ms, r); HandedOn(o.s, 0, o.dispatch) && SleepersLeft(s, SleepOp(id, ms, r), o.s)
  {
    hide HandedOn, Switch;
    var k := IndexOf(s.procs, id);
    var u := s.(procs := Put(s.procs, Get(s.procs, id).(state := Sleeping, sleep := TicksOf(ms), esp := r)),
      current := None);
    forall j | 0 <= j < |u.procs| ensures u.procs[j].state != Running { IndexIs(s.procs, j); }
    SwitchHandsOn(u);
    var t := Switch(u).s;
    forall q | q in t.procs ensures Has(s.procs, q.id) &&
      (q.state == Sleeping <==> !CanRun(s, SleepOp(id, ms, r), Get(s.procs, q.id))) {
      var j :| 0 <= j < |t.procs| && t.procs[j] == q;
      IndexIs(s.procs, j);
    }
  }

  /**
   In every reachable state: an enabled tick, and the stop or sleep of the running process,
   never return into it but hand the processor to the process that could run and comes first
   in the list from where the search starts, or to the kernel if there is none; every other
   call returns to where it came from.
   */
  lemma HandsOnExactly(ops: seq<Op>, op: Op)
    requires Run(INITIAL, ops).Some? && Admissible(Run(INITIAL, ops).value, op)
    ensures var s := Run(INITIAL, ops).value;
      var o := Step(s, op);
      if Yields(s, op) then HandedOn(o.s, From(s, op), o.dispatch) && SleepersLeft(s, op, o.s)
      else o.dispatch == Stay && o.s.current == s.current
  {
    hide HandedOn, SleepersLeft, Tick, Inv;
    ReachableInv(ops);
    var s := Run(INITIAL, ops).value;
    match op
    case TickOp(r) => if s.enabled { TickHandsOn(s, r); } else { DisabledTick(s, r); }
    case StopOp(id) => if s.current == Some(id) { StopHandsOn(s, id); }
    case SleepOp(id, ms, r) => if s.current == Some(id) { SleepHandsOn(s, id, ms, r); }
    case _ =>
  }

  lemma DisabledTick(s: Sched, r: nat)
    requires !s.enabled
    ensures Tick(s, r) == Outcome(s, Stay)
  {
  }
}
