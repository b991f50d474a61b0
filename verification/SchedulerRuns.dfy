/** What the scheduler guarantees over runs of its entry points. */
module SchedulerRuns {
  import opened Bytes
  import opened SchedulerModel

  /** r is the interrupted stack frame; it is never NULL. */
  datatype Op =
    | TickOp(r: nat)
    | StartOp(p: Proc)
    | StopOp(id: nat)
    | SleepOp(id: nat, ms: uint32, r: nat)
    | EnableOp
    | DisableOp

  /** What the callers of the scheduler keep to: frames are not NULL, processes are started once. */
  predicate Admissible(s: Sched, op: Op) {
    match op
    case TickOp(r) => r != 0
    case StartOp(p) => !Has(s.procs, p.id) && p.state != Running
    case StopOp(id) => Has(s.procs, id)
    case SleepOp(id, _, r) => Has(s.procs, id) && r != 0
    case EnableOp => true
    case DisableOp => true
  }

  function Step(s: Sched, op: Op): Outcome
    requires Admissible(s, op)
  {
    match op
    case TickOp(r) => Tick(s, r)
    case StartOp(p) => Start(s, p)
    case StopOp(id) => Stop(s, id)
    case SleepOp(id, ms, r) => Sleep(s, id, ms, r)
    case EnableOp => Outcome(s.(enabled := true), Stay)
    case DisableOp => Outcome(s.(enabled := false), Stay)
  }

  /** The state after ops; None when one of them is not admissible. */
  function Run(s: Sched, ops: seq<Op>): Option<Sched>
    decreases |ops|
  {
    if ops == [] then Some(s)
    else
      match Run(s, ops[..|ops| - 1])
      case None => None
      case Some(t) => if Admissible(t, ops[|ops| - 1]) then Some(Step(t, ops[|ops| - 1]).s) else None
  }

  lemma StepKeepsInv(s: Sched, op: Op)
    requires Inv(s) && Admissible(s, op)
    ensures Inv(Step(s, op).s) && !Step(s, op).dispatch.Halt?
  {
    hide Tick, Stop, Sleep, Start;
    match op
    case TickOp(r) => TickKeepsInv(s, r);
    case StartOp(p) => StartKeepsInv(s, p); assert !Start(s, p).dispatch.Halt? by { StartStays(s, p); }
    case StopOp(id) => StopKeepsInv(s, id);
    case SleepOp(id, ms, r) => SleepKeepsInv(s, id, ms, r);
    case EnableOp =>
    case DisableOp =>
  }

  lemma StartStays(s: Sched, p: Proc)
    ensures Start(s, p).dispatch.Stay?
  {
  }

  /** The invariant holds in every reachable state, and no step from one fails the assert on `esp`. */
  lemma {:induction false} ReachableInv(ops: seq<Op>)
    requires Run(INITIAL, ops).Some?
    ensures Inv(Run(INITIAL, ops).value)
    ensures forall op :: Admissible(Run(INITIAL, ops).value, op) ==> !Step(Run(INITIAL, ops).value, op).dispatch.Halt?
    decreases |ops|
  {
    hide Step, Admissible;
    if ops != [] {
      ReachableInv(ops[..|ops| - 1]);
      StepKeepsInv(Run(INITIAL, ops[..|ops| - 1]).value, ops[|ops| - 1]);
    }
    var t := Run(INITIAL, ops).value;
    forall op | Admissible(t, op) ensures !Step(t, op).dispatch.Halt? {
      StepKeepsInv(t, op);
    }
  }

  // ---------- bounded fairness ----------

  /** The state after a tick for each frame. */
  function Ticks(s: Sched, frames: seq<nat>): Sched
    decreases |frames|
  {
    if frames == [] then s else Ticks(Tick(s, frames[0]).s, frames[1..])
  }

  /** How many ticks away the process at index k is at most. */
  function Turn(s: Sched, k: nat): (d: nat)
    requires k < |s.procs|
    ensures 1 <= d <= |s.procs|
  {
    Distance(StartAt(s), k, |s.procs|)
  }

  /** Before the switch of a tick, every waiting process still waits, and the list keeps its order. */
  lemma SavedState(s: Sched, r: nat)
    requires Inv(s)
    ensures var t := Save(s.(procs := Wake(s.procs)), r);
      && |t.procs| == |s.procs| && t.current == s.current && t.enabled == s.enabled
      && (forall i :: 0 <= i < |s.procs| ==> t.procs[i].id == s.procs[i].id)
      && (forall i :: 0 <= i < |s.procs| && s.procs[i].state == Waiting ==> t.procs[i].state == Waiting)
      && StartAt(t) == StartAt(s)
  {
    var w := s.(procs := Wake(s.procs));
    var t := Save(w, r);
    SameIds(s.procs, w.procs);
    if s.current.Some? {
      IndexIs(w.procs, IndexOf(s.procs, s.current.value));
      SameIds(s.procs, t.procs);
    }
  }

  /**
   One tick: either the waiting process at k is dispatched, or one strictly before it in turn
   is, and then k is strictly closer and still waits.
   */
  lemma TurnShrinks(s: Sched, r: nat, k: nat)
    requires Inv(s) && s.enabled && r != 0 && k < |s.procs| && s.procs[k].state == Waiting
    ensures var t := Tick(s, r).s;
      && Inv(t) && t.enabled && |t.procs| == |s.procs| && t.procs[k].id == s.procs[k].id
      && (t.current == Some(s.procs[k].id) || (t.procs[k].state == Waiting && Turn(t, k) < Turn(s, k)))
  {
    hide Save, Wake, FirstWaiting, IndexOf;
    var u := Save(s.(procs := Wake(s.procs)), r);
    SavedState(s, r);
    TickKeepsInv(s, r);
    TickReady(s, r);
    var n, at := |s.procs|, StartAt(u);
    var e, d := FirstWaiting(u.procs, at, 1), Turn(s, k);
    assert After(at, d, n) == k && u.procs[After(at, d, n)].state == Waiting;
    assert e <= d;
    var i := After(at, e, n);
    assert Next(u) == Some(i);
    var t := Switch(u).s;
    assert t.procs[i].id == u.procs[i].id && t.current == Some(t.procs[i].id);
    if i != k {
      assert e < d;
      IndexIs(t.procs, i);
      assert StartAt(t) == i;
    }
  }

  /**
   Bounded fairness: over consecutive enabled ticks a waiting process is dispatched within its
   turn, hence within list->length ticks, whoever wakes up in between.
   */
  lemma {:induction false} DispatchedInTurn(s: Sched, k: nat, frames: seq<nat>) returns (j: nat)
    requires Inv(s) && s.enabled && k < |s.procs| && s.procs[k].state == Waiting
    requires |frames| >= Turn(s, k) && forall i :: 0 <= i < |frames| ==> frames[i] != 0
    ensures 1 <= j <= Turn(s, k) <= |s.procs| && j <= |frames|
    ensures Ticks(s, frames[..j]).current == Some(s.procs[k].id)
    decreases |frames|
  {
    hide Tick, Inv, Turn;
    TurnShrinks(s, frames[0], k);
    var t := Tick(s, frames[0]).s;
    if t.current == Some(s.procs[k].id) {
      j := 1;
      assert frames[..1] == [frames[0]] && Ticks(t, []) == t;
      assert frames[..1][1..] == [];
    } else {
      j := DispatchedInTurn(t, k, frames[1..]);
      j := j + 1;
      assert frames[..j][1..] == frames[1..][..j - 1];
    }
  }

  /** scheduler_next takes the waiting process that comes first behind the current one, round the list. */
  lemma NextIff(s: Sched, i: nat)
    requires i < |s.procs| && s.procs[i].state == Waiting && StartAt(s) < |s.procs|
    ensures Next(s).Some?
    ensures Next(s) == Some(i) <==>
      forall j :: 0 <= j < |s.procs| && s.procs[j].state == Waiting ==> Turn(s, i) <= Turn(s, j)
  {
    var n, at := |s.procs|, StartAt(s);
    var e := FirstWaiting(s.procs, at, 1);
    assert After(at, Turn(s, i), n) == i;
    forall j | 0 <= j < n && s.procs[j].state == Waiting ensures e <= Turn(s, j) {
      assert After(at, Turn(s, j), n) == j;
    }
    var f := After(at, e, n);
    assert Turn(s, f) == e;
  }

  /** No process waits: the kernel's own context is resumed. */
  lemma NextNone(s: Sched)
    ensures Next(s).None? <==> forall j :: 0 <= j < |s.procs| ==> s.procs[j].state != Waiting
  {
    if s.procs != [] {
      var n, at := |s.procs|, StartAt(s);
      forall j | 0 <= j < n && Next(s).None? ensures s.procs[j].state != Waiting {
        assert After(at, Distance(at, j, n), n) == j;
      }
    }
  }

  // ---------- one step, seen from one process ----------

  /** The process p of state s after the op, up to being dispatched. */
  function Advance(s: Sched, op: Op, p: Proc): Proc {
    match op
    case TickOp(r) =>
      if !s.enabled then p
      else if s.current == Some(p.id) then p.(esp := r, state := Waiting)
      else WakeOne(p)
    case SleepOp(id, ms, r) =>
      if id != p.id then p
      else p.(state := Sleeping, sleep := TicksOf(ms), esp := if s.current == Some(id) then r else p.esp)
    case _ => p
  }

  lemma PutOne(procs: seq<Proc>, p: Proc)
    requires Distinct(procs) && Has(procs, p.id)
    ensures Distinct(Put(procs, p)) && p in Put(procs, p)
    ensures forall q :: q in procs && q.id != p.id ==> q in Put(procs, p)
  {
    var k := IndexOf(procs, p.id);
    assert Put(procs, p)[k] == p;
    forall q | q in procs && q.id != p.id ensures q in Put(procs, p) {
      var j :| 0 <= j < |procs| && procs[j] == q;
      assert Put(procs, p)[j] == q;
    }
  }

  /** A switch changes nothing of a process but that a waiting one may now be running. */
  lemma SwitchOne(s: Sched, p: Proc)
    requires Distinct(s.procs) && p in s.procs
    ensures var t := Switch(s).s;
      Distinct(t.procs) && (p in t.procs ||
        (p.state == Waiting && p.(state := Running) in t.procs && t.current == Some(p.id)))
  {
    hide FirstWaiting;
    var j :| 0 <= j < |s.procs| && s.procs[j] == p;
    var t := Switch(s).s;
    assert if Next(s) == Some(j) then t.procs[j] == p.(state := Running) else t.procs[j] == p;
  }

  lemma SavedOne(s: Sched, r: nat, p: Proc)
    requires Inv(s) && p in s.procs
    ensures var u := Save(s.(procs := Wake(s.procs)), r);
      Distinct(u.procs) && (if s.current == Some(p.id) then p.(esp := r, state := Waiting) else WakeOne(p)) in u.procs
  {
    var w := s.(procs := Wake(s.procs));
    var j :| 0 <= j < |s.procs| && s.procs[j] == p;
    assert w.procs[j] == WakeOne(p);
    SameIds(s.procs, w.procs);
    if s.current.Some? {
      HasIs(s.procs, p);
      PutOne(w.procs, Get(w.procs, s.current.value).(esp := r, state := Waiting));
      IndexIs(w.procs, j);
    }
  }

  /** After a step the process is as Advance says, or that and running. */
  lemma StepOne(s: Sched, op: Op, p: Proc)
    requires Inv(s) && Admissible(s, op) && p in s.procs && op != StopOp(p.id)
    ensures var t, q := Step(s, op).s, Advance(s, op, p);
      Distinct(t.procs) && (q in t.procs ||
        (q.state == Waiting && q.(state := Running) in t.procs && t.current == Some(p.id)))
  {
    hide Switch, Save, Wake, Without, Put;
    HasIs(s.procs, p);
    match op
    case TickOp(r) =>
      if s.enabled {
        SavedOne(s, r, p);
        SwitchOne(Save(s.(procs := Wake(s.procs)), r), Advance(s, op, p));
      }
    case StartOp(n) => StartKeepsInv(s, n);
    case StopOp(id) =>
      WithoutOne(s.procs, id);
      if s.current == Some(id) {
        SwitchOne(s.(procs := Without(s.procs, id), current := None), p);
      }
    case SleepOp(id, ms, r) =>
      var slept := Advance(s, op, Get(s.procs, id));
      PutOne(s.procs, slept);
      if s.current == Some(id) {
        SwitchOne(s.(procs := Put(s.procs, slept), current := None), Advance(s, op, p));
      }
    case EnableOp =>
    case DisableOp =>
  }

  // ---------- exact wake-up ----------

  /** Ticks during which the scheduler was enabled. */
  function EnabledTicks(s: Sched, ops: seq<Op>): nat
    requires Run(s, ops).Some?
    decreases |ops|
  {
    if ops == [] then 0
    else
      var init := ops[..|ops| - 1];
      EnabledTicks(s, init) + (if ops[|ops| - 1].TickOp? && Run(s, init).value.enabled then 1 else 0)
  }

  /** No call in ops puts process id to sleep or stops it. */
  predicate LeavesAlone(ops: seq<Op>, id: nat) {
    forall k :: 0 <= k < |ops| ==> ops[k] != StopOp(id) && !(ops[k].SleepOp? && ops[k].id == id)
  }

  /**
   A process that sleeps with counter n stays asleep for exactly n enabled ticks, counting
   down, and is woken by the next one, whatever happens to the other processes.
   */
  lemma {:induction false} WakesExactly(s: Sched, p: Proc, ops: seq<Op>) returns (q: Proc)
    requires Inv(s) && p in s.procs && p.state == Sleeping
    requires Run(s, ops).Some? && LeavesAlone(ops, p.id)
    ensures Inv(Run(s, ops).value) && q in Run(s, ops).value.procs && q.id == p.id
    ensures q.state == Sleeping <==> EnabledTicks(s, ops) <= p.sleep
    ensures q.state == Sleeping ==> q.sleep == p.sleep - EnabledTicks(s, ops)
    decreases |ops|
  {
    hide Step;
    if ops == [] {
      q := p;
    } else {
      var init, last := ops[..|ops| - 1], ops[|ops| - 1];
      q := WakesExactly(s, p, init);
      var t := Run(s, init).value;
      StepKeepsInv(t, last);
      StepOne(t, last, q);
      var i :| 0 <= i < |t.procs| && t.procs[i] == q;
      assert t.procs[i].state == Running <==> t.current == Some(q.id);
      var next := Advance(t, last, q);
      q := if next in Step(t, last).s.procs then next else next.(state := Running);
    }
  }

  /** scheduler_sleep sleeps the milliseconds asked for exactly when their hundredfold fits 32 bits. */
  lemma TicksExactIff(ms: uint32)
    ensures TicksOf(ms) == ms / 10 <==> ms * 100 < TWO32
    ensures TicksOf(ms) <= ms / 10
  {
    var k := ms * 100 / TWO32;
    assert ms * 100 == k * TWO32 + Wrap(ms * 100);
    assert k < 100;
  }

  /**
   After scheduler_sleep a process sleeps through ms / 10 enabled ticks and wakes on the next,
   whatever happens to the others; when ms * 100 does not fit 32 bits it wakes too early.
   */
  lemma SleepsAsAsked(s: Sched, id: nat, ms: uint32, r: nat, ops: seq<Op>) returns (q: Proc)
    requires Inv(s) && Has(s.procs, id) && r != 0 && LeavesAlone(ops, id)
    requires Run(Step(s, SleepOp(id, ms, r)).s, ops).Some?
    ensures var t := Step(s, SleepOp(id, ms, r)).s;
      && q in Run(t, ops).value.procs && q.id == id
      && (ms * 100 < TWO32 ==> (q.state == Sleeping <==> EnabledTicks(t, ops) <= ms / 10))
      && (ms * 100 >= TWO32 && EnabledTicks(t, ops) >= ms / 10 ==> q.state != Sleeping)
  {
    hide Step, EnabledTicks, LeavesAlone;
    var op := SleepOp(id, ms, r);
    var p := Get(s.procs, id);
    HasIs(s.procs, p);
    StepOne(s, op, p);
    StepKeepsInv(s, op);
    TicksExactIff(ms);
    q := WakesExactly(Step(s, op).s, Advance(s, op, p), ops);
  }

  // ---------- context preservation ----------

  /**
   The frame last saved for a context, read off the calls and who was running when they came,
   not off the frames the state holds: for a process the frame of the call that last took the
   processor from it, else the one it was started with; for the kernel (None) the frame of the
   last enabled tick while nothing was running.
   */
  function LastSaved(ops: seq<Op>, who: Option<nat>): nat
    requires Run(INITIAL, ops).Some?
    decreases |ops|
  {
    if ops == [] then 0
    else
      var init, last := ops[..|ops| - 1], ops[|ops| - 1];
      var s := Run(INITIAL, init).value;
      match last
      case TickOp(r) => if s.enabled && s.current == who then r else LastSaved(init, who)
      case SleepOp(id, _, r) => if s.current == who == Some(id) then r else LastSaved(init, who)
      case StartOp(p) => if who == Some(p.id) then p.esp else LastSaved(init, who)
      case _ => LastSaved(init, who)
  }

  /** What a step leaves in the static `esp`. */
  lemma StepKernel(s: Sched, op: Op)
    requires Inv(s) && Admissible(s, op)
    ensures Step(s, op).s.kernelEsp == if op.TickOp? && s.enabled && s.current.None? then op.r else s.kernelEsp
  {
    hide FirstWaiting, Wake, Without, Put;
  }

  /** Ticking, sleeping and switching on or off leave the ids of the list alone. */
  lemma StepIds(s: Sched, op: Op)
    requires Inv(s) && Admissible(s, op) && !op.StartOp? && !op.StopOp?
    ensures |Step(s, op).s.procs| == |s.procs| && forall j :: 0 <= j < |s.procs| ==>
      Step(s, op).s.procs[j].id == s.procs[j].id
  {
    hide Wake, FirstWaiting, IndexOf;
    if op.TickOp? { SavedState(s, op.r); }
  }

  /** After a step, each process either was there before or has just been started. */
  lemma WhereFrom(s: Sched, op: Op, q: Proc)
    requires Inv(s) && Admissible(s, op) && q in Step(s, op).s.procs
    ensures op == StartOp(q) || (Has(s.procs, q.id) && op != StopOp(q.id))
  {
    hide Tick, Sleep, Wake, FirstWaiting, IndexOf, Without, Switch;
    var t := Step(s, op).s;
    match op
    case StopOp(id) =>
      WithoutOne(s.procs, id);
      StepKeepsInv(s, op);
      HasIs(t.procs, q);
      SwitchIds(s.(procs := Without(s.procs, id), current := None), q.id);
      HasIs(s.procs, Get(Without(s.procs, id), q.id));
    case StartOp(p) =>
      if q != p { HasIs(s.procs, q); }
    case _ =>
      StepIds(s, op);
      var j :| 0 <= j < |t.procs| && t.procs[j] == q;
      HasIs(s.procs, s.procs[j]);
  }

  lemma SwitchIds(s: Sched, id: nat)
    requires Distinct(s.procs)
    ensures Has(Switch(s).s.procs, id) <==> Has(s.procs, id)
  {
    hide FirstWaiting;
    SameIds(s.procs, Switch(s).s.procs);
  }

  /** In every reachable state each process carries the frame last saved for it, and so does the kernel. */
  lemma {:induction false} FramesAreLastSaved(ops: seq<Op>)
    requires Run(INITIAL, ops).Some?
    ensures Run(INITIAL, ops).value.kernelEsp == LastSaved(ops, None)
    ensures forall q :: q in Run(INITIAL, ops).value.procs ==> q.esp == LastSaved(ops, Some(q.id))
    decreases |ops|
  {
    hide Step, Inv;
    if ops != [] {
      var init, last := ops[..|ops| - 1], ops[|ops| - 1];
      var s, t := Run(INITIAL, init).value, Run(INITIAL, ops).value;
      ReachableInv(init);
      FramesAreLastSaved(init);
      StepKernel(s, last);
      forall q | q in t.procs ensures q.esp == LastSaved(ops, Some(q.id)) {
        WhereFrom(s, last, q);
        if last != StartOp(q) {
          FrameStep(s, last, q);
        }
      }
    }
  }

  lemma FrameStep(s: Sched, op: Op, q: Proc)
    requires Inv(s) && Admissible(s, op) && q in Step(s, op).s.procs && Has(s.procs, q.id) && op != StopOp(q.id)
    ensures q.esp == Advance(s, op, Get(s.procs, q.id)).esp && Get(s.procs, q.id) in s.procs
  {
    hide Step, Advance;
    var p := Get(s.procs, q.id);
    StepOne(s, op, p);
    AdvanceId(s, op, p);
    var a := Advance(s, op, p);
    HasIs(Step(s, op).s.procs, q);
    HasIs(Step(s, op).s.procs, if a in Step(s, op).s.procs then a else a.(state := Running));
  }

  lemma AdvanceId(s: Sched, op: Op, p: Proc)
    ensures Advance(s, op, p).id == p.id
  {
  }

  /** What a step dispatches is the frame its target carries afterwards. */
  lemma DispatchedFrame(s: Sched, op: Op)
    requires Inv(s) && Admissible(s, op)
    ensures match Step(s, op).dispatch {
      case Resume(id, frame) =>
        Step(s, op).s.current == Some(id) && exists q :: q in Step(s, op).s.procs && q.id == id && q.esp == frame
      case Idle(frame) => Step(s, op).s.current == None && frame == Step(s, op).s.kernelEsp
      case _ => true }
  {
    hide Wake, FirstWaiting, Without, Put, Save, IndexOf;
    match op
    case TickOp(r) => if s.enabled { SwitchFrame(Save(s.(procs := Wake(s.procs)), r)); }
    case StopOp(id) => if s.current == Some(id) { SwitchFrame(s.(procs := Without(s.procs, id), current := None)); }
    case SleepOp(id, ms, r) =>
      if s.current == Some(id) {
        var slept := Get(s.procs, id).(state := Sleeping, sleep := TicksOf(ms), esp := r);
        SwitchFrame(s.(procs := Put(s.procs, slept), current := None));
      }
    case _ =>
  }

  lemma SwitchFrame(s: Sched)
    ensures match Switch(s).dispatch {
      case Resume(id, frame) =>
        Switch(s).s.current == Some(id) && exists q :: q in Switch(s).s.procs && q.id == id && q.esp == frame
      case Idle(frame) => Switch(s).s.current == None && frame == Switch(s).s.kernelEsp
      case _ => true }
  {
    hide FirstWaiting;
    if Next(s).Some? {
      var i := Next(s).value;
      assert Switch(s).s.procs[i] in Switch(s).s.procs;
    }
  }

  /**
   Context preservation: over every run, the frame a process is resumed with is the one saved
   when it last stopped running, or the one it was started with; the idle path resumes the
   frame last saved while no process was current.
   */
  lemma ContextPreserved(ops: seq<Op>, op: Op)
    requires Run(INITIAL, ops + [op]).Some?
    ensures Run(INITIAL, ops).Some? && Admissible(Run(INITIAL, ops).value, op)
    ensures match Step(Run(INITIAL, ops).value, op).dispatch {
      case Resume(id, frame) => frame == LastSaved(ops + [op], Some(id))
      case Idle(frame) => frame == LastSaved(ops + [op], None)
      case _ => true }
  {
    hide Step, LastSaved;
    assert (ops + [op])[..|ops|] == ops;
    ReachableInv(ops);
    FramesAreLastSaved(ops + [op]);
    DispatchedFrame(Run(INITIAL, ops).value, op);
  }
}
