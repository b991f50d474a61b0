/**
 The scheduler of kernel/src/execution/scheduler.c on values: the process list in list
 order, the current process, and one function per entry point. Each entry point is one
 atomic step; a context switch is the frame that is dispatched.
 */
module SchedulerModel {
  import opened Bytes

  datatype State = Waiting | Running | Sleeping

  /** The fields of process_t the scheduler uses; esp points at the saved frame. */
  datatype Proc = Proc(id: nat, state: State, sleep: uint32, esp: nat)

  /** kernelEsp is the static `esp`, 0 while it is NULL. current is the id of the running process. */
  datatype Sched = Sched(procs: seq<Proc>, current: Option<nat>, enabled: bool, kernelEsp: nat)

  /** What isr_restore resumes: nothing when there is no switch; Halt is the failed assert on `esp`. */
  datatype Dispatch = Stay | Halt | Idle(frame: nat) | Resume(id: nat, frame: nat)

  datatype Outcome = Outcome(s: Sched, dispatch: Dispatch)

  const INITIAL: Sched := Sched([], None, false, 0)

  // ---------- the list ----------

  function IndexOf(procs: seq<Proc>, id: nat): (i: nat)
    ensures i <= |procs|
    ensures i < |procs| ==> procs[i].id == id
    ensures forall j :: 0 <= j < i ==> procs[j].id != id
  {
    if procs == [] || procs[0].id == id then 0 else 1 + IndexOf(procs[1..], id)
  }

  predicate Has(procs: seq<Proc>, id: nat) {
    IndexOf(procs, id) < |procs|
  }

  /** The process at an id. */
  function Get(procs: seq<Proc>, id: nat): Proc
    requires Has(procs, id)
  {
    procs[IndexOf(procs, id)]
  }

  function Put(procs: seq<Proc>, p: Proc): (r: seq<Proc>)
    requires Has(procs, p.id)
    ensures |r| == |procs|
  {
    procs[IndexOf(procs, p.id) := p]
  }

  // ---------- choosing the next process ----------

  /** The index d places after index at in the circular list; d is 1 to n. */
  function After(at: nat, d: nat, n: nat): (i: nat)
    requires at < n && 1 <= d <= n
    ensures i < n
  {
    if at + d < n then at + d else at + d - n
  }

  /** How many places index i comes after index at. */
  function Distance(at: nat, i: nat, n: nat): (d: nat)
    requires at < n && i < n
    ensures 1 <= d <= n && After(at, d, n) == i
  {
    if at < i then i - at else i + n - at
  }

  /** The least distance from d on at which a process waits, n + 1 if there is none. */
  function FirstWaiting(procs: seq<Proc>, at: nat, d: nat): (e: nat)
    requires at < |procs| && 1 <= d <= |procs| + 1
    ensures d <= e <= |procs| + 1
    ensures e <= |procs| ==> procs[After(at, e, |procs|)].state == Waiting
    ensures forall x :: d <= x < e ==> procs[After(at, x, |procs|)].state != Waiting
    decreases |procs| - d
  {
    if d == |procs| + 1 || procs[After(at, d, |procs|)].state == Waiting then d else FirstWaiting(procs, at, d + 1)
  }

  /** Where scheduler_next starts: at the current process, else at the head of the list. */
  function StartAt(s: Sched): nat {
    if s.current.Some? && Has(s.procs, s.current.value) then IndexOf(s.procs, s.current.value) else 0
  }

  /** scheduler_next: the index of the process to run. */
  function Next(s: Sched): (r: Option<nat>)
    ensures r.Some? ==> r.value < |s.procs|
  {
    if s.procs == [] then None
    else
      var d := FirstWaiting(s.procs, StartAt(s), 1);
      if d > |s.procs| then None else Some(After(StartAt(s), d, |s.procs|))
  }

  /** scheduler_switch. */
  function Switch(s: Sched): Outcome {
    match Next(s)
    case None => Outcome(s.(current := None), if s.kernelEsp == 0 then Halt else Idle(s.kernelEsp))
    case Some(i) =>
      var p := s.procs[i];
      Outcome(s.(procs := s.procs[i := p.(state := Running)], current := Some(p.id)), Resume(p.id, p.esp))
  }

  // ---------- the entry points ----------

  function WakeOne(p: Proc): Proc {
    if p.state != Sleeping then p
    else if p.sleep == 0 then p.(state := Waiting)
    else p.(sleep := p.sleep - 1)
  }

  function Wake(procs: seq<Proc>): (r: seq<Proc>)
    ensures |r| == |procs| && forall i :: 0 <= i < |procs| ==> r[i] == WakeOne(procs[i])
  {
    seq(|procs|, i requires 0 <= i < |procs| => WakeOne(procs[i]))
  }

  /** Save the interrupted frame: for the kernel, or for the current process, which waits from now on. */
  function Save(s: Sched, r: nat): Sched {
    if s.current.None? then s.(kernelEsp := r)
    else if !Has(s.procs, s.current.value) then s
    else s.(procs := Put(s.procs, Get(s.procs, s.current.value).(esp := r, state := Waiting)))
  }

  /** scheduler_handle_irq. */
  function Tick(s: Sched, r: nat): Outcome {
    if !s.enabled then Outcome(s, Stay) else Switch(Save(s.(procs := Wake(s.procs)), r))
  }

  /** scheduler_start. */
  function Start(s: Sched, p: Proc): Outcome {
    Outcome(s.(procs := s.procs + [p]), Stay)
  }

  function Without(procs: seq<Proc>, id: nat): seq<Proc>
    requires Has(procs, id)
  {
    procs[..IndexOf(procs, id)] + procs[IndexOf(procs, id) + 1..]
  }

  /** scheduler_stop. */
  function Stop(s: Sched, id: nat): Outcome
    requires Has(s.procs, id)
  {
    var t := s.(procs := Without(s.procs, id));
    if s.current == Some(id) then Switch(t.(current := None)) else Outcome(t, Stay)
  }

  /** PIT_INTERRUPTS_PER_SECOND is 100; the product wraps at 32 bits. */
  function TicksOf(ms: uint32): uint32 {
    Wrap(ms * 100) / 1000
  }

  /** scheduler_sleep. */
  function Sleep(s: Sched, id: nat, ms: uint32, r: nat): Outcome
    requires Has(s.procs, id)
  {
    var p := Get(s.procs, id).(state := Sleeping, sleep := TicksOf(ms));
    if s.current == Some(id) then
      Switch(s.(procs := Put(s.procs, p.(esp := r)), current := None))
    else
      Outcome(s.(procs := Put(s.procs, p)), Stay)
  }

  // ---------- the invariant ----------

  ghost predicate Distinct(procs: seq<Proc>) {
    forall i, j :: 0 <= i < j < |procs| ==> procs[i].id != procs[j].id
  }

  /** RUNNING means current; current is in the list, and the kernel's frame has been saved by then. */
  ghost predicate Inv(s: Sched) {
    && Distinct(s.procs)
    && (forall i :: 0 <= i < |s.procs| ==> (s.procs[i].state == Running <==> s.current == Some(s.procs[i].id)))
    && (s.current.Some? ==> Has(s.procs, s.current.value) && s.kernelEsp != 0)
  }

  lemma IndexIs(procs: seq<Proc>, i: nat)
    requires Distinct(procs) && i < |procs|
    ensures IndexOf(procs, procs[i].id) == i
  {
  }

  lemma SameIds(a: seq<Proc>, b: seq<Proc>)
    requires Distinct(a) && |a| == |b| && forall i :: 0 <= i < |a| ==> a[i].id == b[i].id
    ensures Distinct(b) && forall id :: IndexOf(a, id) == IndexOf(b, id)
  {
    forall id ensures IndexOf(a, id) == IndexOf(b, id) {
      var i, j := IndexOf(a, id), IndexOf(b, id);
      assert i < |a| ==> j <= i;
      assert j < |b| ==> i <= j;
    }
  }

  /** Before a switch: no process is marked RUNNING. */
  ghost predicate Ready(s: Sched) {
    && Distinct(s.procs)
    && (forall i :: 0 <= i < |s.procs| ==> s.procs[i].state != Running)
    && s.kernelEsp != 0
  }

  lemma SwitchKeepsInv(s: Sched)
    requires Ready(s)
    ensures Inv(Switch(s).s) && !Switch(s).dispatch.Halt?
  {
    hide FirstWaiting, After;
    if Next(s).Some? {
      var i := Next(s).value;
      var t := Switch(s).s;
      assert Distinct(t.procs);
      IndexIs(t.procs, i);
    }
  }

  lemma TickReady(s: Sched, r: nat)
    requires Inv(s) && r != 0
    ensures Ready(Save(s.(procs := Wake(s.procs)), r))
  {
    hide Wake, IndexOf;
    var w := s.(procs := Wake(s.procs));
    SameIds(s.procs, w.procs);
    if s.current.Some? {
      SameIds(w.procs, Save(w, r).procs);
    }
  }

  lemma TickKeepsInv(s: Sched, r: nat)
    requires Inv(s) && r != 0
    ensures Inv(Tick(s, r).s) && !Tick(s, r).dispatch.Halt?
  {
    if s.enabled {
      TickReady(s, r);
      SwitchKeepsInv(Save(s.(procs := Wake(s.procs)), r));
    }
  }

  lemma StartKeepsInv(s: Sched, p: Proc)
    requires Inv(s) && !Has(s.procs, p.id) && p.state != Running
    ensures Inv(Start(s, p).s)
  {
    var t := Start(s, p).s;
    assert t.procs[|s.procs|] == p;
    assert Distinct(t.procs);
    if s.current.Some? {
      IndexIs(t.procs, IndexOf(s.procs, s.current.value));
    }
  }

  /** The list without one process: the others, each at its place or one before it. */
  lemma WithoutAt(procs: seq<Proc>, id: nat)
    requires Has(procs, id)
    ensures var k := IndexOf(procs, id);
      && |Without(procs, id)| == |procs| - 1
      && (forall j :: 0 <= j < k ==> Without(procs, id)[j] == procs[j])
      && (forall j :: k <= j < |procs| - 1 ==> Without(procs, id)[j] == procs[j + 1])
  {
  }

  lemma WithoutOne(procs: seq<Proc>, id: nat)
    requires Distinct(procs) && Has(procs, id)
    ensures Distinct(Without(procs, id)) && forall q :: q in Without(procs, id) ==> q in procs && q.id != id
    ensures forall q :: q in procs && q.id != id ==> q in Without(procs, id)
  {
    hide Without;
    WithoutAt(procs, id);
    var k, r := IndexOf(procs, id), Without(procs, id);
    forall q | q in procs && q.id != id ensures q in r {
      var j :| 0 <= j < |procs| && procs[j] == q;
      assert j != k && r[if j < k then j else j - 1] == q;
    }
  }

  lemma HasIs(procs: seq<Proc>, p: Proc)
    requires p in procs
    ensures Has(procs, p.id)
    ensures Distinct(procs) ==> Get(procs, p.id) == p
  {
    var i :| 0 <= i < |procs| && procs[i] == p;
    if Distinct(procs) { IndexIs(procs, i); }
  }

  lemma StopKeepsInv(s: Sched, id: nat)
    requires Inv(s) && Has(s.procs, id)
    ensures Inv(Stop(s, id).s) && !Stop(s, id).dispatch.Halt?
  {
    hide Switch, Without;
    WithoutOne(s.procs, id);
    var t := s.(procs := Without(s.procs, id));
    if s.current == Some(id) {
      forall j | 0 <= j < |t.procs| ensures t.procs[j].state != Running {
        assert t.procs[j] in t.procs;
      }
      SwitchKeepsInv(t.(current := None));
    } else {
      forall j | 0 <= j < |t.procs| ensures t.procs[j].state == Running <==> t.current == Some(t.procs[j].id) {
        assert t.procs[j] in t.procs;
      }
      if s.current.Some? {
        HasIs(t.procs, Get(s.procs, s.current.value));
      }
    }
  }

  lemma SleepKeepsInv(s: Sched, id: nat, ms: uint32, r: nat)
    requires Inv(s) && Has(s.procs, id)
    ensures Inv(Sleep(s, id, ms, r).s) && !Sleep(s, id, ms, r).dispatch.Halt?
  {
    var k := IndexOf(s.procs, id);
    var p := Get(s.procs, id).(state := Sleeping, sleep := TicksOf(ms));
    if s.current == Some(id) {
      var t := s.(procs := Put(s.procs, p.(esp := r)), current := None);
      forall j | 0 <= j < |t.procs| ensures t.procs[j].state != Running {
        assert j != k ==> s.procs[j].id != s.procs[k].id;
      }
      SwitchKeepsInv(t);
    } else {
      var t := s.(procs := Put(s.procs, p));
      assert Distinct(t.procs);
      if s.current.Some? { IndexIs(t.procs, IndexOf(s.procs, s.current.value)); }
    }
  }
}
