/**
 kernel/src/execution/scheduler.c: the static variables and the loops over the linked process
 list, each entry point proved against its function in SchedulerModel.
 */
module SchedulerDriver {
  import opened Bytes
  import opened SchedulerModel
  import opened ProcessList

  ghost function Views(ps: seq<Process>): (r: seq<Proc>)
    reads ps
    ensures |r| == |ps| && forall i :: 0 <= i < |ps| ==> r[i] == ps[i].View()
  {
    if ps == [] then [] else [ps[0].View()] + Views(ps[1..])
  }

  lemma ViewsAre(ps: seq<Process>, r: seq<Proc>)
    requires |r| == |ps| && forall i :: 0 <= i < |ps| ==> r[i] == ps[i].View()
    ensures Views(ps) == r
  {
  }

  /** One process changed: the views are those of before with its place updated. */
  lemma OneChanged(ps: seq<Process>, k: nat, before: seq<Proc>)
    requires k < |ps| == |before|
    requires forall i :: 0 <= i < |ps| && i != k ==> ps[i].View() == before[i]
    ensures Views(ps) == before[k := ps[k].View()]
  {
    ViewsAre(ps, before[k := ps[k].View()]);
  }

  class Scheduler {
    var list: List
    var current: Process?
    var enabled: bool
    var esp: nat

    /** The list is sound and no id is in it twice. */
    ghost predicate ListOk()
      reads this`list, list, list.nodes
    {
      && list.Valid()
      && (forall i, j :: 0 <= i < j < |list.values| ==> list.values[i].id != list.values[j].id)
    }

    ghost predicate Valid()
      reads this, list, list.nodes
    {
      ListOk() && (current != null ==> current in list.values)
    }

    /** The state as a value. */
    ghost function Model(): Sched
      reads this, list, list.values
    {
      Sched(Views(list.values), if current == null then None else Some(current.id), enabled, esp)
    }

    /** scheduler_init, with the list empty. */
    constructor ()
      ensures Valid() && Model() == INITIAL && fresh(list) && fresh(list.low)
    {
      list := new List();
      current, enabled, esp := null, false, 0;
    }

    /** Where the process at position k is in the model. */
    lemma ModelAt(k: nat)
      requires ListOk() && k < |list.values|
      ensures Distinct(Model().procs) && Model().procs[k] == list.values[k].View()
      ensures IndexOf(Model().procs, list.values[k].id) == k
      ensures forall i :: 0 <= i < |list.values| && i != k ==> list.values[i] != list.values[k]
    {
      assert Distinct(Model().procs);
      IndexIs(Model().procs, k);
    }

    lemma LengthIs()
      requires Valid()
      ensures list.length == |list.nodes| == |list.values|
    {
    }

    /** The node behind node k, at the end the head again. */
    method Round(node: Node, ghost k: nat) returns (after: Node, ghost next: nat)
      requires Valid() && k < |list.nodes| && node == list.nodes[k]
      ensures next == if k + 1 < |list.nodes| then k + 1 else 0
      ensures next < |list.values| && after == list.nodes[next] && after.value == list.values[next]
    {
      hide Nth;
      HeadOf(list.nodes);
      NextOf(list.nodes, list.values, k);
      next := if k + 1 < |list.nodes| then k + 1 else 0;
      if node.next == null {
        after := list.head;
      } else {
        after := node.next;
      }
    }

    /** Where scheduler_next starts: the node of the current process, else the head. */
    method StartNode() returns (node: Node?, ghost at: nat)
      requires Valid()
      ensures |list.nodes| == |list.values| && (node == null <==> list.nodes == [])
      ensures node != null ==> at == StartAt(Model()) < |list.nodes| && node == list.nodes[at]
    {
      HeadOf(list.nodes);
      node, at := list.head, 0;
      if current != null {
        node, at := list.Find(current);
        ModelAt(at);
      }
    }

    /** The loop of scheduler_next: round the list once, from behind the start node. */
    method SearchFrom(start: Node, ghost at: nat) returns (p: Process?, ghost k: nat)
      requires Valid() && at < |list.nodes| == |list.values| && start == list.nodes[at]
      ensures var d := FirstWaiting(Model().procs, at, 1);
        && (p == null <==> d > |list.values|)
        && (p != null ==> k == After(at, d, |list.values|) && p == list.values[k])
    {
      hide FirstWaiting, Links, ListOk, IndexOf, Views, Nth, After, NoneWaits;
      LengthIs();
      p, k := null, at;
      var node := start;
      ghost var procs := Model().procs;
      NoneYet(procs, at);
      for i := 0 to list.length
        invariant k < |procs| && node == list.nodes[k] && k == if i == 0 then at else After(at, i, |procs|)
        invariant NoneWaits(procs, at, i)
      {
        AfterNext(at, i, |procs|);
        node, k := Round(node, k);
        assert procs[k] == list.values[k].View();
        WaitsOrNot(procs, at, i);
        if node.value.state == Waiting {
          p := node.value;
          return;
        }
      }
      NoneAtAll(procs, at);
    }

    /** scheduler_next. On an empty list the loop does not run. */
    method Next() returns (p: Process?, ghost k: nat)
      requires Valid()
      ensures p == null <==> SchedulerModel.Next(Model()).None?
      ensures p != null ==> SchedulerModel.Next(Model()) == Some(k) && k < |list.values| && p == list.values[k]
    {
      hide FirstWaiting, StartAt, SchedulerModel.Next, Links, IndexOf, After;
      p := null;
      var node;
      node, k := StartNode();
      if node == null {
        NextOfEmpty(Model());
        return;
      }
      NextFound(Model());
      p, k := SearchFrom(node, k);
    }

    /** scheduler_switch; the frame it resumes is the result. */
    method Switch() returns (d: Dispatch)
      requires Valid()
      modifies this`current, list.values
      ensures Valid() && Outcome(Model(), d) == SchedulerModel.Switch(old(Model()))
    {
      hide SchedulerModel.Next, IndexOf, Views, ListOk;
      ghost var m := Model();
      var p, k := Next();
      current := p;
      if p == null {
        return if esp == 0 then Halt else Idle(esp);
      }
      ModelAt(k);
      p.state := Running;
      OneChanged(list.values, k, m.procs);
      return Resume(p.id, p.esp);
    }

    /** One sleeper is counted down or woken. */
    method WakeProcess(process: Process)
      modifies process
      ensures process.View() == WakeOne(old(process.View()))
    {
      if process.state == Sleeping {
        if process.sleep == 0 {
          process.state := Waiting;
        } else {
          process.sleep := process.sleep - 1;
        }
      }
    }

    /** The loop of scheduler_handle_irq that counts the sleepers down. */
    method WakeAll()
      requires Valid()
      modifies list.values
      ensures Valid() && Model() == old(Model()).(procs := Wake(old(Model()).procs))
    {
      hide Nth, Views, Links, WakeOne;
      ghost var m, k := Model(), 0;
      HeadOf(list.nodes);
      LengthIs();
      var node := list.head;
      while node != null
        invariant Valid() && k <= |list.values|
        invariant if node == null then k == |list.values| else k < |list.values| && node == list.nodes[k]
        invariant forall i :: 0 <= i < k ==> list.values[i].View() == WakeOne(m.procs[i])
        invariant forall i :: k <= i < |list.values| ==> list.values[i].View() == m.procs[i]
        decreases |list.values| - k
      {
        NextOf(list.nodes, list.values, k);
        WakeProcess(node.value);
        node := node.next;
        k := k + 1;
      }
      ViewsAre(list.values, Wake(m.procs));
    }

    /** The frame pointer r goes to the kernel, or to the current process, which waits from now on. */
    method SaveFrame(r: nat)
      requires Valid()
      modifies this`esp, list.values
      ensures Valid() && Model() == Save(old(Model()), r)
    {
      hide Views, ListOk, Save;
      ghost var m := Model();
      if current == null {
        esp := r;
        SaveKernel(m, r);
      } else {
        ghost var k :| 0 <= k < |list.values| && list.values[k] == current;
        ModelAt(k);
        SaveCurrent(m, r, k);
        current.esp := r;
        current.state := Waiting;
        OneChanged(list.values, k, m.procs);
      }
    }

    /** scheduler_handle_irq. */
    method HandleIrq(r: nat) returns (d: Dispatch)
      requires Valid() && r != 0
      modifies this`current, this`esp, list.values
      ensures Valid() && Outcome(Model(), d) == Tick(old(Model()), r)
    {
      hide Views, Wake, Save, SchedulerModel.Switch;
      if !enabled {
        return Stay;
      }
      WakeAll();
      SaveFrame(r);
      d := Switch();
    }

    method Enable()
      requires Valid()
      modifies this`enabled
      ensures Valid() && Model() == old(Model()).(enabled := true)
    {
      enabled := true;
    }

    method Disable()
      requires Valid()
      modifies this`enabled
      ensures Valid() && Model() == old(Model()).(enabled := false)
    {
      enabled := false;
    }

    /** scheduler_start. */
    method Start(process: Process)
      requires Valid() && !Has(Model().procs, process.id)
      modifies list, list.nodes
      ensures Valid() && Outcome(Model(), Stay) == SchedulerModel.Start(old(Model()), process.View())
    {
      hide Views;
      ghost var m := Model();
      forall i | 0 <= i < |list.values| ensures list.values[i].id != process.id {
        assert m.procs[i].id == list.values[i].id;
        AtLeastThere(m.procs, i);
      }
      list.Insert(process);
      ViewsAre(list.values, m.procs + [process.View()]);
    }

    /** list_delete of a process, in the model's terms; `current` may be left dangling. */
    method Remove(process: Process)
      requires Valid() && process in list.values
      modifies list, list.nodes, list.low
      ensures ListOk() && process !in list.values
      ensures current != null && current != process ==> current in list.values
      ensures forall i :: 0 <= i < |list.values| ==> list.values[i] in old(list.values)
      ensures Has(old(Model()).procs, process.id)
      ensures Model() == old(Model()).(procs := Without(old(Model()).procs, process.id))
    {
      hide Views, Links, IndexOf, Without;
      ghost var m, vs := Model(), list.values;
      ghost var k := list.Delete(process);
      assert m.procs[k].id == process.id && Distinct(m.procs);
      IndexIs(m.procs, k);
      WithoutAt(m.procs, process.id);
      assert forall i :: 0 <= i < |list.values| ==> list.values[i] == vs[if i < k then i else i + 1];
      ViewsAre(list.values, Without(m.procs, process.id));
      if current != null && current != process {
        StillThere(vs, k, current);
      }
    }

    /** The processor goes from the current process, which is left behind, to the next one. */
    method HandOn() returns (d: Dispatch)
      requires ListOk()
      modifies this`current, list.values
      ensures Valid() && Outcome(Model(), d) == SchedulerModel.Switch(old(Model()).(current := None))
    {
      hide Views, ListOk, SchedulerModel.Switch;
      current := null;
      d := Switch();
    }

    lemma CurrentIs(process: Process)
      requires Valid() && process in list.values
      ensures Model().current == Some(process.id) <==> current == process
    {
    }

    /** scheduler_stop; process_destroy frees the process's memory. */
    method Stop(process: Process) returns (d: Dispatch)
      requires Valid() && process in list.values
      modifies this`current, list, list.nodes, list.low, list.values
      ensures Valid() && Has(old(Model()).procs, process.id)
      ensures Outcome(Model(), d) == SchedulerModel.Stop(old(Model()), process.id)
    {
      CurrentIs(process);
      hide Model, IndexOf, Without, SchedulerModel.Switch, ListOk;
      Remove(process);
      if current == process {
        d := HandOn();
      } else {
        d := Stay;
      }
    }

    /** scheduler_sleep of a process in the list; r is the frame of the call. */
    method Sleep(process: Process, ms: uint32, r: nat) returns (d: Dispatch)
      requires Valid() && process in list.values
      modifies this`current, list.values
      ensures Valid() && Outcome(Model(), d) == SchedulerModel.Sleep(old(Model()), process.id, ms, r)
    {
      hide Views, SchedulerModel.Switch, ListOk, IndexOf;
      ghost var m := Model();
      ghost var k :| 0 <= k < |list.values| && list.values[k] == process;
      ModelAt(k);
      var ticks := Wrap(ms * 100) / 1000;
      process.state := Sleeping;
      process.sleep := ticks;
      if current == process {
        process.esp := r;
        OneChanged(list.values, k, m.procs);
        d := HandOn();
      } else {
        OneChanged(list.values, k, m.procs);
        d := Stay;
      }
    }
  }

  lemma SaveKernel(s: Sched, r: nat)
    requires s.current.None?
    ensures Save(s, r) == s.(kernelEsp := r)
  {
  }

  lemma SaveCurrent(s: Sched, r: nat, k: nat)
    requires k < |s.procs| && s.current == Some(s.procs[k].id) && IndexOf(s.procs, s.procs[k].id) == k
    ensures Save(s, r) == s.(procs := s.procs[k := s.procs[k].(esp := r, state := Waiting)])
  {
    hide IndexOf;
  }

  lemma AtLeastThere(procs: seq<Proc>, i: nat)
    requires i < |procs|
    ensures Has(procs, procs[i].id)
  {
  }

  lemma StillThere(vs: seq<Process>, k: nat, p: Process)
    requires k < |vs| && p in vs && p != vs[k]
    ensures p in vs[..k] + vs[k + 1..]
  {
    var i :| 0 <= i < |vs| && vs[i] == p;
    assert (vs[..k] + vs[k + 1..])[if i < k then i else i - 1] == p;
  }

  /** One place further round the list. */
  lemma AfterNext(at: nat, i: nat, n: nat)
    requires at < n && i < n
    ensures var k := if i == 0 then at else After(at, i, n);
      After(at, i + 1, n) == if k + 1 < n then k + 1 else 0
  {
  }

  lemma NextFound(s: Sched)
    requires StartAt(s) < |s.procs|
    ensures var d := FirstWaiting(s.procs, StartAt(s), 1);
      SchedulerModel.Next(s) == if d > |s.procs| then None else Some(After(StartAt(s), d, |s.procs|))
  {
    hide FirstWaiting, StartAt;
  }

  lemma NextOfEmpty(s: Sched)
    ensures s.procs == [] ==> SchedulerModel.Next(s).None?
  {
  }

  /** No process up to i places behind index at waits. */
  ghost predicate NoneWaits(procs: seq<Proc>, at: nat, i: nat)
    requires at < |procs| && i <= |procs|
  {
    forall x :: 1 <= x <= i ==> procs[After(at, x, |procs|)].state != Waiting
  }

  lemma NoneYet(procs: seq<Proc>, at: nat)
    requires at < |procs|
    ensures NoneWaits(procs, at, 0)
  {
  }

  lemma WaitsOrNot(procs: seq<Proc>, at: nat, i: nat)
    requires at < |procs| && i < |procs| && NoneWaits(procs, at, i)
    ensures procs[After(at, i + 1, |procs|)].state == Waiting ==> FirstWaiting(procs, at, 1) == i + 1
    ensures procs[After(at, i + 1, |procs|)].state != Waiting ==> NoneWaits(procs, at, i + 1)
  {
    hide FirstWaiting, After;
  }

  lemma NoneAtAll(procs: seq<Proc>, at: nat)
    requires at < |procs| && NoneWaits(procs, at, |procs|)
    ensures FirstWaiting(procs, at, 1) == |procs| + 1
  {
    hide FirstWaiting, After;
  }
}
