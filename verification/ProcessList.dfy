/** The doubly linked list of kernel/src/list.c, as the scheduler uses it for its processes. */
module ProcessList {
  import opened Bytes
  import opened SchedulerModel

  /** process_t; ebp and eip only matter to process.c. */
  class Process {
    const id: nat
    var state: State
    var sleep: uint32
    var esp: nat

    /** process_create: waiting, with a frame built on its own stack. */
    constructor (id: nat, esp: nat)
      ensures this.id == id && View() == Proc(id, Waiting, 0, esp)
    {
      this.id := id;
      state, sleep, this.esp := Waiting, 0, esp;
    }

    function View(): Proc
      reads this
    {
      Proc(id, state, sleep, esp)
    }
  }

  class Node {
    var previous: Node?
    var next: Node?
    var value: Process?

    constructor (value: Process?)
      ensures previous == null && next == null && this.value == value
    {
      previous, next, this.value := null, null, value;
    }
  }

  /** Node i of a sequence of nodes, NULL outside it. */
  function Nth(ns: seq<Node>, i: int): Node? {
    if 0 <= i < |ns| then ns[i] else null
  }

  ghost predicate DistinctNodes(ns: seq<Node>) {
    forall i, j :: 0 <= i < j < |ns| ==> ns[i] != ns[j]
  }

  /** The nodes hold the values and are linked in order, both ways. */
  ghost predicate Links(ns: seq<Node>, vs: seq<Process>)
    reads ns
  {
    && |ns| == |vs| && DistinctNodes(ns)
    && (forall i {:trigger ns[i].value} :: 0 <= i < |ns| ==> ns[i].value == vs[i])
    && (forall i {:trigger ns[i].previous} :: 0 <= i < |ns| ==> ns[i].previous == Nth(ns, i - 1))
    && (forall i {:trigger ns[i].next} :: 0 <= i < |ns| ==> ns[i].next == Nth(ns, i + 1))
  }

  /** As Links, but the links jump over node k. */
  ghost predicate LinksAround(ns: seq<Node>, vs: seq<Process>, k: nat)
    reads ns
  {
    && |ns| == |vs| && DistinctNodes(ns) && k < |ns|
    && (forall i {:trigger ns[i].value} :: 0 <= i < |ns| && i != k ==> ns[i].value == vs[i])
    && (forall i {:trigger ns[i].previous} :: 0 <= i < |ns| && i != k ==>
      ns[i].previous == Nth(ns, if i - 1 == k then k - 1 else i - 1))
    && (forall i {:trigger ns[i].next} :: 0 <= i < |ns| && i != k ==>
      ns[i].next == Nth(ns, if i + 1 == k then k + 1 else i + 1))
  }

  lemma NthIs(ns: seq<Node>)
    ensures forall i :: 0 <= i < |ns| ==> Nth(ns, i) == ns[i]
    ensures forall i :: !(0 <= i < |ns|) ==> Nth(ns, i) == null
  {
  }

  lemma Shorten(ns: seq<Node>, vs: seq<Process>, k: nat)
    requires LinksAround(ns, vs, k)
    ensures Links(ns[..k] + ns[k + 1..], vs[..k] + vs[k + 1..])
  {
    hide Nth;
    var ms, ws := ns[..k] + ns[k + 1..], vs[..k] + vs[k + 1..];
    forall i | 0 <= i < |ms|
      ensures ms[i].value == ws[i] && ms[i].previous == Nth(ms, i - 1) && ms[i].next == Nth(ms, i + 1)
    {
      var j := if i < k then i else i + 1;
      assert ms[i] == ns[j] && ws[i] == vs[j];
      Neighbours(ns, k, i);
    }
    assert DistinctNodes(ms);
  }

  /** The neighbours of node i in the list without node k. */
  lemma Neighbours(ns: seq<Node>, k: nat, i: nat)
    requires k < |ns| && i < |ns| - 1
    ensures var ms, j := ns[..k] + ns[k + 1..], if i < k then i else i + 1;
      && Nth(ms, i - 1) == Nth(ns, if j - 1 == k then k - 1 else j - 1)
      && Nth(ms, i + 1) == Nth(ns, if j + 1 == k then k + 1 else j + 1)
  {
  }

  /** All nodes linked but the last one, whose next is the new node n. */
  ghost predicate LinksUpTo(ns: seq<Node>, vs: seq<Process>, n: Node)
    reads ns, n
  {
    && |ns| == |vs| > 0 && DistinctNodes(ns) && n !in ns
    && (forall i {:trigger ns[i].value} :: 0 <= i < |ns| ==> ns[i].value == vs[i])
    && (forall i {:trigger ns[i].previous} :: 0 <= i < |ns| ==> ns[i].previous == Nth(ns, i - 1))
    && (forall i {:trigger ns[i].next} :: 0 <= i < |ns| - 1 ==> ns[i].next == ns[i + 1])
    && ns[|ns| - 1].next == n && n.previous == ns[|ns| - 1] && n.next == null
  }

  lemma Lengthen(ns: seq<Node>, vs: seq<Process>, n: Node, v: Process)
    requires LinksUpTo(ns, vs, n) && n.value == v
    ensures Links(ns + [n], vs + [v])
  {
    hide Nth;
    NthIs(ns);
    NthIs(ns + [n]);
  }

  /**
   list_t. `low` is what lies at address 0: the kernel runs without paging, so the writes
   list_delete makes through a NULL neighbour land there.
   */
  class List {
    var head: Node?
    var length: nat
    const low: Node
    ghost var nodes: seq<Node>
    ghost var values: seq<Process>

    ghost predicate Valid()
      reads this, nodes
    {
      low !in nodes && length == |nodes| && head == Nth(nodes, 0) && Links(nodes, values)
    }

    constructor ()
      ensures Valid() && nodes == [] && values == [] && fresh(low)
    {
      low := new Node(null);
      head, length, nodes, values := null, 0, [], [];
    }

    /** list_find: the first node that holds the value. */
    method Find(value: Process) returns (node: Node?, ghost k: nat)
      requires Valid()
      ensures node == null <==> value !in values
      ensures node != null ==> k < |nodes| && node == nodes[k] && values[k] == value && value !in values[..k]
    {
      node, k := head, 0;
      while node != null
        invariant k <= |nodes| && node == Nth(nodes, k) && value !in values[..k]
        decreases |nodes| - k
      {
        if node.value == value {
          return;
        }
        assert values[..k + 1] == values[..k] + [values[k]];
        node := node.next;
        k := k + 1;
      }
      assert values[..k] == values;
    }

    /** list_insert: append behind the last node. */
    method Insert(value: Process)
      requires Valid()
      modifies this, nodes
      ensures Valid() && values == old(values) + [value]
      ensures |nodes| == |old(nodes)| + 1 && nodes[..|old(nodes)|] == old(nodes) && fresh(nodes[|old(nodes)|])
    {
      hide Nth, Links, LinksUpTo;
      HeadOf(nodes);
      AsManyValues(nodes, values);
      var created := new Node(value);
      if head == null {
        head := created;
        length := length + 1;
        nodes, values := [created], [value];
        OneNode(created, value);
        return;
      }
      var node := LastNode();
      LinkBehind(node, created);
      length := length + 1;
      Lengthen(nodes, values, created, value);
      HeadOf(nodes + [created]);
      nodes, values := nodes + [created], values + [value];
    }

    /** The stores of list_insert behind the last node. */
    method LinkBehind(node: Node, created: Node)
      requires Valid() && nodes != [] && node == nodes[|nodes| - 1]
      requires created !in nodes && created.next == null
      modifies node`next, created`previous
      ensures LinksUpTo(nodes, values, created)
    {
      hide Nth;
      Chained(nodes, values);
      node.next := created;
      created.previous := node;
    }

    /** The loop of list_insert that runs to the end of the list. */
    method LastNode() returns (node: Node)
      requires Valid() && head != null
      ensures nodes != [] && node == nodes[|nodes| - 1]
    {
      hide Nth, Links;
      HeadOf(nodes);
      node := head;
      ghost var k := 0;
      NextOf(nodes, values, 0);
      while node.next != null
        invariant k < |nodes| && node == nodes[k]
        invariant if k == |nodes| - 1 then node.next == null else node.next == nodes[k + 1]
        decreases |nodes| - k
      {
        node := node.next;
        k := k + 1;
        NextOf(nodes, values, k);
      }
    }

    /** The stores of list_delete to the neighbours of node k. */
    method Unlink(node: Node, ghost k: nat)
      requires Valid() && k < |nodes| && node == nodes[k]
      modifies nodes, low
      ensures LinksAround(nodes, values, k) && low !in nodes
      ensures node.next == Nth(nodes, k + 1)
      ensures 0 < k < |nodes| - 1 ==> unchanged(low)
      ensures low.next == if k == 0 then Nth(nodes, 1) else old(low.next)
      ensures low.previous == if k == |nodes| - 1 then Nth(nodes, k - 1) else old(low.previous)
    {
      var previous, next := node.previous, node.next;
      if previous == null { low.next := next; } else { previous.next := next; }
      if next == null { low.previous := previous; } else { next.previous := previous; }
    }

    /**
     list_delete. The neighbours are written without a check for NULL: at the ends of the
     list the stores go to address 0, and nowhere else.
     */
    method Delete(value: Process) returns (ghost k: nat)
      requires Valid() && value in values
      modifies this, nodes, low
      ensures k < |old(values)| && old(values)[k] == value && value !in old(values)[..k]
      ensures Valid() && values == old(values)[..k] + old(values)[k + 1..] &&
        nodes == old(nodes)[..k] + old(nodes)[k + 1..]
      ensures 0 < k < |old(nodes)| - 1 ==> unchanged(low)
      ensures low.next == if k == 0 then Nth(old(nodes), 1) else old(low.next)
      ensures low.previous == if k == |old(nodes)| - 1 then Nth(old(nodes), k - 1) else old(low.previous)
    {
      hide LinksAround, Links, DistinctNodes;
      var node;
      node, k := Find(value);
      assert (node == head <==> k == 0) && k < |nodes| by { FirstNode(nodes, values, k); }
      Unlink(node, k);
      Shorten(nodes, values, k);
      if head == node {
        head := node.next;
      }
      length := length - 1;
      nodes, values := nodes[..k] + nodes[k + 1..], values[..k] + values[k + 1..];
    }
  }

  lemma HeadOf(ns: seq<Node>)
    ensures Nth(ns, 0) == if ns == [] then null else ns[0]
  {
  }

  lemma AsManyValues(ns: seq<Node>, vs: seq<Process>)
    requires Links(ns, vs)
    ensures |ns| == |vs|
  {
  }

  lemma OneNode(n: Node, v: Process)
    requires n.value == v && n.previous == null && n.next == null
    ensures Links([n], [v]) && Nth([n], 0) == n
  {
  }

  lemma NextOf(ns: seq<Node>, vs: seq<Process>, k: nat)
    requires Links(ns, vs) && k < |ns|
    ensures ns[k].value == vs[k]
    ensures if k == |ns| - 1 then ns[k].next == null else ns[k].next == ns[k + 1]
  {
    hide Nth;
    NthIs(ns);
  }

  lemma Chained(ns: seq<Node>, vs: seq<Process>)
    requires Links(ns, vs)
    ensures forall i :: 0 <= i < |ns| - 1 ==> ns[i].next == ns[i + 1]
  {
    forall i | 0 <= i < |ns| - 1 ensures ns[i].next == ns[i + 1] {
      NextOf(ns, vs, i);
    }
  }

  lemma FirstNode(ns: seq<Node>, vs: seq<Process>, k: nat)
    requires Links(ns, vs) && k < |ns|
    ensures ns[k] == ns[0] <==> k == 0
  {
  }
}
