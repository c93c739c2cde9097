/** `Scheduler::TaskList`: a doubly linked list of tasks with a cursor that goes round it. */
module TaskLists {

  // ---- The list as a value

  /** The tasks front to back, and the cursor's place among them. */
  datatype Ring<T> = Ring(items: seq<T>, pos: nat)

  predicate RingOk<T>(r: Ring<T>)
  {
    if r.items == [] then r.pos == 0 else r.pos < |r.items|
  }

  function Current<T>(r: Ring<T>): T
    requires r.pos < |r.items|
  {
    r.items[r.pos]
  }

  /** `next_task` */
  function Advanced<T>(r: Ring<T>): (n: Ring<T>)
    requires r.items != [] && RingOk(r)
    ensures RingOk(n) && n.items == r.items
  {
    Ring(r.items, if r.pos + 1 == |r.items| then 0 else r.pos + 1)
  }

  /** `add_task`: in front, the cursor staying on its task. */
  function Added<T>(r: Ring<T>, x: T): (n: Ring<T>)
    requires RingOk(r)
    ensures RingOk(n)
  {
    Ring([x] + r.items, if r.items == [] then 0 else r.pos + 1)
  }

  /** `remove_current`: the cursor's task goes, the cursor moves to its successor, round the end to the front. */
  function Removed<T>(r: Ring<T>): (n: Ring<T>)
    requires RingOk(r)
    ensures RingOk(n)
  {
    if r.items == [] then r else
    Ring(r.items[..r.pos] + r.items[r.pos + 1..], if r.pos + 1 < |r.items| then r.pos else 0)
  }

  function AdvancedBy<T>(r: Ring<T>, k: nat): (n: Ring<T>)
    requires r.items != [] && RingOk(r)
    ensures RingOk(n) && n.items == r.items
  {
    if k == 0 then r else Advanced(AdvancedBy(r, k - 1))
  }

  /** Where k steps lead, for up to one round. */
  lemma {:induction false} AdvancedByPlace<T>(r: Ring<T>, k: nat)
    requires r.items != [] && RingOk(r) && k <= |r.items|
    ensures AdvancedBy(r, k).pos == if r.pos + k < |r.items| then r.pos + k else r.pos + k - |r.items|
  {
    if k > 0 { AdvancedByPlace(r, k - 1); }
  }

  /** After k steps the cursor stands at place i. */
  predicate StandsAt<T>(r: Ring<T>, k: nat, i: nat)
    requires r.items != [] && RingOk(r)
  {
    AdvancedBy(r, k).pos == i
  }

  /** Within one round the cursor stands at place i. */
  ghost predicate Visited<T>(r: Ring<T>, i: nat)
    requires r.items != [] && RingOk(r)
  {
    exists k :: 0 < k <= |r.items| && StandsAt(r, k, i)
  }

  /** One round of `next_task` calls comes back to where it began and stops at every task exactly once. */
  lemma OneRound<T>(r: Ring<T>)
    requires r.items != [] && RingOk(r)
    ensures AdvancedBy(r, |r.items|) == r
    ensures forall i: nat :: i < |r.items| ==> Visited(r, i)
    ensures forall k: nat, l: nat, i: nat ::
              0 < k <= |r.items| && 0 < l <= |r.items| && StandsAt(r, k, i) && StandsAt(r, l, i) ==> k == l
  {
    var n := |r.items|;
    AdvancedByPlace(r, n);
    forall i: nat | i < n ensures Visited(r, i) {
      var k := if i > r.pos then i - r.pos else i - r.pos + n;
      AdvancedByPlace(r, k);
      assert StandsAt(r, k, i);
    }
    forall k: nat, l: nat, i: nat | 0 < k <= n && 0 < l <= n && StandsAt(r, k, i) && StandsAt(r, l, i) ensures k == l {
      AdvancedByPlace(r, k);
      AdvancedByPlace(r, l);
    }
  }

  /** A new task's turn is at the end of the list: the tasks behind the cursor come first, then the new one, then those
      in front of the cursor. */
  lemma AddedTurns<T>(r: Ring<T>, x: T, k: nat)
    requires RingOk(r) && r.items != [] && k <= |r.items| + 1
    ensures var left := |r.items| - r.pos;
            Current(AdvancedBy(Added(r, x), k)) ==
            if k < left then Current(AdvancedBy(r, k)) else if k == left then x else Current(AdvancedBy(r, k - 1))
  {
    AdvancedByPlace(Added(r, x), k);
    if k <= |r.items| { AdvancedByPlace(r, k); }
    if k > 0 { AdvancedByPlace(r, k - 1); }
  }

  /** When the cursor's task is removed the others keep their turns. */
  lemma RemovedTurns<T>(r: Ring<T>, k: nat)
    requires RingOk(r) && k + 1 < |r.items|
    ensures Current(AdvancedBy(Removed(r), k)) == Current(AdvancedBy(r, k + 1))
  {
    AdvancedByPlace(Removed(r), k);
    AdvancedByPlace(r, k + 1);
  }

  predicate Distinct<T(==)>(s: seq<T>)
  {
    forall i, j :: 0 <= i < j < |s| ==> s[i] != s[j]
  }

  datatype Op<T> = Add(x: T) | Next | Remove

  function Step<T>(r: Ring<T>, op: Op<T>): (n: Ring<T>)
    requires RingOk(r)
    ensures RingOk(n)
  {
    match op
    case Add(x) => Added(r, x)
    case Next => if r.items == [] then r else Advanced(r)
    case Remove => Removed(r)
  }

  /** Whatever the calls, as long as no task is added while it is queued, no task is ever queued twice, and a step
      never moves the cursor off its task except to a neighbour it was asked to go to. */
  lemma StepKeepsDistinct<T>(r: Ring<T>, op: Op<T>)
    requires RingOk(r) && Distinct(r.items) && (op.Add? ==> op.x !in r.items)
    ensures Distinct(Step(r, op).items)
    ensures op.Add? && r.items != [] ==> Current(Step(r, op)) == Current(r)
    ensures op.Remove? && r.items != [] ==>
              Current(r) !in Step(r, op).items
              && (forall x :: x in Step(r, op).items <==> x in r.items && x != Current(r))
              && (|r.items| > 1 ==> Current(Step(r, op)) == Current(Advanced(r)))
  {
    if op.Remove? && r.items != [] {
      var s := Removed(r).items;
      forall i | 0 <= i < |s| ensures s[i] == if i < r.pos then r.items[i] else r.items[i + 1] {}
      forall x | x in r.items && x != Current(r) ensures x in s {
        var i :| 0 <= i < |r.items| && r.items[i] == x;
        assert s[if i < r.pos then i else i - 1] == x;
      }
    }
  }

  // ---- The linked list

  class Node<T> {
    const task: T
    var prev: Node?<T>
    var next: Node?<T>

    constructor (task: T)
      ensures this.task == task && prev == null && next == null
    {
      this.task := task;
      prev, next := null, null;
    }
  }

  /** The links of the i-th node. */
  ghost predicate Linked<T>(nodes: seq<Node<T>>, i: nat)
    requires i < |nodes|
    reads nodes[i]
  {
    && nodes[i].next == (if i + 1 < |nodes| then nodes[i + 1] else null)
    && (i > 0 ==> nodes[i].prev == nodes[i - 1])
  }

  /** The links of the i-th node once the p-th is out of the chain; going over the new front's `prev` is left open. */
  ghost predicate Bypassed<T>(nodes: seq<Node<T>>, p: nat, i: nat)
    requires i < |nodes|
    reads nodes[i]
  {
    var n := if i + 1 == p then i + 2 else i + 1;
    && nodes[i].next == (if n < |nodes| then nodes[n] else null)
    && (i == p + 1 && p > 0 ==> nodes[i].prev == nodes[p - 1])
    && (i > 0 && i != p + 1 ==> nodes[i].prev == nodes[i - 1])
  }

  ghost function Tasks<T>(nodes: seq<Node<T>>): (s: seq<T>)
    ensures |s| == |nodes| && forall i :: 0 <= i < |nodes| ==> s[i] == nodes[i].task
  {
    seq(|nodes|, i requires 0 <= i < |nodes| => nodes[i].task)
  }

  /** The list without its p-th element, place by place. */
  lemma Without<T>(s: seq<T>, p: nat)
    requires p < |s|
    ensures var w := s[..p] + s[p + 1..];
            |w| == |s| - 1 && forall i :: 0 <= i < |w| ==> w[i] == s[if i < p then i else i + 1]
    ensures Distinct(s) ==> Distinct(s[..p] + s[p + 1..]) && s[p] !in s[..p] + s[p + 1..]
  {}

  /** The chain that bypasses the p-th node links the list without it. */
  lemma Relinked<T>(was: seq<Node<T>>, p: nat, nodes: seq<Node<T>>)
    requires p < |was| && |nodes| == |was| - 1
    requires forall i :: 0 <= i < |nodes| ==> nodes[i] == was[if i < p then i else i + 1]
    requires forall i :: 0 <= i < |was| && i != p ==> Bypassed(was, p, i)
    ensures forall i :: 0 <= i < |nodes| ==> Linked(nodes, i)
  {
    forall i | 0 <= i < |nodes| ensures Linked(nodes, i) {
      assert Bypassed(was, p, if i < p then i else i + 1);
    }
  }

  lemma TasksWithout<T>(was: seq<Node<T>>, p: nat, nodes: seq<Node<T>>)
    requires p < |was| && nodes == was[..p] + was[p + 1..]
    ensures Tasks(nodes) == Tasks(was)[..p] + Tasks(was)[p + 1..]
  {
    Without(was, p);
    Without(Tasks(was), p);
  }

  class TaskList<T> {
    var front: Node?<T>
    var current: Node?<T>
    ghost var nodes: seq<Node<T>>
    ghost var pos: nat

    /** The `prev` link of the front node is not constrained: after a removal at the front it is stale, and nothing
        ever follows it. */
    ghost predicate Valid()
      reads this, nodes
    {
      && Distinct(nodes)
      && front == (if nodes == [] then null else nodes[0])
      && (forall i :: 0 <= i < |nodes| ==> Linked(nodes, i))
      && (if nodes == [] then current == null && pos == 0 else pos < |nodes| && current == nodes[pos])
    }

    ghost function View(): (r: Ring<T>)
      reads this, nodes
      requires Valid()
      ensures RingOk(r) && |r.items| == |nodes|
    {
      Ring(Tasks(nodes), pos)
    }

    constructor ()
      ensures Valid() && View() == Ring([], 0) && nodes == []
    {
      front, current := null, null;
      nodes, pos := [], 0;
    }

    method IsEmpty() returns (b: bool)
      requires Valid()
      ensures b <==> View().items == []
    {
      b := front == null;
    }

    method GetCurrent() returns (task: T)
      requires Valid() && nodes != []
      ensures task == Current(View())
    {
      task := current.task;
    }

    method NextTask() returns (task: T)
      requires Valid() && nodes != []
      modifies this`current, this`pos
      ensures Valid() && View() == Advanced(old(View())) && task == Current(View())
    {
      assert Linked(nodes, pos);
      current := current.next;
      pos := pos + 1;
      if current == null {
        current := front;
        pos := 0;
      }
      task := current.task;
    }

    method AddTask(task: T)
      requires Valid()
      modifies this, nodes
      ensures Valid() && View() == Added(old(View()), task)
      ensures exists node :: fresh(node) && nodes == [node] + old(nodes)
    {
      var node := new Node(task);
      ghost var was := nodes;
      if front == null {
        current := node;
      } else {
        assert Linked(was, 0);
        node.next := front;
        front.prev := node;
        pos := pos + 1;
      }
      front := node;
      nodes := [node] + nodes;
      forall i | 0 <= i < |nodes| ensures Linked(nodes, i) {
        if i > 0 { assert old(Linked(was, i - 1)) && nodes[i] == was[i - 1]; }
      }
      assert Tasks(nodes) == [task] + Tasks(was);
    }

    method RemoveCurrent()
      requires Valid()
      modifies this, nodes
      ensures Valid() && View() == Removed(old(View()))
      ensures forall n :: n in nodes ==> n in old(nodes)
    {
      if current == null {
        return;
      }
      hide Distinct;
      ghost var was, p := nodes, pos;
      assert Linked(was, p);
      var next := current.next;
      Unlink();
      nodes := nodes[..pos] + nodes[pos + 1..];
      Without(was, p);
      Relinked(was, p, nodes);
      if next != null {
        current := next;
      } else {
        current := front;
        pos := 0;
      }
      TasksWithout(was, p, nodes);
    }

    /** The stores that take the cursor's node out of the chain. */
    method Unlink()
      requires Valid() && nodes != []
      modifies this`front, nodes
      ensures forall i :: 0 <= i < |nodes| && i != pos ==> Bypassed(nodes, pos, i)
      ensures front == if pos > 0 then nodes[0] else if |nodes| > 1 then nodes[1] else null
    {
      assert Linked(nodes, pos);
      assert pos > 0 ==> Linked(nodes, pos - 1);
      assert forall i :: 0 <= i < |nodes| ==> Linked(nodes, i);
      if current == front {
        front := current.next;
      } else {
        current.prev.next := current.next;
        if current.next != null {
          current.next.prev := current.prev;
        }
      }
      forall i | 0 <= i < |nodes| && i != pos ensures Bypassed(nodes, pos, i) {
        assert old(Linked(nodes, i));
      }
    }
  }
}
