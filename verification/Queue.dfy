/** The linked FIFO of src/queue.c. */
module Queues {
  import opened Options

  class QueueNode<T> {
    const data: T
    var next: QueueNode?<T>

    constructor (data: T)
      ensures this.data == data && next == null
    {
      this.data, next := data, null;
    }
  }

  ghost function At<T>(ns: seq<QueueNode<T>>, i: int): QueueNode?<T> {
    if 0 <= i < |ns| then ns[i] else null
  }

  class Queue<T> {
    var head: QueueNode?<T>
    var tail: QueueNode?<T>
    var count: nat

    ghost var nodes: seq<QueueNode<T>>
    ghost var nodeSet: set<QueueNode<T>>
    /** What was passed to the free functions of the nodes. */
    ghost var freed: seq<T>

    ghost function Repr(): set<object>
      reads this
    {
      {this} + nodeSet
    }

    ghost predicate Valid()
      reads this, nodeSet
    {
      && (forall n :: n in nodes ==> n in nodeSet)
      && count == |nodes|
      && head == At(nodes, 0) && tail == At(nodes, |nodes| - 1)
      && (forall i :: 0 <= i < |nodes| ==> nodes[i].next == At(nodes, i + 1))
      && (forall i, j :: 0 <= i < j < |nodes| ==> nodes[i] != nodes[j])
    }

    /** The data in line order. */
    ghost function Contents(): (c: seq<T>)
      reads this
      ensures |c| == |nodes|
    {
      seq(|nodes|, i requires 0 <= i < |nodes| reads this => nodes[i].data)
    }

    /** `queueNew`. */
    constructor ()
      ensures Valid() && Contents() == [] && fresh(Repr()) && freed == []
    {
      head, tail, count, nodes, nodeSet, freed := null, null, 0, [], {}, [];
    }

    /** `queueInsert`. */
    method Insert(data: T)
      requires Valid()
      modifies this, nodeSet
      ensures Valid() && fresh(nodeSet - old(nodeSet))
      ensures Contents() == old(Contents()) + [data] && freed == old(freed)
    {
      var node := new QueueNode(data);
      if tail == null {
        tail := node;
        head := node;
      } else {
        tail.next := node;
        tail := node;
      }
      count := count + 1;
      nodes, nodeSet := nodes + [node], nodeSet + {node};
    }

    /** `queuePop`: the oldest data, or nothing. */
    method Pop() returns (r: Option<T>)
      requires Valid()
      modifies this
      ensures Valid() && Repr() <= old(Repr()) && freed == old(freed)
      ensures if old(Contents()) == [] then r == None && Contents() == []
              else r == Some(old(Contents())[0]) && Contents() == old(Contents())[1..]
    {
      if count == 0 { return None; }
      r := Some(head.data);
      head := head.next;
      count := count - 1;
      nodes := nodes[1..];
      if head == null { tail := null; }
    }

    /** `queueFree`: hands over what is left, oldest first. Afterwards the queue is gone; the
        C code leaves `tail` as it was. */
    method Free()
      requires Valid()
      modifies this
      ensures freed == old(freed) + old(Contents()) && count == 0
    {
      ghost var c, k := Contents(), 0;
      while count > 0
        invariant k + count == |c| && nodes == old(nodes)[k..]
        invariant count == |nodes| && head == At(nodes, 0)
        invariant forall i :: 0 <= i < |nodes| ==> nodes[i].next == At(nodes, i + 1)
        invariant freed == old(freed) + c[..k]
      {
        assert c[..k + 1] == c[..k] + [head.data];
        freed := freed + [head.data];
        head := head.next;
        count := count - 1;
        nodes, k := nodes[1..], k + 1;
      }
      assert c[..k] == c;
    }
  }
}
