// The queue that the outgoing messages and the play list are kept in. Its data
// are pointers, so "nothing there" and "a null is there" look the same.
module QueueCache {
  import opened CText

  class QNode<T> {
    const data: Option<T>
    var next: QNode?<T>

    constructor (d: Option<T>)
      ensures data == d && next == null
    {
      data := d;
      next := null;
    }
  }

  ghost function Nth<T>(nodes: seq<QNode<T>>, i: int): QNode?<T> {
    if 0 <= i < |nodes| then nodes[i] else null
  }

  ghost function DataOf<T>(nodes: seq<QNode<T>>): (s: seq<Option<T>>)
    ensures |s| == |nodes|
    ensures forall i :: 0 <= i < |s| ==> s[i] == nodes[i].data
  {
    seq(|nodes|, i requires 0 <= i < |nodes| => nodes[i].data)
  }

  class QCache<T> {
    var head: QNode?<T>
    var tail: QNode?<T>
    var length: nat
    ghost var nodes: seq<QNode<T>>

    /** duer_qcache_create */
    constructor ()
      ensures Valid() && nodes == []
    {
      head, tail, length := null, null, 0;
      nodes := [];
    }

    ghost predicate Valid()
      reads this, nodes
    {
      && length == |nodes| && head == Nth(nodes, 0) && tail == Nth(nodes, |nodes| - 1)
      && (forall i, j :: 0 <= i < j < |nodes| ==> nodes[i] != nodes[j])
      && (forall i :: 0 <= i < |nodes| ==> nodes[i].next == Nth(nodes, i + 1))
    }

    ghost function Contents(): (s: seq<Option<T>>)
      reads this
    {
      DataOf(nodes)
    }

    /** duer_qcache_push */
    method Push(data: Option<T>)
      requires Valid()
      modifies this, nodes
      ensures Valid() && Contents() == old(Contents()) + [data]
      ensures forall n :: n in nodes ==> n in old(nodes) || fresh(n)
    {
      ghost var was := nodes;
      assert forall i :: 0 <= i < |was| - 1 ==> was[i] != was[|was| - 1];
      var q := new QNode(data);
      if tail != null {
        tail.next := q;
        tail := q;
      } else {
        head, tail := q, q;
      }
      length := length + 1;
      nodes := was + [q];
      forall i | 0 <= i < |nodes|
        ensures nodes[i].next == Nth(nodes, i + 1)
      {
        assert i < |was| ==> nodes[i] == was[i];
      }
    }

    /** duer_qcache_length */
    method Length() returns (n: nat)
      requires Valid()
      ensures n == |Contents()|
    {
      n := length;
    }

    /** duer_qcache_top */
    method Top() returns (data: Option<T>)
      requires Valid()
      ensures data == if Contents() == [] then None else Contents()[0]
    {
      data := if head != null then head.data else None;
    }

    /** duer_qcache_pop */
    method Pop() returns (data: Option<T>)
      requires Valid()
      modifies this
      ensures Valid() && data == if old(Contents()) == [] then None else old(Contents())[0]
      ensures Contents() == if old(Contents()) == [] then [] else old(Contents())[1..]
      ensures forall n :: n in nodes ==> n in old(nodes)
    {
      data := None;
      if head != null {
        ghost var was := nodes;
        var q := head;
        head := q.next;
        data := q.data;
        length := length - 1;
        if length == 0 {
          tail := null;
        }
        nodes := was[1..];
        assert forall i :: 0 <= i < |nodes| ==> nodes[i] == was[i + 1];
      }
    }
  }
}
