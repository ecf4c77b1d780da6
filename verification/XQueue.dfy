/**
 x_queue_t: a chain with pointers to both ends and a length, pushed and popped at either end.
 */
module XQueues {
  import opened Bytes
  import opened Lists
  import opened XLists

  class Queue<T> {
    var head: Node?<T>
    var tail: Node?<T>
    var length: nat
    ghost var nodes: seq<Node<T>>
    ghost var contents: seq<T>

    /** Both ends and the length agree with the chain. */
    ghost predicate Valid()
      reads this, nodes
    {
      && IsList(head, nodes, contents)
      && tail == NodeAt(nodes, |nodes| - 1)
      && length == |nodes|
    }

    constructor ()
      ensures Valid() && contents == [] && nodes == []
    {
      head, tail, length, nodes, contents := null, null, 0, [], [];
    }

    method PushHead(data: T)
      requires Valid()
      modifies this, nodes
      ensures Valid() && forall n <- nodes :: n in old(nodes) || fresh(n)
      ensures contents == [data] + old(contents)
    {
      hide Inserted;
      var r := Prepend(head, data, nodes, 0);
      SplicedList(nodes, contents, 0, r);
      AppendIsInserted(nodes, r);
      AppendIsInserted(contents, data);
      nodes, contents := [r] + nodes, [data] + contents;
      head := r;
      if tail == null {
        tail := head;
      }
      length := length + 1;
    }

    /** Appends from the tail, and finds the new tail by its link. */
    method PushTail(data: T)
      requires Valid()
      modifies this, nodes
      ensures Valid() && forall n <- nodes :: n in old(nodes) || fresh(n)
      ensures contents == old(contents) + [data]
    {
      hide Inserted;
      ghost var k := |nodes|;
      var r, n := Append(tail, data, nodes, if k == 0 then 0 else k - 1);
      AppendIsInserted(nodes, n);
      AppendIsInserted(contents, data);
      SplicedList(nodes, contents, k, n);
      nodes, contents := nodes + [n], contents + [data];
      assert nodes[k].next == null && (k > 0 ==> nodes[k - 1] == r && nodes[k - 1].next == nodes[k]);
      tail := r;
      if tail.next != null {
        tail := tail.next;
      } else {
        head := tail;
      }
      length := length + 1;
    }

    method PopHead() returns (data: Option<T>)
      requires Valid()
      modifies this, nodes
      ensures Valid() && forall n <- nodes :: n in old(nodes)
      ensures match data
        case Some(d) => old(contents) == [d] + contents
        case None => old(contents) == contents == []
    {
      if head != null {
        var node := head;
        data := Some(node.data);
        head := node.next;
        if head != null {
          head.prev := null;
        } else {
          tail := null;
        }
        length := length - 1;
        nodes, contents := nodes[1..], contents[1..];
      } else {
        data := None;
      }
    }

    method PopTail() returns (data: Option<T>)
      requires Valid()
      modifies this, nodes
      ensures Valid() && forall n <- nodes :: n in old(nodes)
      ensures match data
        case Some(d) => old(contents) == contents + [d]
        case None => old(contents) == contents == []
    {
      if tail != null {
        var node := tail;
        data := Some(node.data);
        tail := node.prev;
        if tail != null {
          tail.next := null;
        } else {
          head := null;
        }
        length := length - 1;
        nodes, contents := nodes[..|nodes| - 1], contents[..|contents| - 1];
      } else {
        data := None;
      }
    }

    method PeekHead() returns (data: Option<T>)
      requires Valid()
      ensures data == if contents == [] then None else Some(contents[0])
    {
      data := if head != null then Some(head.data) else None;
    }

    method PeekTail() returns (data: Option<T>)
      requires Valid()
      ensures data == if contents == [] then None else Some(contents[|contents| - 1])
    {
      data := if tail != null then Some(tail.data) else None;
    }

    method IsEmpty() returns (empty: bool)
      requires Valid()
      ensures empty <==> contents == []
    {
      empty := head == null;
    }
  }
}
