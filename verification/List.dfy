/** The kernel's doubly linked list. `Linked` is the full invariant; `Forward` is the part about
    `head`, `next` and `length` that survives `list_insert_after`. */
module List {
  import opened Seqs

  class Node<T> {
    var prev: Node?<T>
    var next: Node?<T>
    var value: T

    constructor (value: T)
      ensures this.value == value && prev == null && next == null
    {
      this.value, prev, next := value, null, null;
    }
  }

  class List<T> {
    var head: Node?<T>
    var tail: Node?<T>
    var length: int
    ghost var nodes: seq<Node<T>>

    constructor ()
      ensures Linked() && nodes == [] && Values() == []
    {
      head, tail, length, nodes := null, null, 0, [];
    }

    ghost predicate Forward()
      reads this, nodes
    {
      && length == |nodes|
      && NoDup(nodes)
      && head == (if nodes == [] then null else nodes[0])
      && (nodes != [] ==> nodes[0].prev == null && nodes[|nodes| - 1].next == null)
      && (forall i {:trigger nodes[i].next} :: 0 <= i < |nodes| - 1 ==> nodes[i].next == nodes[i + 1])
    }

    ghost predicate Backward()
      reads this, nodes
    {
      && tail == (if nodes == [] then null else nodes[|nodes| - 1])
      && (forall i {:trigger nodes[i].prev} :: 1 <= i < |nodes| ==> nodes[i].prev == nodes[i - 1])
    }

    ghost predicate Linked()
      reads this, nodes
    {
      Forward() && Backward()
    }

    /** The values from head to tail. */
    ghost function Values(): seq<T>
      reads this, nodes
    {
      seq(|nodes|, i requires 0 <= i < |nodes| reads this, nodes => nodes[i].value)
    }

    /** `list_delete`. On a list whose back links are stale it is still safe for the head. */
    method Delete(n: Node<T>, ghost k: nat)
      requires Forward() && k < |nodes| && nodes[k] == n && (k == 0 || Backward())
      modifies this, nodes
      ensures Forward() && (old(Backward()) ==> Backward())
      ensures nodes == old(nodes[..k] + nodes[k + 1..])
      ensures Values() == old(Values()[..k] + Values()[k + 1..]) && n.value == old(n.value)
    {
      if n == head {
        head := n.next;
      }
      if n == tail {
        tail := n.prev;
      }
      if n.prev != null {
        n.prev.next := n.next;
      }
      if n.next != null {
        n.next.prev := n.prev;
      }
      length := length - 1;
      nodes := nodes[..k] + nodes[k + 1..];
    }

    method PushBack(value: T)
      requires Linked()
      modifies this, nodes
      ensures Linked() && Values() == old(Values()) + [value]
      ensures |nodes| > 0 && nodes[..|nodes| - 1] == old(nodes) && fresh(nodes[|nodes| - 1])
    {
      var n := new Node(value);
      if tail == null {
        head := n;
      } else {
        tail.next := n;
        n.prev := tail;
      }
      tail := n;
      length := length + 1;
      nodes := nodes + [n];
    }

    method PushFront(value: T)
      requires Forward()
      modifies this, nodes
      ensures Forward() && (old(Backward()) ==> Backward()) && Values() == [value] + old(Values())
      ensures |nodes| > 0 && nodes[1..] == old(nodes) && fresh(nodes[0])
    {
      var n := new Node(value);
      if head == null {
        tail := n;
      } else {
        head.prev := n;
        n.next := head;
      }
      head := n;
      length := length + 1;
      nodes := [n] + nodes;
    }

    method PopFront() returns (n: Node?<T>)
      requires Forward()
      modifies this, nodes
      ensures Forward() && (old(Backward()) ==> Backward())
      ensures old(nodes) == [] ==> n == null && nodes == []
      ensures old(nodes) != [] ==>
        && n == old(nodes[0]) && n.value == old(Values()[0])
        && nodes == old(nodes[1..]) && Values() == old(Values()[1..])
    {
      if head == null {
        return null;
      }
      n := head;
      Delete(head, 0);
    }

    method PopBack() returns (n: Node?<T>)
      requires Linked()
      modifies this, nodes
      ensures Linked()
      ensures old(nodes) == [] ==> n == null && nodes == []
      ensures old(nodes) != [] ==>
        && n == old(nodes[|nodes| - 1]) && n.value == old(Values()[|nodes| - 1])
        && nodes == old(nodes[..|nodes| - 1]) && Values() == old(Values()[..|nodes| - 1])
    {
      if tail == null {
        return null;
      }
      n := tail;
      Delete(tail, |nodes| - 1);
    }

    /** `list_insert_after`. It repairs neither `tail` nor the next node's `prev`, so it keeps a fully
        linked list fully linked exactly when it inserts at the front. */
    method InsertAfter(prev: Node?<T>, value: T, ghost k: nat)
      requires Forward() && k <= |nodes| && prev == (if k == 0 then null else nodes[k - 1])
      modifies this, nodes
      ensures Forward() && Values() == old(Values()[..k]) + [value] + old(Values()[k..])
      ensures |nodes| == old(|nodes|) + 1 && nodes[..k] == old(nodes[..k]) && nodes[k + 1..] == old(nodes[k..]) && fresh(nodes[k])
      ensures old(Linked()) ==> (Linked() <==> prev == null)
    {
      if prev == null {
        PushFront(value);
      } else {
        Splice(prev, value, k);
      }
    }

    /** The branch of `list_insert_after` for a given predecessor. */
    method Splice(prev: Node<T>, value: T, ghost k: nat)
      requires Forward() && 0 < k <= |nodes| && prev == nodes[k - 1]
      modifies this, nodes
      ensures Forward() && Values() == old(Values()[..k]) + [value] + old(Values()[k..])
      ensures |nodes| == old(|nodes|) + 1 && nodes[..k] == old(nodes[..k]) && nodes[k + 1..] == old(nodes[k..]) && fresh(nodes[k])
      ensures old(Backward()) ==> !Backward()
    {
      var n := new Node(value);
      n.next := prev.next;
      n.prev := prev;
      prev.next := n;
      length := length + 1;
      ghost var before := nodes;
      nodes := before[..k] + [n] + before[k..];
      assert nodes[k] == n && nodes[k - 1] == prev;
      if k < |before| {
        assert nodes[k + 1] == before[k];
        assert old(Backward()) ==> nodes[k + 1].prev == prev;
      }
    }
  }
}
