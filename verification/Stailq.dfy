/** The singly-linked tail queue of elf_queue.h: a head holding the first element and the
    address of the last `next` slot. */
module Stailq {
  import opened Common

  class Node<T> {
    var item: T
    var next: Node?<T>

    constructor (item: T)
      ensures this.item == item
    {
      this.item := item;
    }
  }

  /** What a pointer to a pointer to a node can hold here: the address of the head's own
      `first` field, or of some node's `next` field. */
  datatype Slot<T> = AtFirst | AtNext(node: Node<T>)

  /** The node at position i, or null past the end. */
  ghost function At<T>(nodes: seq<Node<T>>, i: nat): Node?<T> {
    if i < |nodes| then nodes[i] else null
  }

  ghost function LastSlot<T>(nodes: seq<Node<T>>): Slot<T> {
    if nodes == [] then AtFirst else AtNext(nodes[|nodes| - 1])
  }

  /** The nodes carry these payloads, in order. */
  ghost predicate Holds<T>(nodes: seq<Node<T>>, items: seq<T>)
    reads nodes`item
  {
    && |nodes| == |items|
    && forall i {:trigger nodes[i].item} {:trigger items[i]} :: 0 <= i < |nodes| ==> nodes[i].item == items[i]
  }

  lemma DistinctDrop<T>(nodes: seq<Node<T>>, k: nat)
    requires k < |nodes| && Distinct(nodes)
    ensures Distinct(Drop(nodes, k)) && nodes[k] !in Drop(nodes, k)
  {
  }

  lemma DistinctInsert<T>(nodes: seq<Node<T>>, j: nat, n: Node<T>)
    requires j <= |nodes| && Distinct(nodes) && n !in nodes
    ensures Distinct(Insert(nodes, j, n))
  {
  }

  /** Two linked rows, the first ending at the second, are one linked row. */
  lemma Linked<T>(a: seq<Node<T>>, b: seq<Node<T>>)
    requires forall i {:trigger a[i].next} :: 0 <= i < |a| ==> a[i].next == if i + 1 < |a| then a[i + 1] else At(b, 0)
    requires forall i {:trigger b[i].next} :: 0 <= i < |b| ==> b[i].next == At(b, i + 1)
    ensures forall j {:trigger (a + b)[j].next} :: 0 <= j < |a + b| ==> (a + b)[j].next == At(a + b, j + 1)
  {
    forall j | 0 <= j < |a + b| ensures (a + b)[j].next == At(a + b, j + 1) {
      if j < |a| {
        assert (a + b)[j] == a[j];
      } else {
        assert (a + b)[j] == b[j - |a|];
      }
    }
  }

  class Queue<T> {
    var first: Node?<T>
    var last: Slot<T>
    /** The elements in order; every method states its effect on this sequence. */
    ghost var nodes: seq<Node<T>>

    ghost predicate Valid()
      reads this, nodes`next
    {
      && Distinct(nodes)
      && first == At(nodes, 0)
      && (forall i {:trigger nodes[i].next} :: 0 <= i < |nodes| ==> nodes[i].next == At(nodes, i + 1))
      && last == LastSlot(nodes)
    }

    constructor ()
      ensures Valid() && nodes == []
    {
      first, last, nodes := null, AtFirst, [];
    }

    /** STAILQ_INIT. */
    method Init()
      modifies this
      ensures Valid() && nodes == []
    {
      first, last, nodes := null, AtFirst, [];
    }

    /** STAILQ_EMPTY. */
    predicate Empty()
      requires Valid()
      reads this, nodes`next
      ensures Empty() <==> nodes == []
    {
      first == null
    }

    /** STAILQ_LAST. */
    method Last() returns (n: Node?<T>)
      requires Valid()
      ensures n == if nodes == [] then null else nodes[|nodes| - 1]
    {
      n := if first == null then null else last.node;
    }

    /** Store through the tail pointer: `*(head)->stqh_last = n`. */
    method StoreLast(n: Node?<T>)
      modifies this`first, (if last.AtNext? then {last.node} else {})`next
      ensures last.AtFirst? ==> first == n
      ensures last.AtNext? ==> first == old(first) && last.node.next == n
    {
      match last {
        case AtFirst => first := n;
        case AtNext(m) => m.next := n;
      }
    }

    /** STAILQ_INSERT_HEAD. */
    method InsertHead(elm: Node<T>)
      requires Valid() && elm !in nodes
      modifies this, elm`next
      ensures Valid() && nodes == Insert(old(nodes), 0, elm)
    {
      elm.next := first;
      if elm.next == null {
        last := AtNext(elm);
      }
      first := elm;
      nodes := Insert(nodes, 0, elm);
    }

    /** STAILQ_INSERT_TAIL. */
    method InsertTail(elm: Node<T>)
      requires Valid() && elm !in nodes
      modifies this, nodes`next, elm`next
      ensures Valid() && nodes == old(nodes) + [elm]
    {
      elm.next := null;
      StoreLast(elm);
      last := AtNext(elm);
      nodes := nodes + [elm];
    }

    /** STAILQ_INSERT_AFTER; k is the position of tqelm. */
    method InsertAfter(tqelm: Node<T>, elm: Node<T>, ghost k: nat)
      requires Valid() && elm !in nodes
      requires k < |nodes| && nodes[k] == tqelm
      modifies this, nodes`next, elm`next
      ensures Valid() && nodes == Insert(old(nodes), k + 1, elm)
    {
      DistinctInsert(nodes, k + 1, elm);
      elm.next := tqelm.next;
      if elm.next == null {
        last := AtNext(elm);
      }
      tqelm.next := elm;
      nodes := Insert(nodes, k + 1, elm);
      forall i | 0 <= i < |nodes| ensures nodes[i].next == At(nodes, i + 1) {
        if i > k + 1 {
          assert nodes[i] == old(nodes)[i - 1];
        }
      }
    }

    /** STAILQ_REMOVE_HEAD. */
    method RemoveHead()
      requires Valid() && nodes != []
      modifies this
      ensures Valid() && nodes == old(nodes)[1..]
    {
      first := first.next;
      if first == null {
        last := AtFirst;
      }
      nodes := nodes[1..];
    }

    /** The search loop of STAILQ_REMOVE: the node before elm. */
    method FindBefore(elm: Node<T>, ghost k: nat) returns (cur: Node<T>)
      requires Valid()
      requires 0 < k < |nodes| && nodes[k] == elm
      ensures cur == nodes[k - 1]
    {
      cur := first;
      ghost var i := 0;
      while cur.next != elm
        invariant 0 <= i < k && cur == nodes[i]
        decreases k - i
      {
        cur := cur.next;
        i := i + 1;
      }
    }

    /** The unlinking step of STAILQ_REMOVE: drop the successor of cur. */
    method UnlinkAfter(cur: Node<T>, ghost k: nat)
      requires Valid()
      requires k + 1 < |nodes| && nodes[k] == cur
      modifies this, cur`next
      ensures Valid() && nodes == Drop(old(nodes), k + 1)
    {
      DistinctDrop(nodes, k + 1);
      cur.next := cur.next.next;
      if cur.next == null {
        last := AtNext(cur);
      }
      nodes := Drop(nodes, k + 1);
    }

    /** STAILQ_REMOVE; k is the position of elm.  The removed node keeps its stale link. */
    method Remove(elm: Node<T>, ghost k: nat)
      requires Valid()
      requires k < |nodes| && nodes[k] == elm
      modifies this, nodes`next
      ensures Valid() && nodes == Drop(old(nodes), k)
      ensures elm.next == old(elm.next)
    {
      if first == elm {
        RemoveHead();
      } else {
        var cur := FindBefore(elm, k);
        UnlinkAfter(cur, k - 1);
      }
    }

    /** STAILQ_CONCAT: appends all of `other` and empties it. */
    method Concat(other: Queue<T>)
      requires Valid() && other.Valid() && other != this
      requires forall n :: n in nodes ==> n !in other.nodes
      modifies this, other, nodes`next
      ensures Valid() && nodes == old(nodes) + old(other.nodes)
      ensures other.Valid() && other.nodes == []
    {
      if other.first != null {
        DistinctConcat(nodes, other.nodes);
        StoreLast(other.first);
        last := other.last;
        nodes := nodes + other.nodes;
        Linked(old(nodes), old(other.nodes));
        other.Init();
      }
    }
  }
}
