/** Singly linked lists with a head and a tail pointer, as the wait queues and message queues use them. */
module Chains {

  class Node<T> {
    const val: T
    var next: Node?<T>

    constructor (v: T)
      ensures val == v && next == null
    {
      val := v;
      next := null;
    }
  }

  function At<T>(spine: seq<Node<T>>, i: int): Node?<T> {
    if 0 <= i < |spine| then spine[i] else null
  }

  /** `spine` lists the nodes reached from `head`, in order, and `tail` is the last one. */
  ghost predicate Chained<T>(spine: seq<Node<T>>, head: Node?<T>, tail: Node?<T>)
    reads spine
  {
    && (forall i, j | 0 <= i < j < |spine| :: spine[i] != spine[j])
    && (forall i | 0 <= i < |spine| :: spine[i].next == At(spine, i + 1))
    && head == At(spine, 0) && tail == At(spine, |spine| - 1)
  }

  ghost function Values<T>(spine: seq<Node<T>>): (s: seq<T>)
    ensures |s| == |spine|
  {
    seq(|spine|, i requires 0 <= i < |spine| => spine[i].val)
  }

  function Drop<T>(s: seq<T>, i: nat): seq<T>
    requires i < |s|
  {
    s[..i] + s[i + 1..]
  }

  lemma ValuesAt<T>(spine: seq<Node<T>>, i: nat)
    requires i < |spine|
    ensures Values(spine)[i] == spine[i].val
  {
  }

  lemma ValuesAppend<T>(spine: seq<Node<T>>, n: Node<T>)
    ensures Values(spine + [n]) == Values(spine) + [n.val]
  {
  }

  lemma ValuesFrom<T>(spine: seq<Node<T>>, k: nat)
    requires k <= |spine|
    ensures Values(spine[k..]) == Values(spine)[k..]
  {
  }

  lemma ValuesDrop<T>(spine: seq<Node<T>>, i: nat)
    requires i < |spine|
    ensures Values(Drop(spine, i)) == Drop(Values(spine), i)
  {
  }

  lemma EmptyChain<T>()
    ensures Chained<T>([], null, null) && Values<T>([]) == []
  {
  }

  lemma ChainEnds<T>(spine: seq<Node<T>>, head: Node?<T>, tail: Node?<T>)
    requires Chained(spine, head, tail)
    ensures head == At(spine, 0) && tail == At(spine, |spine| - 1)
  {
  }

  lemma ChainNext<T>(spine: seq<Node<T>>, head: Node?<T>, tail: Node?<T>, i: nat)
    requires Chained(spine, head, tail) && i < |spine|
    ensures spine[i].next == At(spine, i + 1)
  {
  }

  lemma ChainFrom<T>(spine: seq<Node<T>>, head: Node?<T>, tail: Node?<T>, k: nat)
    requires Chained(spine, head, tail) && k <= |spine|
    ensures Chained(spine[k..], At(spine, k), if k < |spine| then tail else null)
  {
  }

  /** Append a node at the tail. */
  method Append<T>(ghost spine: seq<Node<T>>, head: Node?<T>, tail: Node?<T>, n: Node<T>)
    returns (head': Node?<T>, tail': Node?<T>)
    requires Chained(spine, head, tail) && n !in spine && n.next == null
    modifies tail
    ensures Chained(spine + [n], head', tail')
  {
    if tail != null {
      tail.next := n;
      head', tail' := head, n;
    } else {
      head', tail' := n, n;
    }
  }

  /** Take the node at place `i` out, given the node before it. */
  method Unlink<T>(ghost spine: seq<Node<T>>, head: Node?<T>, tail: Node?<T>, prev: Node?<T>, current: Node<T>, ghost i: nat)
    returns (head': Node?<T>, tail': Node?<T>)
    requires Chained(spine, head, tail) && i < |spine| && prev == At(spine, i - 1) && current == spine[i]
    modifies prev
    ensures Chained(Drop(spine, i), head', tail')
    ensures current.next == old(current.next)
  {
    head', tail' := head, tail;
    if prev != null {
      prev.next := current.next;
    } else {
      head' := current.next;
    }
    if tail == current {
      tail' := prev;
    }
    ghost var s := Drop(spine, i);
    forall j | 0 <= j < |s| ensures s[j].next == At(s, j + 1) {
      assert s[j] == if j < i then spine[j] else spine[j + 1];
    }
  }
}
