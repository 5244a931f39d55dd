/** Tasks and the doubly linked queues they are threaded on. */
module TaskQueues {

  datatype Status = Ready | Running | Blocked | Sleeping | Terminated

  class Task {
    const pid: int
    const priority: nat
    const slice: nat
    var state: Status
    var wake: nat
    var remaining: nat
    var total: nat
    var next: Task?
    var prev: Task?

    constructor (pid: int, priority: nat, slice: nat)
      ensures this.pid == pid && this.priority == priority && this.slice == slice
      ensures state == Ready && next == null && prev == null && remaining == slice
    {
      this.pid, this.priority, this.slice := pid, priority, slice;
      state, wake, remaining, total, next, prev := Ready, 0, slice, 0, null, null;
    }
  }

  function At(spine: seq<Task>, i: int): Task? {
    if 0 <= i < |spine| then spine[i] else null
  }

  /** `spine` lists the tasks reached from `head`, in order, and the back links agree. */
  ghost predicate Linked(spine: seq<Task>, head: Task?)
    reads spine`next, spine`prev
  {
    && Distinct(spine)
    && (forall i | 0 <= i < |spine| :: spine[i].next == At(spine, i + 1) && spine[i].prev == At(spine, i - 1))
    && head == At(spine, 0)
  }

  /** `spine` without `t`. */
  ghost function Minus(spine: seq<Task>, t: Task): seq<Task> {
    if spine == [] then [] else if spine[0] == t then spine[1..] else [spine[0]] + Minus(spine[1..], t)
  }

  lemma {:induction false} MinusAt(spine: seq<Task>, i: nat)
    requires i < |spine| && forall j | 0 <= j < i :: spine[j] != spine[i]
    ensures Minus(spine, spine[i]) == spine[..i] + spine[i + 1..]
  {
    if i > 0 {
      MinusAt(spine[1..], i - 1);
      assert spine[..i] + spine[i + 1..] == [spine[0]] + (spine[1..][..i - 1] + spine[1..][i..]);
    } else {
      assert spine[..0] + spine[1..] == spine[1..];
    }
  }

  lemma {:induction false} MinusNone(spine: seq<Task>, t: Task)
    requires t !in spine
    ensures Minus(spine, t) == spine
  {
    if spine != [] {
      MinusNone(spine[1..], t);
    }
  }

  lemma LinkedHead(spine: seq<Task>, head: Task?)
    requires Linked(spine, head)
    ensures head == At(spine, 0)
  {
  }

  lemma LinkedNext(spine: seq<Task>, head: Task?, i: nat)
    requires Linked(spine, head) && i < |spine|
    ensures spine[i].next == At(spine, i + 1)
  {
  }

  lemma AppendLinks(spine: seq<Task>, task: Task)
    requires Distinct(spine) && task !in spine
    requires forall j | 0 <= j < |spine| :: spine[j].prev == At(spine, j - 1)
    requires forall j | 0 <= j < |spine| :: spine[j].next == if j == |spine| - 1 then task else At(spine, j + 1)
    requires task.next == null && task.prev == At(spine, |spine| - 1)
    ensures Linked(spine + [task], if spine == [] then task else spine[0])
  {
    var s := spine + [task];
    forall j | 0 <= j < |s| ensures s[j].next == At(s, j + 1) && s[j].prev == At(s, j - 1) {
      assert s[j] == if j < |spine| then spine[j] else task;
    }
  }

  /** Walk to the end of a queue. */
  method Last(ghost spine: seq<Task>, head: Task) returns (current: Task)
    requires Linked(spine, head)
    ensures spine != [] && current == spine[|spine| - 1]
  {
    hide Distinct;
    current := head;
    ghost var i := 0;
    while current.next != null
      invariant i < |spine| && current == spine[i]
      decreases |spine| - i
    {
      current, i := current.next, i + 1;
    }
  }

  /** Hang a task behind the last one. */
  method LinkAfter(ghost spine: seq<Task>, head: Task, current: Task, task: Task)
    requires Linked(spine, head) && spine != [] && current == spine[|spine| - 1] && task !in spine && task.next == null
    modifies current`next, task`prev
    ensures Linked(spine + [task], head)
  {
    hide Distinct;
    DistinctAt(spine, |spine| - 1);
    current.next := task;
    task.prev := current;
    AppendLinks(spine, task);
  }

  /** `add_task_to_queue` */
  method Append(ghost spine: seq<Task>, head: Task?, task: Task) returns (head': Task?)
    requires Linked(spine, head) && task !in spine
    modifies task`next, task`prev, spine`next
    ensures Linked(spine + [task], head')
  {
    hide Linked;
    LinkedHead(spine, head);
    task.next := null;
    task.prev := null;
    if head == null {
      AppendLinks(spine, task);
      return task;
    }
    var current := Last(spine, head);
    LinkAfter(spine, head, current, task);
    return head;
  }

  lemma DistinctAt(spine: seq<Task>, i: nat)
    requires Distinct(spine) && i < |spine|
    ensures forall j | 0 <= j < |spine| && j != i :: spine[j] != spine[i]
  {
  }

  ghost predicate Distinct(spine: seq<Task>) {
    forall i, j | 0 <= i < j < |spine| :: spine[i] != spine[j]
  }

  /** The task at place `j`, when its links skip place `i`. */
  ghost predicate SkipsAt(spine: seq<Task>, i: nat, j: nat)
    requires j < |spine|
    reads spine`next, spine`prev
  {
    && spine[j].next == (if j == i - 1 then At(spine, i + 1) else At(spine, j + 1))
    && spine[j].prev == (if j == i + 1 then At(spine, i - 1) else At(spine, j - 1))
  }

  lemma SkipLinks(spine: seq<Task>, i: nat, j: nat)
    requires i < |spine| && j < |spine| && j != i && SkipsAt(spine, i, j)
    ensures var s := spine[..i] + spine[i + 1..]; var k := if j < i then j else j - 1;
            s[k] == spine[j] && s[k].next == At(s, k + 1) && s[k].prev == At(s, k - 1)
  {
  }

  lemma SkipsLinked(spine: seq<Task>, i: nat)
    requires Distinct(spine) && i < |spine| && forall j | 0 <= j < |spine| && j != i :: SkipsAt(spine, i, j)
    ensures Linked(Minus(spine, spine[i]), if i == 0 then At(spine, 1) else spine[0])
  {
    hide Minus, SkipsAt;
    MinusAt(spine, i);
    var s := spine[..i] + spine[i + 1..];
    forall k | 0 <= k < |s| ensures s[k].next == At(s, k + 1) && s[k].prev == At(s, k - 1) {
      SkipLinks(spine, i, if k < i then k else k + 1);
    }
  }

  /** `remove_task_from_queue`, for a task on the queue or on none. */
  method Unlink(ghost spine: seq<Task>, head: Task?, task: Task) returns (head': Task?)
    requires Linked(spine, head) && (task !in spine ==> task.next == null && task.prev == null)
    modifies task`next, task`prev, spine`next, spine`prev
    ensures Linked(Minus(spine, task), head') && task.next == null && task.prev == null
  {
    hide Minus;
    if head == null {
      MinusNone(spine, task);
      return null;
    }
    head' := head;
    if head == task {
      head' := task.next;
      if head' != null {
        head'.prev := null;
      }
    } else {
      if task.prev != null {
        task.prev.next := task.next;
      }
      if task.next != null {
        task.next.prev := task.prev;
      }
    }
    task.next := null;
    task.prev := null;
    if task in spine {
      ghost var i := Place(spine, task);
      SkipsLinked(spine, i);
    } else {
      MinusNone(spine, task);
    }
  }

  ghost function Place(spine: seq<Task>, t: Task): (i: nat)
    requires t in spine
    ensures i < |spine| && spine[i] == t && forall j | 0 <= j < i :: spine[j] != t
  {
    if spine[0] == t then 0 else Place(spine[1..], t) + 1
  }
}
