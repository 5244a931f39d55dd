/** The circular message queue: an array shifted in place, seen as a sequence. */
module RingQueue {
  import opened Wrappers
  import opened Messages
  import opened Words

  // ----- the queue as a sequence -----

  function InsertAt(q: seq<Message>, k: nat, m: Message): (r: seq<Message>)
    requires k <= |q|
  {
    q[..k] + [m] + q[k..]
  }

  /** The place right after the last message of priority `p` or higher. */
  function Place(q: seq<Message>, p: nat): (k: nat)
    ensures k <= |q|
    ensures forall i | k <= i < |q| :: q[i].priority < p
    ensures k > 0 ==> q[k - 1].priority >= p
  {
    if q == [] || q[|q| - 1].priority >= p then |q| else Place(q[..|q| - 1], p)
  }

  predicate Jumps(m: Message) {
    m.priority == HIGH || m.priority == URGENT
  }

  /** `insert_message_by_priority`, on sequences. */
  function Insert(q: seq<Message>, m: Message): seq<Message> {
    if Jumps(m) then InsertAt(q, Place(q, m.priority), m) else q + [m]
  }

  lemma InsertIs(q: seq<Message>, m: Message)
    ensures Insert(q, m) == InsertAt(q, if Jumps(m) then Place(q, m.priority) else |q|, m)
  {
    assert q[..|q|] == q && q[|q|..] == [];
  }

  /** `m` has been put at place `k`: behind a message of at least its priority, or first, and before lower ones only. */
  ghost predicate FiledAt(q: seq<Message>, q': seq<Message>, m: Message, k: nat) {
    && k <= |q| && q' == q[..k] + [m] + q[k..]
    && (k > 0 ==> q[k - 1].priority >= m.priority) && forall i | k <= i < |q| :: q[i].priority < m.priority
  }

  lemma InsertFiled(q: seq<Message>, m: Message)
    ensures if m.priority == 2 || m.priority == 3 then exists k :: FiledAt(q, Insert(q, m), m, k) else Insert(q, m) == q + [m]
  {
    if m.priority == 2 || m.priority == 3 {
      assert FiledAt(q, Insert(q, m), m, Place(q, m.priority));
    }
  }

  /** What a send does to the queue. */
  function Sent(q: seq<Message>, m: Message, urgent: bool): seq<Message> {
    if urgent then [m] + q else Insert(q, m)
  }

  predicate Involves(m: Message, pid: int) {
    m.sender == pid || m.receiver == pid
  }

  /** The messages that neither come from nor go to `pid`. */
  function Without(q: seq<Message>, pid: int): seq<Message> {
    if q == [] then [] else (if Involves(q[0], pid) then [] else [q[0]]) + Without(q[1..], pid)
  }

  lemma {:induction false} WithoutAppend(q: seq<Message>, m: Message, pid: int)
    ensures Without(q + [m], pid) == Without(q, pid) + if Involves(m, pid) then [] else [m]
  {
    hide Involves;
    if q == [] {
      assert q + [m] == [m];
    } else {
      WithoutAppend(q[1..], m, pid);
      var one := if Involves(q[0], pid) then [] else [q[0]];
      var last := if Involves(m, pid) then [] else [m];
      assert (q + [m])[1..] == q[1..] + [m];
      assert one + (Without(q[1..], pid) + last) == (one + Without(q[1..], pid)) + last;
    }
  }

  /** `kept` is what is left of `q`, at positions `at` of it in order, without the messages that task `pid`
      has sent or is to receive. */
  ghost predicate LeftOf(q: seq<Message>, kept: seq<Message>, pid: int, at: seq<nat>) {
    && |at| == |kept| && (forall i, j | 0 <= i < j < |at| :: at[i] < at[j])
    && (forall i | 0 <= i < |at| :: at[i] < |q| && kept[i] == q[at[i]])
    && (forall k: nat | k < |q| :: k in at <==> q[k].sender != pid && q[k].receiver != pid)
  }

  lemma {:induction false} WithoutLeft(q: seq<Message>, pid: int) returns (at: seq<nat>)
    ensures LeftOf(q, Without(q, pid), pid, at)
  {
    if q == [] {
      at := [];
    } else {
      var n := |q| - 1;
      at := WithoutLeft(q[..n], pid);
      assert q == q[..n] + [q[n]];
      WithoutAppend(q[..n], q[n], pid);
      forall i | 0 <= i < |at| ensures at[i] < n {
        assert at[i] < |q[..n]|;
      }
      if !Involves(q[n], pid) {
        at := at + [n];
      }
    }
  }

  /** What is left involves the task no more. */
  lemma LeftIsFree(q: seq<Message>, kept: seq<Message>, pid: int, at: seq<nat>)
    requires LeftOf(q, kept, pid, at)
    ensures forall m | m in kept :: m.sender != pid && m.receiver != pid
  {
    forall i | 0 <= i < |kept| ensures kept[i].sender != pid && kept[i].receiver != pid {
      assert at[i] in at;
    }
  }

  // ----- counters are `uint32_t` -----

  function Inc(x: nat): (r: nat)
    ensures r < U32
    ensures x < 0xFFFF_FFFF ==> r == x + 1
    ensures x == 0xFFFF_FFFF ==> r == 0
  {
    (x + 1) % U32
  }

  function Dec(x: nat): (r: nat)
    ensures r < U32
    ensures 0 < x <= 0xFFFF_FFFF ==> r == x - 1
    ensures x == 0 ==> r == 0xFFFF_FFFF
  {
    Minus(x, 1)
  }

  function Minus(x: nat, n: nat): (r: nat)
    ensures r < U32
  {
    (x - n) % U32
  }

  lemma MinusThen(x: nat, n: nat)
    ensures Dec(Minus(x, n)) == Minus(x, n + 1)
    ensures x < U32 ==> Minus(x, 0) == x
  {
  }

  /** How often, among the first `c` messages, clean-up removes one and finds a message of
      priority `p` in its place: the next one, or the removed one itself if it was the last. */
  function Found(q: seq<Message>, pid: int, p: nat, c: nat): nat
    requires c <= |q|
  {
    if c == 0 then 0
    else Found(q, pid, p, c - 1) +
         if Involves(q[c - 1], pid) && q[if c < |q| then c else c - 1].priority == p then 1 else 0
  }

  // ----- what a send and a receive do -----

  /** The messages in order and the two priority counters. */
  datatype State = State(q: seq<Message>, high: nat, urgent: nat)

  /** The critical section of `send_message` on a queue that is not full. */
  function AfterSend(s: State, m: Message, urgent: bool): State {
    State(Sent(s.q, m, urgent),
          if !urgent && m.priority == HIGH then Inc(s.high) else s.high,
          if urgent || m.priority == URGENT then Inc(s.urgent) else s.urgent)
  }

  /** The critical section of `receive_message` on a queue that is not empty. */
  function AfterReceive(s: State): State
    requires s.q != []
  {
    State(s.q[1..],
          if s.q[0].priority == HIGH then Dec(s.high) else s.high,
          if s.q[0].priority == URGENT then Dec(s.urgent) else s.urgent)
  }

  /** `cleanup_task_messages` on one queue. */
  function AfterCleanup(s: State, pid: int): State {
    if pid <= 0 then s
    else State(Without(s.q, pid), Minus(s.high, Found(s.q, pid, HIGH, |s.q|)), Minus(s.urgent, Found(s.q, pid, URGENT, |s.q|)))
  }

  // ----- the array as a window of places -----

  /** Array index of place `i` when place 0 is at `head`. */
  function Slot(head: nat, max: nat, i: nat): (s: nat)
    requires head < max && i <= max
    ensures s < max
  {
    if head + i < max then head + i else head + i - max
  }

  function Prev(i: nat, max: nat): (p: nat)
    requires i < max
    ensures p < max
  {
    if i == 0 then max - 1 else i - 1
  }

  function Next(i: nat, max: nat): (p: nat)
    requires i < max
    ensures p < max
  {
    if i + 1 == max then 0 else i + 1
  }

  /** The first `n` places. */
  function Window(a: seq<Message>, head: nat, n: nat): (w: seq<Message>)
    requires head < |a| && n <= |a|
    ensures |w| == n
  {
    seq(n, i requires 0 <= i < n => a[Slot(head, |a|, i)])
  }

  lemma SlotSteps(head: nat, max: nat, i: nat)
    requires head < max && i <= max
    ensures i > 0 ==> Prev(Slot(head, max, i), max) == Slot(head, max, i - 1)
    ensures i < max ==> Next(Slot(head, max, i), max) == Slot(head, max, i + 1)
  {
  }

  lemma SlotApart(head: nat, max: nat, i: nat, j: nat)
    requires head < max && i < max && j < max
    ensures Slot(head, max, i) == Slot(head, max, j) <==> i == j
  {
  }

  lemma WindowSet(a: seq<Message>, head: nat, n: nat, j: nat, x: Message)
    requires head < |a| && n <= |a| && j < |a|
    ensures Window(a[Slot(head, |a|, j) := x], head, n) == if j < n then Window(a, head, n)[j := x] else Window(a, head, n)
  {
    var w := Window(a[Slot(head, |a|, j) := x], head, n);
    forall i | 0 <= i < n ensures w[i] == if i == j then x else Window(a, head, n)[i] {
      SlotApart(head, |a|, i, j);
    }
  }

  lemma WindowAt(a: seq<Message>, head: nat, n: nat, j: nat)
    requires head < |a| && j < n <= |a|
    ensures Window(a, head, n)[j] == a[Slot(head, |a|, j)]
  {
  }

  /** Stepping the head back keeps the tail. */
  lemma SlotZero(p: nat, max: nat, head: nat, n: nat)
    requires head < max && n < max && p == Prev(head, max)
    ensures Slot(p, max, 0) == p && Slot(p, max, n + 1) == Slot(head, max, n)
  {
  }

  lemma WindowPrefix(a: seq<Message>, head: nat, n: nat, k: nat)
    requires head < |a| && k <= n <= |a|
    ensures Window(a, head, n)[..k] == Window(a, head, k)
  {
  }

  /** One place further back. */
  lemma WindowBack(a: seq<Message>, head: nat, n: nat)
    requires head < |a| && n < |a|
    ensures Window(a, Prev(head, |a|), n + 1) == [a[Prev(head, |a|)]] + Window(a, head, n)
  {
    var w := Window(a, Prev(head, |a|), n + 1);
    forall i | 0 <= i < n ensures w[i + 1] == Window(a, head, n)[i] {
    }
  }

  lemma WindowForward(a: seq<Message>, head: nat, n: nat)
    requires head < |a| && 0 < n <= |a|
    ensures Window(a, Next(head, |a|), n - 1) == Window(a, head, n)[1..]
    ensures Window(a, head, n)[0] == a[head]
  {
    var w := Window(a, Next(head, |a|), n - 1);
    forall i | 0 <= i < n - 1 ensures w[i] == Window(a, head, n)[i + 1] {
    }
  }

  /** `w` is `q` with one more place at `c`. */
  ghost predicate Opened(w: seq<Message>, q: seq<Message>, c: nat) {
    && |w| == |q| + 1 && c <= |q|
    && (forall i | 0 <= i < c :: w[i] == q[i])
    && (forall i | c < i < |w| :: w[i] == q[i - 1])
  }

  lemma OpenedAtEnd(a: seq<Message>, head: nat, n: nat)
    requires head < |a| && n < |a|
    ensures Opened(Window(a, head, n + 1), Window(a, head, n), n)
  {
  }

  lemma OpenedStep(w: seq<Message>, q: seq<Message>, c: nat)
    requires Opened(w, q, c) && c > 0
    ensures Opened(w[c := w[c - 1]], q, c - 1)
  {
  }

  lemma OpenedFill(w: seq<Message>, q: seq<Message>, k: nat, m: Message)
    requires Opened(w, q, k)
    ensures w[k := m] == InsertAt(q, k, m)
  {
  }

  /** `w` is `q` with the messages after place `j` moved down, as far as place `k`. */
  ghost predicate Closing(w: seq<Message>, q: seq<Message>, j: nat, k: nat) {
    && |w| == |q| && j < k <= |q|
    && (forall i | 0 <= i < j :: w[i] == q[i])
    && (forall i | j <= i < k - 1 :: w[i] == q[i + 1])
    && (forall i | k - 1 <= i < |w| :: w[i] == q[i])
  }

  lemma ClosingStep(w: seq<Message>, q: seq<Message>, j: nat, k: nat)
    requires Closing(w, q, j, k) && k < |q|
    ensures Closing(w[k - 1 := w[k]], q, j, k + 1)
  {
  }

  function Removed(q: seq<Message>, j: nat): seq<Message>
    requires j < |q|
  {
    q[..j] + q[j + 1..]
  }

  lemma ClosingDone(w: seq<Message>, q: seq<Message>, j: nat)
    requires Closing(w, q, j, |q|)
    ensures w[..|q| - 1] == Removed(q, j)
    ensures w[j] == if j < |q| - 1 then q[j + 1] else q[j]
  {
  }

  lemma ClosingStart(q: seq<Message>, j: nat)
    requires j < |q|
    ensures Closing(q, q, j, j + 1)
  {
  }

  lemma SlotFirst(head: nat, max: nat)
    requires head < max
    ensures Slot(head, max, 0) == head
  {
  }

  /** Clean-up of `q` has gone over `c` messages and kept `j` of them. */
  ghost predicate Swept(q: seq<Message>, now: seq<Message>, pid: int, c: nat, j: nat) {
    && c <= |q| && j <= |now|
    && now[..j] == Without(q[..c], pid) && now[j..] == q[c..]
  }

  lemma SweptStart(q: seq<Message>, pid: int)
    ensures Swept(q, q, pid, 0, 0)
    ensures Found(q, pid, HIGH, 0) == 0 && Found(q, pid, URGENT, 0) == 0
  {
  }

  lemma SweptStep(q: seq<Message>, now: seq<Message>, pid: int, c: nat, j: nat)
    requires Swept(q, now, pid, c, j) && j < |now|
    ensures c < |q| && now[j] == q[c]
    ensures if Involves(q[c], pid) then Swept(q, Removed(now, j), pid, c + 1, j) else Swept(q, now, pid, c + 1, j + 1)
    ensures var found := if j < |now| - 1 then now[j + 1] else now[j];
            && Found(q, pid, HIGH, c + 1) == Found(q, pid, HIGH, c) + (if Involves(q[c], pid) && found.priority == HIGH then 1 else 0)
            && Found(q, pid, URGENT, c + 1) == Found(q, pid, URGENT, c) + (if Involves(q[c], pid) && found.priority == URGENT then 1 else 0)
  {
    assert |now[j..]| == |q[c..]|;
    assert now[j..][0] == q[c..][0];
    assert j < |now| - 1 ==> now[j..][1] == q[c..][1];
    assert q[..c + 1] == q[..c] + [q[c]];
    WithoutAppend(q[..c], q[c], pid);
    if Involves(q[c], pid) {
      var r := Removed(now, j);
      assert r[..j] == now[..j];
      assert r[j..] == now[j..][1..] == q[c..][1..] == q[c + 1..];
    } else {
      assert now[..j + 1] == now[..j] + [now[j]];
      assert now[j + 1..] == now[j..][1..] == q[c..][1..] == q[c + 1..];
    }
  }

  lemma SweptDone(q: seq<Message>, now: seq<Message>, pid: int, j: nat)
    requires Swept(q, now, pid, |q|, j) && j == |now|
    ensures now == Without(q, pid)
  {
    assert q[..|q|] == q && now[..j] == now;
  }

  lemma PlacePrefix(q: seq<Message>, k: nat, p: nat)
    requires 0 < k <= |q| && Place(q[..k], p) == Place(q, p)
    ensures if q[k - 1].priority >= p then Place(q, p) == k else Place(q[..k - 1], p) == Place(q, p)
  {
    assert q[..k][..k - 1] == q[..k - 1];
  }

  class Ring {
    const messages: array<Message>
    var head: nat
    var tail: nat
    var size: nat
    var highCount: nat
    var urgentCount: nat
    /** Values of the semaphores `msg_available` and `space_available`. */
    var available: nat
    var space: nat

    ghost predicate Valid()
      reads this
    {
      && 0 < messages.Length && head < messages.Length && size <= messages.Length
      && tail == Slot(head, messages.Length, size)
      && highCount < U32 && urgentCount < U32
    }

    ghost function Contents(): (q: seq<Message>)
      requires Valid()
      reads this, messages
      ensures |q| == size
    {
      Window(messages[..], head, size)
    }

    ghost function Now(): State
      requires Valid()
      reads this, messages
    {
      State(Contents(), highCount, urgentCount)
    }

    constructor (max: nat, fill: Message)
      ensures Valid() && fresh(messages) && messages.Length == (if max == 0 then 64 else max)
      ensures Contents() == [] && highCount == 0 && urgentCount == 0 && available == 0 && space == messages.Length
    {
      messages := new Message[if max == 0 then 64 else max](_ => fill);
      head, tail, size, highCount, urgentCount, available := 0, 0, 0, 0, 0, 0;
      space := if max == 0 then 64 else max;
    }

    /** Walking back from the tail finds the place for a message of priority `p`. */
    method FindPlace(p: nat) returns (pos: nat, ghost k: nat)
      requires Valid() && size < messages.Length
      ensures k == Place(Contents(), p) && pos == Slot(head, messages.Length, k)
    {
      hide Slot, Prev, Place, Window;
      pos := tail;
      var count := 0;
      k := size;
      assert Contents()[..k] == Contents();
      while count < size
        invariant 0 <= count <= size && k == size - count && pos == Slot(head, messages.Length, k)
        invariant Place(Contents()[..k], p) == Place(Contents(), p)
      {
        var idx := Prev(pos, messages.Length);
        SlotSteps(head, messages.Length, k);
        WindowAt(messages[..], head, size, k - 1);
        PlacePrefix(Contents(), k, p);
        if messages[idx].priority >= p {
          return;
        }
        pos, count, k := idx, count + 1, k - 1;
      }
      assert Contents()[..0] == [];
    }

    /** Store a message at an array index. */
    method Store(at: nat, m: Message)
      requires at < messages.Length
      modifies messages
      ensures messages[..] == old(messages[..])[at := m]
    {
      messages[at] := m;
    }

    /** Move the messages from place `k` on one slot forward, starting at the tail. */
    method ShiftUp(pos: nat, ghost k: nat)
      requires Valid() && size < messages.Length && k <= size && pos == Slot(head, messages.Length, k)
      modifies messages
      ensures Opened(Window(messages[..], head, size + 1), old(Contents()), k)
    {
      hide Slot, Prev, Window, Opened;
      var curr := tail;
      ghost var c := size;
      ghost var q := Contents();
      OpenedAtEnd(messages[..], head, size);
      while curr != pos
        invariant k <= c <= size && curr == Slot(head, messages.Length, c)
        invariant Opened(Window(messages[..], head, size + 1), q, c)
        decreases c
      {
        var prev := Prev(curr, messages.Length);
        ghost var a, w := messages[..], Window(messages[..], head, size + 1);
        SlotSteps(head, messages.Length, c);
        SlotApart(head, messages.Length, c, k);
        WindowSet(a, head, size + 1, c, a[prev]);
        WindowAt(a, head, size + 1, c - 1);
        OpenedStep(w, q, c);
        Store(curr, messages[prev]);
        curr, c := prev, c - 1;
      }
      SlotApart(head, messages.Length, c, k);
    }

    /** `insert_message_by_priority` */
    method InsertByPriority(m: Message) returns (ok: bool)
      requires Valid()
      modifies this`head, this`tail, this`size, this`highCount, this`urgentCount, messages
      ensures Valid() && ok == (old(size) < messages.Length)
      ensures Contents() == if ok then Insert(old(Contents()), m) else old(Contents())
      ensures highCount == if ok && m.priority == HIGH then Inc(old(highCount)) else old(highCount)
      ensures urgentCount == if ok && m.priority == URGENT then Inc(old(urgentCount)) else old(urgentCount)
    {
      hide Slot, Place, Window, Inc, InsertAt, Insert, Next;
      if size >= messages.Length {
        return false;
      }
      var pos := tail;
      ghost var k := size;
      InsertIs(Contents(), m);
      if m.priority == HIGH || m.priority == URGENT {
        pos, k := FindPlace(m.priority);
        if m.priority == HIGH {
          highCount := Inc(highCount);
        } else {
          urgentCount := Inc(urgentCount);
        }
      }
      PutAt(pos, m, k);
      SlotSteps(head, messages.Length, size);
      tail := Next(tail, messages.Length);
      size := size + 1;
      return true;
    }

    /** Shift if needed and store the message. */
    method PutAt(pos: nat, m: Message, ghost k: nat)
      requires Valid() && size < messages.Length && k <= size && pos == Slot(head, messages.Length, k)
      modifies messages
      ensures Window(messages[..], head, size + 1) == InsertAt(old(Contents()), k, m)
    {
      hide Slot, Window, Opened, InsertAt;
      SlotApart(head, messages.Length, k, size);
      OpenedAtEnd(messages[..], head, size);
      if pos != tail {
        ShiftUp(pos, k);
      }
      ghost var a, w := messages[..], Window(messages[..], head, size + 1);
      WindowSet(a, head, size + 1, k, m);
      OpenedFill(w, old(Contents()), k, m);
      Store(pos, m);
    }

    /** The critical section of `send_message`. */
    method Send(m: Message, urgent: bool) returns (ok: bool)
      requires Valid()
      modifies this`head, this`tail, this`size, this`highCount, this`urgentCount, messages
      ensures Valid() && ok == (old(size) < messages.Length)
      ensures Now() == if ok then AfterSend(old(Now()), m, urgent) else old(Now())
      ensures ok && urgent ==> Contents() == [m] + old(Contents())
      ensures ok && !urgent && m.priority != 2 && m.priority != 3 ==> Contents() == old(Contents()) + [m]
      ensures ok && !urgent && (m.priority == 2 || m.priority == 3) ==> exists k :: FiledAt(old(Contents()), Contents(), m, k)
    {
      hide Slot, Window, Inc, Insert, FiledAt;
      InsertFiled(Contents(), m);
      if !urgent {
        ok := InsertByPriority(m);
        return;
      }
      if size < messages.Length {
        PutFirst(m);
        urgentCount := Inc(urgentCount);
        return true;
      }
      return false;
    }

    /** Step the head back and store the message there. */
    method PutFirst(m: Message)
      requires Valid() && size < messages.Length
      modifies this`head, this`size, messages
      ensures Valid() && Contents() == [m] + old(Contents())
    {
      hide Slot, Window, Prev;
      ghost var a, p := messages[..], Prev(head, messages.Length);
      WindowBack(a, head, size);
      SlotSteps(p, messages.Length, 0);
      SlotZero(p, messages.Length, head, size);
      WindowSet(a, p, size + 1, 0, m);
      head := Prev(head, messages.Length);
      Store(head, m);
      size := size + 1;
    }

    /** The critical section of `receive_message`. */
    method Receive() returns (r: Option<Message>)
      requires Valid()
      modifies this`head, this`size, this`highCount, this`urgentCount
      ensures Valid()
      ensures r == if old(size) > 0 then Some(old(Contents())[0]) else None
      ensures Now() == if r.Some? then AfterReceive(old(Now())) else old(Now())
    {
      hide Window, Dec;
      if size == 0 {
        return None;
      }
      r := Some(messages[head]);
      WindowForward(messages[..], head, size);
      head := Next(head, messages.Length);
      size := size - 1;
      if r.value.priority == URGENT {
        urgentCount := Dec(urgentCount);
      } else if r.value.priority == HIGH {
        highCount := Dec(highCount);
      }
    }

    /** Remove the message at place `j`, found at array index `pos`, moving the following ones down. */
    method RemoveAt(pos: nat, j: nat)
      requires Valid() && j < size && pos == Slot(head, messages.Length, j)
      modifies this`tail, this`size, this`highCount, this`urgentCount, messages
      ensures Valid() && size == old(size) - 1
      ensures Contents() == Removed(old(Contents()), j)
      ensures var q := old(Contents()); var found := if j < |q| - 1 then q[j + 1] else q[j];
              && highCount == (if found.priority == HIGH then Dec(old(highCount)) else old(highCount))
              && urgentCount == (if found.priority == URGENT then Dec(old(urgentCount)) else old(urgentCount))
    {
      hide Slot, Next, Window, Closing, Removed, Dec;
      ghost var q := Contents();
      CloseGap(pos, j);
      ghost var w := Window(messages[..], head, size);
      ClosingDone(w, q, j);
      WindowAt(messages[..], head, size, j);
      if messages[pos].priority == HIGH {
        highCount := Dec(highCount);
      } else if messages[pos].priority == URGENT {
        urgentCount := Dec(urgentCount);
      }
      SlotSteps(head, messages.Length, size);
      WindowPrefix(messages[..], head, size, size - 1);
      tail := Prev(tail, messages.Length);
      size := size - 1;
    }

    method CloseGap(pos: nat, j: nat)
      requires Valid() && j < size && pos == Slot(head, messages.Length, j)
      modifies messages
      ensures Closing(Window(messages[..], head, size), old(Contents()), j, size)
    {
      hide Slot, Next, Window, Closing;
      SlotSteps(head, messages.Length, j);
      var movePos, nextPos := pos, Next(pos, messages.Length);
      ghost var q := Contents();
      ClosingStart(q, j);
      for k := j + 1 to size
        invariant movePos == Slot(head, messages.Length, k - 1) && nextPos == Slot(head, messages.Length, k)
        invariant Closing(Window(messages[..], head, size), q, j, k)
      {
        ghost var a, w := messages[..], Window(messages[..], head, size);
        WindowSet(a, head, size, k - 1, a[nextPos]);
        WindowAt(a, head, size, k);
        ClosingStep(w, q, j, k);
        Store(movePos, messages[nextPos]);
        SlotSteps(head, messages.Length, k);
        movePos, nextPos := nextPos, Next(nextPos, messages.Length);
      }
    }

    /** `cleanup_task_messages`, for one queue. */
    method Cleanup(pid: int)
      requires Valid()
      modifies this, messages
      ensures Valid()
      ensures Now() == AfterCleanup(old(Now()), pid)
      ensures pid > 0 ==> forall m | m in Contents() :: m.sender != pid && m.receiver != pid
      ensures pid > 0 ==> exists at :: LeftOf(old(Contents()), Contents(), pid, at)
      ensures pid <= 0 ==> Contents() == old(Contents())
      ensures size <= old(size)
      ensures if size < old(size) then available == size && space == messages.Length - size
              else available == old(available) && space == old(space)
    {
      hide Slot, Next, Window, Removed, Dec, Minus, Found, Without, Swept, LeftOf;
      if pid <= 0 {
        return;
      }
      ghost var q := Contents();
      ghost var c := 0;
      var pos, j, removed := head, 0, 0;
      MinusThen(highCount, 0);
      MinusThen(urgentCount, 0);
      SweptStart(q, pid);
      SlotFirst(head, messages.Length);
      while j < size
        invariant Valid() && j <= size <= |q| && c == j + removed && size + removed == |q|
        invariant pos == Slot(head, messages.Length, j)
        invariant Swept(q, Contents(), pid, c, j)
        invariant highCount == Minus(old(highCount), Found(q, pid, HIGH, c))
        invariant urgentCount == Minus(old(urgentCount), Found(q, pid, URGENT, c))
        invariant available == old(available) && space == old(space)
        decreases size - j
      {
        SlotSteps(head, messages.Length, j);
        WindowAt(messages[..], head, size, j);
        SweptStep(q, Contents(), pid, c, j);
        MinusThen(old(highCount), Found(q, pid, HIGH, c));
        MinusThen(old(urgentCount), Found(q, pid, URGENT, c));
        if messages[pos].sender == pid || messages[pos].receiver == pid {
          RemoveAt(pos, j);
          removed := removed + 1;
        } else {
          pos, j := Next(pos, messages.Length), j + 1;
        }
        c := c + 1;
      }
      SweptDone(q, Contents(), pid, j);
      ghost var at := WithoutLeft(q, pid);
      LeftIsFree(q, Contents(), pid, at);
      if removed > 0 {
        available, space := size, messages.Length - size;
      }
    }
  }
}
