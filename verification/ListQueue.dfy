/** The message queue kept as four linked lists, one for each priority. */
module ListQueue {
  import opened Chains
  import opened Messages
  import opened Wrappers

  // ----- the waiting messages in order of arrival -----

  /** The list a message goes to. */
  function Clamp(m: Message): (p: nat)
    ensures p < 4
  {
    if m.priority > URGENT then NORMAL else m.priority
  }

  /** The messages of list `p`. */
  function Class(log: seq<Message>, p: nat): seq<Message> {
    if log == [] then [] else (if Clamp(log[0]) == p then [log[0]] else []) + Class(log[1..], p)
  }

  /** Whose turn it is: the earliest message of the highest priority. */
  function Turn(log: seq<Message>): (k: nat)
    requires log != []
    ensures k < |log|
    ensures forall i | 0 <= i < |log| :: Clamp(log[i]) <= Clamp(log[k])
    ensures forall i | 0 <= i < k :: Clamp(log[i]) < Clamp(log[k])
  {
    if |log| == 1 then 0
    else
      var k := Turn(log[..|log| - 1]);
      if Clamp(log[|log| - 1]) > Clamp(log[k]) then |log| - 1 else k
  }

  /** A message of priority `x` does not go before one of priority `m`; what is above 3 counts as 1. */
  predicate NotBefore(x: nat, m: nat) {
    && (x <= 3 && m <= 3 ==> x <= m)
    && (x > 3 && m <= 3 ==> 1 <= m)
    && (x <= 3 && m > 3 ==> x <= 1)
  }

  /** A message of priority `x` goes after one of priority `m`, even if it came earlier. */
  predicate WellAfter(x: nat, m: nat) {
    NotBefore(x, m) && !NotBefore(m, x)
  }

  /** The waiting message at position `k` is due: nothing goes before it, and what came earlier goes after it. */
  ghost predicate IsDue(log: seq<Message>, k: nat) {
    && k < |log|
    && (forall i | 0 <= i < |log| :: NotBefore(log[i].priority, log[k].priority))
    && (forall i | 0 <= i < k :: WellAfter(log[i].priority, log[k].priority))
  }

  lemma TurnIsDue(log: seq<Message>)
    requires log != []
    ensures IsDue(log, Turn(log))
  {
    hide Turn;
  }

  lemma {:induction false} ClassAppend(log: seq<Message>, m: Message, p: nat)
    ensures Class(log + [m], p) == Class(log, p) + if Clamp(m) == p then [m] else []
  {
    hide Clamp;
    if log == [] {
      assert log + [m] == [m];
    } else {
      ClassAppend(log[1..], m, p);
      assert (log + [m])[1..] == log[1..] + [m];
      var one := if Clamp(log[0]) == p then [log[0]] else [];
      var last := if Clamp(m) == p then [m] else [];
      assert one + (Class(log[1..], p) + last) == (one + Class(log[1..], p)) + last;
    }
  }

  lemma {:induction false} ClassEmpty(log: seq<Message>, p: nat)
    ensures Class(log, p) == [] <==> forall i | 0 <= i < |log| :: Clamp(log[i]) != p
  {
    hide Clamp;
    if log != [] {
      ClassEmpty(log[1..], p);
      assert forall i | 0 <= i < |log| :: log[i] == if i == 0 then log[0] else log[1..][i - 1];
    }
  }

  /** Taking out the first message of a list. */
  lemma {:induction false} ClassDrop(log: seq<Message>, k: nat, p: nat)
    requires k < |log| && forall i | 0 <= i < k :: Clamp(log[i]) != Clamp(log[k])
    ensures Clamp(log[k]) == p ==> Class(log, p) == [log[k]] + Class(Drop(log, k), p)
    ensures Clamp(log[k]) != p ==> Class(log, p) == Class(Drop(log, k), p)
  {
    hide Clamp;
    if k == 0 {
      assert Drop(log, 0) == log[1..];
    } else {
      ClassDrop(log[1..], k - 1, p);
      assert Drop(log, k) == [log[0]] + Drop(log[1..], k - 1);
      assert Drop(log, k)[1..] == Drop(log[1..], k - 1);
    }
  }

  /** The head of the highest list that is not empty is the message whose turn it is. */
  lemma TurnIsHead(log: seq<Message>, p: nat)
    requires p < 4 && Class(log, p) != [] && forall h | p < h < 4 :: Class(log, h) == []
    ensures log != [] && Clamp(log[Turn(log)]) == p && log[Turn(log)] == Class(log, p)[0]
    ensures forall h | 0 <= h < 4 :: Class(Drop(log, Turn(log)), h) == if h == p then Class(log, p)[1..] else Class(log, h)
  {
    hide Clamp, Turn, Drop, Class;
    ClassEmpty(log, p);
    var k := Turn(log);
    forall h | 0 <= h < 4
      ensures Class(log, h) == (if Clamp(log[k]) == h then [log[k]] else []) + Class(Drop(log, k), h)
      ensures Class(log, h) == [] <==> forall i | 0 <= i < |log| :: Clamp(log[i]) != h
    {
      ClassDrop(log, k, h);
      ClassEmpty(log, h);
    }
    assert Class(log, Clamp(log[k])) != [];
  }

  // ----- the four lists -----

  /** The lists share no node. */
  ghost predicate Apart(spines: seq<seq<Node<Message>>>, repr: set<Node<Message>>)
    requires |spines| == 4
  {
    && (forall p | 0 <= p < 4 :: forall n | n in spines[p] :: n in repr)
    && (forall p, q | 0 <= p < q < 4 :: forall n | n in spines[p] :: n !in spines[q])
  }

  lemma ApartAppend(spines: seq<seq<Node<Message>>>, repr: set<Node<Message>>, p: nat, n: Node<Message>)
    requires |spines| == 4 && Apart(spines, repr) && p < 4 && n !in repr
    ensures n !in spines[p] && Apart(spines[p := spines[p] + [n]], repr + {n})
  {
  }

  lemma ApartFrom(spines: seq<seq<Node<Message>>>, repr: set<Node<Message>>, p: nat, k: nat)
    requires |spines| == 4 && Apart(spines, repr) && p < 4 && k <= |spines[p]|
    ensures Apart(spines[p := spines[p][k..]], repr)
  {
  }

  lemma ApartNodes(spines: seq<seq<Node<Message>>>, repr: set<Node<Message>>, p: nat, n: Node<Message>)
    requires |spines| == 4 && Apart(spines, repr) && p < 4 && n in spines[p]
    ensures n in repr && forall h | 0 <= h < 4 && h != p :: n !in spines[h]
  {
  }

  class Lists {
    const head: array<Node?<Message>>
    const tail: array<Node?<Message>>
    var count: nat
    var sent: nat
    var received: nat
    ghost var spines: seq<seq<Node<Message>>>
    ghost var repr: set<Node<Message>>
    /** The messages waiting, in order of arrival. */
    ghost var log: seq<Message>

    ghost predicate Wellformed()
      reads this
    {
      head.Length == 4 && tail.Length == 4 && head != tail && |spines| == 4 && Apart(spines, repr)
    }

    ghost predicate Valid()
      reads this, head, tail, repr
    {
      && Wellformed()
      && (forall p | 0 <= p < 4 :: Chained(spines[p], head[p], tail[p]) && Values(spines[p]) == Class(log, p))
      && count == |log| && sent == received + count
    }

    constructor ()
      ensures Valid() && log == [] && sent == 0 && fresh(head) && fresh(tail) && repr == {}
    {
      head := new Node?<Message>[4](_ => null);
      tail := new Node?<Message>[4](_ => null);
      count, sent, received, log, repr := 0, 0, 0, [], {};
      spines := [[], [], [], []];
      new;
      hide Chained, Values;
      EmptyChain<Message>();
    }

    /** `enqueue_message`; the allocator may fail. */
    method Enqueue(m: Message) returns (ok: bool)
      requires Valid()
      modifies this, head, tail, repr
      ensures Valid() && fresh(repr - old(repr))
      ensures log == (if ok then old(log) + [m] else old(log))
      ensures sent == (if ok then old(sent) + 1 else old(sent)) && received == old(received)
    {
      hide Chained, Values, Class, Clamp, Apart;
      if * {
        return false;
      }
      var p := Clamp(m);
      var n := new Node<Message>(m);
      ChainEnds(spines[p], head[p], tail[p]);
      ValuesAppend(spines[p], n);
      forall h | 0 <= h < 4 ensures Class(log + [m], h) == Class(log, h) + if Clamp(m) == h then [m] else [] {
        ClassAppend(log, m, h);
      }
      ApartAppend(spines, repr, p, n);
      if tail[p] != null {
        ApartNodes(spines, repr, p, tail[p]);
      }
      var first, last := Append(spines[p], head[p], tail[p], n);
      head[p], tail[p] := first, last;
      spines := spines[p := spines[p] + [n]];
      repr := repr + {n};
      log := log + [m];
      count, sent := count + 1, sent + 1;
      return true;
    }

    /** `dequeue_message` */
    method Dequeue() returns (r: Option<Message>)
      requires Valid()
      modifies this, head, tail
      ensures Valid() && repr == old(repr)
      ensures r == if old(log) == [] then None else Some(old(log)[Turn(old(log))])
      ensures log == if old(log) == [] then [] else Drop(old(log), Turn(old(log)))
      ensures r.Some? ==> exists k: nat ::
                IsDue(old(log), k) && r.value == old(log)[k] && log == old(log)[..k] + old(log)[k + 1..]
      ensures received == (if r.Some? then old(received) + 1 else old(received)) && sent == old(sent)
    {
      hide Chained, Values, Class, Clamp, Turn, Drop, IsDue;
      if log != [] {
        TurnIsDue(log);
        DropIs(log, Turn(log));
      }
      for p := 4 downto 0
        invariant Valid() && repr == old(repr) && log == old(log) && received == old(received) && sent == old(sent)
        invariant forall h | p <= h < 4 :: Class(log, h) == []
      {
        ChainEnds(spines[p], head[p], tail[p]);
        if head[p] != null {
          var m := TakeFirst(p);
          return Some(m);
        }
      }
      NothingWaiting(log);
      return None;
    }

    /** Take the head of list `p`. */
    method TakeFirst(p: nat) returns (m: Message)
      requires Valid() && p < 4 && head[p] != null && forall h | p < h < 4 :: Class(log, h) == []
      modifies this, head, tail
      ensures Valid() && repr == old(repr) && old(log) != []
      ensures m == old(log)[Turn(old(log))] && log == Drop(old(log), Turn(old(log)))
      ensures received == old(received) + 1 && sent == old(sent)
    {
      hide Chained, Values, Class, Clamp, Turn, Drop, Apart;
      var node := head[p];
      ghost var spine := spines[p];
      ChainEnds(spine, head[p], tail[p]);
      ChainNext(spine, head[p], tail[p], 0);
      ChainFrom(spine, head[p], tail[p], 1);
      ApartFrom(spines, repr, p, 1);
      ValuesAt(spine, 0);
      ValuesFrom(spine, 1);
      TurnIsHead(log, p);
      DropLength(log, Turn(log));
      head[p] := node.next;
      if head[p] == null {
        tail[p] := null;
      }
      spines := spines[p := spine[1..]];
      log := Drop(log, Turn(log));
      count, received := count - 1, received + 1;
      return node.val;
    }
  }

  lemma DropIs(log: seq<Message>, k: nat)
    requires k < |log|
    ensures Drop(log, k) == log[..k] + log[k + 1..]
  {
  }

  lemma DropLength(log: seq<Message>, k: nat)
    requires k < |log|
    ensures |Drop(log, k)| == |log| - 1
  {
  }

  lemma NothingWaiting(log: seq<Message>)
    requires forall h | 0 <= h < 4 :: Class(log, h) == []
    ensures log == []
  {
    if log != [] {
      ClassEmpty(log, Clamp(log[0]));
    }
  }
}
