/** Delivery order and counters of the circular queue, over every run. */
module RingLaws {
  import opened Messages
  import opened RingQueue
  import opened Words

  /** Urgent before high before the rest; the queue does not tell LOW and NORMAL apart. */
  function Rank(m: Message): nat {
    if m.priority == URGENT then 2 else if m.priority == HIGH then 1 else 0
  }

  ghost predicate Ordered(q: seq<Message>) {
    forall i, j | 0 <= i < j < |q| :: Rank(q[i]) >= Rank(q[j])
  }

  ghost predicate Known(q: seq<Message>) {
    forall m | m in q :: m.priority <= URGENT
  }

  /** The messages of rank `r`, in order. */
  function Of(q: seq<Message>, r: nat): seq<Message> {
    if q == [] then [] else (if Rank(q[0]) == r then [q[0]] else []) + Of(q[1..], r)
  }

  lemma {:induction false} OfConcat(a: seq<Message>, b: seq<Message>, r: nat)
    ensures Of(a + b, r) == Of(a, r) + Of(b, r)
  {
    hide Rank;
    if a == [] {
      assert a + b == b;
    } else {
      OfConcat(a[1..], b, r);
      var one := if Rank(a[0]) == r then [a[0]] else [];
      assert (a + b)[1..] == a[1..] + b;
      assert one + (Of(a[1..], r) + Of(b, r)) == (one + Of(a[1..], r)) + Of(b, r);
    }
  }

  lemma {:induction false} OfNone(q: seq<Message>, r: nat)
    requires forall m | m in q :: Rank(m) != r
    ensures Of(q, r) == []
  {
    if q != [] {
      OfNone(q[1..], r);
    }
  }

  lemma OfOne(m: Message, r: nat)
    ensures Of([m], r) == if Rank(m) == r then [m] else []
  {
    assert [m][1..] == [];
  }

  lemma {:induction false} OfLength(q: seq<Message>, r: nat)
    ensures |Of(q, r)| <= |q|
  {
    if q != [] {
      OfLength(q[1..], r);
    }
  }

  lemma OfInsert(q: seq<Message>, k: nat, m: Message, r: nat)
    requires k <= |q|
    ensures Of(InsertAt(q, k, m), r) == Of(q[..k], r) + Of([m], r) + Of(q[k..], r)
    ensures Of(q, r) == Of(q[..k], r) + Of(q[k..], r)
  {
    hide Of;
    OfConcat(q[..k] + [m], q[k..], r);
    OfConcat(q[..k], [m], r);
    OfConcat(q[..k], q[k..], r);
    assert q == q[..k] + q[k..];
  }

  // ----- one send -----

  /** Priorities are the four levels, and the urgent flag is used on urgent messages only. */
  predicate Proper(m: Message, urgent: bool) {
    m.priority <= URGENT && (urgent ==> m.priority == URGENT)
  }

  /** Where a send puts the message. */
  function Spot(q: seq<Message>, m: Message, urgent: bool): (k: nat)
    ensures k <= |q|
  {
    if urgent then 0 else if Jumps(m) then Place(q, m.priority) else |q|
  }

  lemma SentAt(q: seq<Message>, m: Message, urgent: bool)
    ensures Sent(q, m, urgent) == InsertAt(q, Spot(q, m, urgent), m)
  {
    assert q[..|q|] == q && q[|q|..] == [];
    assert q[..0] == [] && q[0..] == q;
  }

  lemma SpotSplits(q: seq<Message>, m: Message, urgent: bool)
    requires Ordered(q) && Known(q) && Proper(m, urgent)
    ensures forall i | 0 <= i < Spot(q, m, urgent) :: Rank(q[i]) >= Rank(m)
    ensures forall i | Spot(q, m, urgent) <= i < |q| :: Rank(q[i]) <= Rank(m)
    ensures !urgent ==> forall i | Spot(q, m, urgent) <= i < |q| :: Rank(q[i]) < Rank(m)
  {
    var k := Spot(q, m, urgent);
    if !urgent && Jumps(m) && k > 0 {
      forall i | 0 <= i < k ensures Rank(q[i]) >= Rank(m) {
        assert i < k - 1 ==> Rank(q[i]) >= Rank(q[k - 1]);
      }
    }
  }

  lemma InsertOrdered(q: seq<Message>, k: nat, m: Message)
    requires Ordered(q) && k <= |q|
    requires forall i | 0 <= i < k :: Rank(q[i]) >= Rank(m)
    requires forall i | k <= i < |q| :: Rank(q[i]) <= Rank(m)
    ensures Ordered(InsertAt(q, k, m))
  {
    hide Rank;
    var w := InsertAt(q, k, m);
    forall i, j | 0 <= i < j < |w| ensures Rank(w[i]) >= Rank(w[j]) {
      assert w[i] == if i < k then q[i] else if i == k then m else q[i - 1];
      assert w[j] == if j < k then q[j] else if j == k then m else q[j - 1];
    }
  }

  /** A send keeps the queue in the order urgent, high, rest. */
  lemma SendOrdered(q: seq<Message>, m: Message, urgent: bool)
    requires Ordered(q) && Known(q) && Proper(m, urgent)
    ensures Ordered(Sent(q, m, urgent)) && Known(Sent(q, m, urgent))
  {
    hide Sent, Ordered, Spot, Rank;
    SentAt(q, m, urgent);
    SpotSplits(q, m, urgent);
    InsertOrdered(q, Spot(q, m, urgent), m);
    forall x | x in Sent(q, m, urgent) ensures x.priority <= URGENT {
      assert x in q || x == m;
    }
  }

  /** High messages, and likewise the rest, keep their order of arrival. */
  lemma SendArrival(q: seq<Message>, m: Message, urgent: bool, r: nat)
    requires Ordered(q) && Known(q) && Proper(m, urgent) && r < 2
    ensures Of(Sent(q, m, urgent), r) == Of(q + [m], r)
  {
    hide Sent, Of, Ordered, Spot;
    var k := Spot(q, m, urgent);
    SentAt(q, m, urgent);
    OfInsert(q, k, m, r);
    OfConcat(q, [m], r);
    OfOne(m, r);
    if Rank(m) == r {
      SpotSplits(q, m, urgent);
      OfNone(q[k..], r);
    }
  }

  lemma SendCounts(q: seq<Message>, m: Message, urgent: bool, r: nat)
    ensures |Of(Sent(q, m, urgent), r)| == |Of(q, r)| + if Rank(m) == r then 1 else 0
  {
    hide Sent, Of, Rank;
    SentAt(q, m, urgent);
    OfInsert(q, Spot(q, m, urgent), m, r);
    OfOne(m, r);
  }

  lemma SentMultiset(q: seq<Message>, m: Message, urgent: bool)
    ensures multiset(Sent(q, m, urgent)) == multiset(q + [m])
  {
    hide Sent, Spot;
    var k := Spot(q, m, urgent);
    SentAt(q, m, urgent);
    assert q == q[..k] + q[k..];
  }

  // ----- the messages waiting, in order of arrival -----

  /** `log` without the first message equal to `m`. */
  function Taken(log: seq<Message>, m: Message): seq<Message> {
    if log == [] then [] else if log[0] == m then log[1..] else [log[0]] + Taken(log[1..], m)
  }

  lemma {:induction false} TakenOf(log: seq<Message>, m: Message, r: nat)
    requires Of(log, Rank(m)) != [] && Of(log, Rank(m))[0] == m
    ensures Of(Taken(log, m), r) == if Rank(m) == r then Of(log, r)[1..] else Of(log, r)
  {
    if log[0] != m {
      TakenOf(log[1..], m, r);
      var t := Taken(log, m);
      assert t[1..] == Taken(log[1..], m);
    }
  }

  lemma {:induction false} TakenMultiset(log: seq<Message>, m: Message)
    requires m in log
    ensures multiset(Taken(log, m)) == multiset(log) - multiset{m}
  {
    assert log == [log[0]] + log[1..];
    if log[0] != m {
      TakenMultiset(log[1..], m);
    }
  }

  lemma {:induction false} TakenOther(log: seq<Message>, m: Message, r: nat)
    requires Rank(m) != r
    ensures Of(Taken(log, m), r) == Of(log, r)
  {
    if log != [] && log[0] != m {
      TakenOther(log[1..], m, r);
      var t := Taken(log, m);
      assert t[1..] == Taken(log[1..], m);
    }
  }

  /** The queue holds exactly the waiting messages `log`: urgent, then high, then the rest, the last
      two kinds in order of arrival. */
  ghost predicate Arranged(q: seq<Message>, log: seq<Message>) {
    && Ordered(q) && Known(q) && multiset(q) == multiset(log)
    && Of(q, 1) == Of(log, 1) && Of(q, 0) == Of(log, 0)
  }

  lemma SendArranged(q: seq<Message>, log: seq<Message>, m: Message, urgent: bool)
    requires Arranged(q, log) && Proper(m, urgent)
    ensures Arranged(Sent(q, m, urgent), log + [m])
  {
    hide Sent, Of, Ordered, Known, Proper;
    SendOrdered(q, m, urgent);
    SentMultiset(q, m, urgent);
    assert forall r | r in {0, 1} :: Of(Sent(q, m, urgent), r) == Of(log + [m], r) by {
      forall r | r in {0, 1} ensures Of(Sent(q, m, urgent), r) == Of(log + [m], r) {
        SendArrival(q, m, urgent, r);
        OfConcat(q, [m], r);
        OfConcat(log, [m], r);
      }
    }
  }

  lemma ReceiveKeepsOrder(q: seq<Message>)
    requires q != [] && Ordered(q) && Known(q)
    ensures Ordered(q[1..]) && Known(q[1..])
  {
  }

  lemma ReceiveOf(q: seq<Message>, log: seq<Message>, r: nat)
    requires q != [] && Of(q, r) == Of(log, r)
    ensures Of(q[1..], r) == Of(Taken(log, q[0]), r)
  {
    var m := q[0];
    if Rank(m) == r {
      TakenOf(log, m, r);
    } else {
      TakenOther(log, m, r);
    }
  }

  lemma ReceiveArranged(q: seq<Message>, log: seq<Message>)
    requires Arranged(q, log) && q != []
    ensures Arranged(q[1..], Taken(log, q[0]))
  {
    hide Of, Ordered, Known, Taken;
    ReceiveKeepsOrder(q);
    ReceiveOf(q, log, 0);
    ReceiveOf(q, log, 1);
    assert q == [q[0]] + q[1..];
    assert q[0] in multiset(q);
    TakenMultiset(log, q[0]);
  }

  lemma {:induction false} WithoutIn(q: seq<Message>, pid: int, m: Message)
    ensures multiset(Without(q, pid))[m] == if m.sender == pid || m.receiver == pid then 0 else multiset(q)[m]
  {
    if q != [] {
      assert q == [q[0]] + q[1..];
      WithoutIn(q[1..], pid, m);
    }
  }

  lemma {:induction false} WithoutOrdered(q: seq<Message>, pid: int)
    requires Ordered(q)
    ensures Ordered(Without(q, pid))
  {
    if q != [] {
      var rest := Without(q[1..], pid);
      WithoutOrdered(q[1..], pid);
      forall m | m in rest ensures Rank(q[0]) >= Rank(m) {
        WithoutIn(q[1..], pid, m);
        assert m in multiset(q[1..]);
      }
    }
  }

  lemma {:induction false} WithoutOf(q: seq<Message>, pid: int, r: nat)
    ensures Of(Without(q, pid), r) == Without(Of(q, r), pid)
  {
    if q != [] {
      var one := if Involves(q[0], pid) then [] else [q[0]];
      var w := Without(q[1..], pid);
      WithoutOf(q[1..], pid, r);
      OfConcat(one, w, r);
      OfOne(q[0], r);
      var o := if Rank(q[0]) == r then [q[0]] else [];
      var rest := Of(q[1..], r);
      assert if o == [] then o + rest == rest else (o + rest)[1..] == rest;
    }
  }

  lemma CleanupArranged(q: seq<Message>, log: seq<Message>, pid: int)
    requires Arranged(q, log)
    ensures Arranged(Without(q, pid), Without(log, pid))
  {
    hide Of, Ordered, Without;
    WithoutOrdered(q, pid);
    WithoutOf(q, pid, 0);
    WithoutOf(log, pid, 0);
    WithoutOf(q, pid, 1);
    WithoutOf(log, pid, 1);
    forall m ensures multiset(Without(q, pid))[m] == multiset(Without(log, pid))[m] {
      WithoutIn(q, pid, m);
      WithoutIn(log, pid, m);
    }
    forall m | m in Without(q, pid) ensures m.priority <= URGENT {
      assert m in multiset(Without(q, pid));
      WithoutIn(q, pid, m);
      assert m in multiset(q);
    }
  }

  // ----- runs -----

  datatype Op = Send(m: Message, urgent: bool) | Receive | Cleanup(pid: int)

  /** The queue and, beside it, the messages waiting in order of arrival. */
  datatype Traced = Traced(s: State, log: seq<Message>)

  predicate Enabled(t: Traced, op: Op, max: nat) {
    match op
    case Send(m, urgent) => |t.s.q| < max && Proper(m, urgent)
    case Receive => t.s.q != []
    case Cleanup(_) => true
  }

  function Do(t: Traced, op: Op): Traced
    requires op.Receive? ==> t.s.q != []
  {
    match op
    case Send(m, urgent) => Traced(AfterSend(t.s, m, urgent), t.log + [m])
    case Receive => Traced(AfterReceive(t.s), Taken(t.log, t.s.q[0]))
    case Cleanup(pid) => Traced(AfterCleanup(t.s, pid), if pid <= 0 then t.log else Without(t.log, pid))
  }

  ghost predicate Run(ts: seq<Traced>, ops: seq<Op>, max: nat) {
    && |ts| == |ops| + 1 && ts[0] == Traced(State([], 0, 0), [])
    && forall i | 0 <= i < |ops| :: Enabled(ts[i], ops[i], max) && ts[i + 1] == Do(ts[i], ops[i])
  }

  lemma StepArranged(t: Traced, op: Op, max: nat)
    requires Arranged(t.s.q, t.log) && Enabled(t, op, max)
    ensures Arranged(Do(t, op).s.q, Do(t, op).log)
  {
    hide Arranged, Sent, Taken, Without, Proper;
    match op
    case Send(m, urgent) => SendArranged(t.s.q, t.log, m, urgent);
    case Receive => ReceiveArranged(t.s.q, t.log);
    case Cleanup(pid) => CleanupArranged(t.s.q, t.log, pid);
  }

  lemma StartArranged()
    ensures Arranged([], [])
  {
  }

  /** In every run of sends, receives and clean-ups the queue is the waiting messages, urgent first,
      then high, then the rest, high and the rest in order of arrival. */
  lemma {:induction false} RunArranged(ts: seq<Traced>, ops: seq<Op>, max: nat, n: nat)
    requires Run(ts, ops, max) && n < |ts|
    ensures Arranged(ts[n].s.q, ts[n].log)
  {
    hide Arranged, Enabled, Do;
    if n == 0 {
      StartArranged();
    } else {
      RunArranged(ts, ops, max, n - 1);
      StepArranged(ts[n - 1], ops[n - 1], max);
    }
  }

  /** Message `m` may be delivered next: an urgent one (3) before a high one (2) before the rest. */
  ghost predicate Foremost(log: seq<Message>, m: Message) {
    m in log && forall x | x in log :: (x.priority == 3 ==> m.priority == 3) && (x.priority == 2 ==> m.priority == 2 || m.priority == 3)
  }

  /** It is the first to have arrived of the high ones, or of those neither high nor urgent. */
  ghost predicate Earliest(log: seq<Message>, m: Message, k: nat) {
    && k < |log| && log[k] == m
    && forall i | 0 <= i < k :: if m.priority == 2 then log[i].priority != 2 else log[i].priority == 2 || log[i].priority == 3
  }

  lemma {:induction false} OfFirst(log: seq<Message>, r: nat) returns (k: nat)
    requires Of(log, r) != []
    ensures k < |log| && log[k] == Of(log, r)[0] && Rank(log[k]) == r && forall i | 0 <= i < k :: Rank(log[i]) != r
  {
    hide Rank;
    if Rank(log[0]) == r {
      k := 0;
    } else {
      assert Of(log, r) == Of(log[1..], r);
      k := OfFirst(log[1..], r);
      assert forall i | 0 < i <= k :: log[i] == log[1..][i - 1];
      k := k + 1;
    }
  }

  lemma FrontRank(q: seq<Message>, log: seq<Message>)
    requires Arranged(q, log) && q != []
    ensures q[0] in log && q[0].priority <= 3 && forall x | x in log :: Rank(x) <= Rank(q[0]) && x.priority <= 3
    ensures Rank(q[0]) < 2 ==> Of(log, Rank(q[0])) != [] && Of(log, Rank(q[0]))[0] == q[0]
  {
    assert q[0] in multiset(q);
    forall x | x in log ensures Rank(x) <= Rank(q[0]) && x.priority <= 3 {
      assert x in multiset(q);
      var i :| 0 <= i < |q| && q[i] == x;
    }
  }

  /** What a receive delivers: urgent before high before the rest, high and the rest in order of arrival. */
  lemma NextDelivered(ts: seq<Traced>, ops: seq<Op>, max: nat, n: nat)
    requires Run(ts, ops, max) && n < |ops| && ops[n].Receive?
    ensures ts[n].s.q != [] && Foremost(ts[n].log, ts[n].s.q[0])
    ensures ts[n].s.q[0].priority != 3 ==> exists k :: Earliest(ts[n].log, ts[n].s.q[0], k)
  {
    hide Arranged, Do, Of;
    RunArranged(ts, ops, max, n);
    var q, log := ts[n].s.q, ts[n].log;
    assert Enabled(ts[n], ops[n], max);
    FrontRank(q, log);
    var m := q[0];
    if m.priority != 3 {
      var k := OfFirst(log, Rank(m));
      assert Earliest(log, m, k);
    }
  }

  /** A message sent with the urgent flag is the next one delivered, whatever its priority, and leaves the queue as it was. */
  lemma UrgentIsNext(s: State, m: Message)
    ensures AfterSend(s, m, true).q != [] && AfterSend(s, m, true).q[0] == m && AfterReceive(AfterSend(s, m, true)).q == s.q
  {
  }

  // ----- the counters -----

  ghost predicate Exact(s: State) {
    s.high == |Of(s.q, 1)| && s.urgent == |Of(s.q, 2)|
  }

  /** The urgent counter follows the flag on the way in and the priority on the way out: a send keeps
      the counters exact exactly when the flag is not set on a message that is not urgent. */
  lemma SendExact(s: State, m: Message, urgent: bool)
    requires Exact(s) && |s.q| + 1 < U32
    ensures Exact(AfterSend(s, m, urgent)) <==> (urgent ==> m.priority == URGENT)
  {
    hide Of, Sent;
    SendCounts(s.q, m, urgent, 1);
    SendCounts(s.q, m, urgent, 2);
    OfLength(s.q, 1);
    OfLength(s.q, 2);
  }

  /** A NORMAL message sent with the urgent flag is counted as urgent for good. */
  lemma UrgentFlagMiscounts(m: Message)
    requires m.priority == NORMAL
    ensures Exact(State([], 0, 0)) && AfterSend(State([], 0, 0), m, true) == State([m], 0, 1)
    ensures !Exact(State([m], 0, 1)) && AfterReceive(State([m], 0, 1)) == State([], 0, 1)
  {
    OfOne(m, 1);
    OfOne(m, 2);
    assert [m] + [] == [m] && [m][1..] == [];
  }

  lemma ReceiveExact(s: State)
    requires Exact(s) && s.q != [] && |s.q| < U32
    ensures Exact(AfterReceive(s))
  {
    OfLength(s.q, 1);
    OfLength(s.q, 2);
  }

  ghost predicate Bounded(s: State, max: nat) {
    Exact(s) && |s.q| <= max
  }

  lemma StepBounded(t: Traced, op: Op, max: nat)
    requires Bounded(t.s, max) && Enabled(t, op, max) && !op.Cleanup? && max < U32
    ensures Bounded(Do(t, op).s, max)
  {
    hide Exact, Sent;
    match op
    case Send(m, urgent) =>
      SendExact(t.s, m, urgent);
      SentAt(t.s.q, m, urgent);
    case Receive =>
      ReceiveExact(t.s);
  }

  /** In every run of sends and receives the two counters are the numbers of high and urgent messages
      queued, and the queue stays within its capacity. */
  lemma {:induction false} RunExact(ts: seq<Traced>, ops: seq<Op>, max: nat, n: nat)
    requires Run(ts, ops, max) && n < |ts| && max < U32
    requires forall i | 0 <= i < |ops| :: !ops[i].Cleanup?
    ensures Exact(ts[n].s) && |ts[n].s.q| <= max
  {
    hide Enabled, Do;
    if n > 0 {
      RunExact(ts, ops, max, n - 1);
      StepBounded(ts[n - 1], ops[n - 1], max);
    }
  }

  // ----- the counters after a clean-up -----

  /** Removed messages of priority `p` with a message of another priority right behind them. */
  function Leaving(q: seq<Message>, pid: int, p: nat, c: nat): nat
    requires c <= |q|
  {
    if c == 0 then 0
    else Leaving(q, pid, p, c - 1) +
         if Involves(q[c - 1], pid) && c < |q| && q[c - 1].priority == p && q[c].priority != p then 1 else 0
  }

  /** Removed messages of another priority with one of priority `p` right behind them. */
  function Entering(q: seq<Message>, pid: int, p: nat, c: nat): nat
    requires c <= |q|
  {
    if c == 0 then 0
    else Entering(q, pid, p, c - 1) +
         if Involves(q[c - 1], pid) && c < |q| && q[c - 1].priority != p && q[c].priority == p then 1 else 0
  }

  function Counted(q: seq<Message>, p: nat): nat {
    if q == [] then 0 else Counted(q[..|q| - 1], p) + if q[|q| - 1].priority == p then 1 else 0
  }

  lemma {:induction false} CountedOf(q: seq<Message>, r: nat)
    requires r == 1 || r == 2
    ensures Counted(q, r + 1) == |Of(q, r)|
  {
    if q != [] {
      var last := q[|q| - 1];
      CountedOf(q[..|q| - 1], r);
      assert q == q[..|q| - 1] + [last];
      OfConcat(q[..|q| - 1], [last], r);
      OfOne(last, r);
    }
  }

  /** Clean-up charges the message that moved up instead of the one removed. */
  lemma {:induction false} FoundAgainstRemoved(q: seq<Message>, pid: int, p: nat, c: nat)
    requires c <= |q|
    ensures Found(q, pid, p, c) + Leaving(q, pid, p, c) + Counted(Without(q[..c], pid), p)
         == Counted(q[..c], p) + Entering(q, pid, p, c)
    ensures Found(q, pid, p, c) <= c
    ensures Counted(Without(q[..c], pid), p) <= Counted(q[..c], p) <= c
  {
    hide Without, Counted, Involves;
    if c == 0 {
      CountedNone(q, pid, p);
    } else {
      FoundAgainstRemoved(q, pid, p, c - 1);
      RemovedStep(q, pid, p, c);
    }
  }

  lemma CountedNone(q: seq<Message>, pid: int, p: nat)
    ensures Counted(q[..0], p) == 0 && Counted(Without(q[..0], pid), p) == 0
  {
  }

  lemma RemovedStep(q: seq<Message>, pid: int, p: nat, c: nat)
    requires 0 < c <= |q|
    ensures var one := if q[c - 1].priority == p then 1 else 0;
            && Counted(q[..c], p) == Counted(q[..c - 1], p) + one
            && Counted(Without(q[..c], pid), p) == Counted(Without(q[..c - 1], pid), p) + if Involves(q[c - 1], pid) then 0 else one
  {
    hide Without, Counted, Involves;
    var m := q[c - 1];
    assert q[..c] == q[..c - 1] + [m];
    WithoutAppend(q[..c - 1], m, pid);
    CountedAppend(q[..c - 1], m, p);
    CountedAppend(Without(q[..c - 1], pid), m, p);
  }

  lemma CountedAppend(q: seq<Message>, m: Message, p: nat)
    ensures Counted(q + [m], p) == Counted(q, p) + if m.priority == p then 1 else 0
    ensures q + [] == q
  {
    assert (q + [m])[..|q|] == q;
  }

  lemma MinusExact(total: nat, found: nat, kept: nat)
    requires kept <= total < U32 && found < U32
    ensures Minus(total, found) == kept <==> found == total - kept
  {
  }

  /** One counter after a clean-up is exact exactly when as many removed messages stand right before a
      message of that priority as stand at the end of a stretch of that priority. */
  lemma CleanupCounter(q: seq<Message>, pid: int, p: nat, count: nat)
    requires count == Counted(q, p) && |q| < U32
    ensures Minus(count, Found(q, pid, p, |q|)) == Counted(Without(q, pid), p)
       <==> Leaving(q, pid, p, |q|) == Entering(q, pid, p, |q|)
  {
    hide Minus, Found, Leaving, Entering, Without, Counted;
    FoundAgainstRemoved(q, pid, p, |q|);
    assert q[..|q|] == q;
    MinusExact(count, Found(q, pid, p, |q|), Counted(Without(q, pid), p));
  }

  /** When clean-up keeps the counters exact. */
  lemma CleanupExact(s: State, pid: int)
    requires Exact(s) && |s.q| < U32 && pid > 0
    ensures Exact(AfterCleanup(s, pid))
       <==> forall p | p in {HIGH, URGENT} :: Leaving(s.q, pid, p, |s.q|) == Entering(s.q, pid, p, |s.q|)
  {
    hide Minus, Found, Leaving, Entering, Without, Counted, Of;
    CountedOf(s.q, 1);
    CountedOf(s.q, 2);
    CountedOf(Without(s.q, pid), 1);
    CountedOf(Without(s.q, pid), 2);
    CleanupCounter(s.q, pid, HIGH, s.high);
    CleanupCounter(s.q, pid, URGENT, s.urgent);
  }

  /** The last HIGH message of a terminated task, with a NORMAL one behind it, stays counted. */
  lemma CleanupMiscounts(high: Message, normal: Message, pid: int)
    requires high.priority == HIGH && normal.priority == NORMAL && pid > 0
    requires Involves(high, pid) && !Involves(normal, pid)
    ensures Exact(State([high, normal], 1, 0))
    ensures AfterCleanup(State([high, normal], 1, 0), pid) == State([normal], 1, 0)
    ensures !Exact(State([normal], 1, 0))
  {
    var q := [high, normal];
    assert q[1..] == [normal] && [normal][1..] == [];
    assert Of([normal], 1) == [] && Of([normal], 2) == [];
    assert Without([normal], pid) == [normal];
    assert Found(q, pid, HIGH, 1) == 0 && Found(q, pid, URGENT, 1) == 0;
  }

  // ----- what the queue does not promise -----

  /** Strict priority order over all four levels. */
  ghost predicate StrictlyOrdered(q: seq<Message>) {
    forall i, j | 0 <= i < j < |q| :: q[i].priority >= q[j].priority
  }

  /** A send keeps strict order exactly when the message is HIGH or URGENT, or the last message
      queued has at least its priority. */
  lemma SendStrict(q: seq<Message>, m: Message)
    requires StrictlyOrdered(q)
    ensures StrictlyOrdered(Sent(q, m, false)) <==> (Jumps(m) || q == [] || q[|q| - 1].priority >= m.priority)
  {
    hide Sent;
    var k := Spot(q, m, false);
    var w := InsertAt(q, k, m);
    SentAt(q, m, false);
    if Jumps(m) || q == [] || q[|q| - 1].priority >= m.priority {
      forall i | 0 <= i < k ensures q[i].priority >= m.priority {
        assert i < k - 1 ==> q[i].priority >= q[k - 1].priority;
      }
      forall i, j | 0 <= i < j < |w| ensures w[i].priority >= w[j].priority {
        assert w[i] == if i < k then q[i] else if i == k then m else q[i - 1];
        assert w[j] == if j < k then q[j] else if j == k then m else q[j - 1];
      }
    } else {
      assert w[|q| - 1] == q[|q| - 1] && w[|q|] == m;
    }
  }

  /** LOW then NORMAL: LOW is delivered first. */
  lemma LowBeforeNormal(low: Message, normal: Message)
    requires low.priority == LOW && normal.priority == NORMAL
    ensures Sent(Sent([], low, false), normal, false) == [low, normal]
    ensures !StrictlyOrdered([low, normal])
  {
    var q := [low, normal];
    assert q[0].priority < q[1].priority;
  }
}
