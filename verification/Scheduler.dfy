/** The scheduler: five ready queues, the blocked and the sleeping queue, and the running task. */
module Scheduler {
  import opened TaskQueues
  import opened Words

  const NORMAL := 2
  const REALTIME := 4
  /** The queues are numbered: the ready queues by priority, then these two. */
  const BLOCKED := 5
  const SLEEPING := 6

  type Spines = s: seq<seq<Task>> | |s| == 7 witness [[], [], [], [], [], [], []]

  /** The ready queue of a priority. */
  function Level(priority: nat): (p: nat)
    ensures p < 5
  {
    if priority > REALTIME then NORMAL else priority
  }

  function StateOf(q: nat): Status {
    if q < 5 then Ready else if q == BLOCKED then Blocked else Sleeping
  }

  // ----- the seven queues as sequences -----

  /** Every queued task is a known one and is on one queue only. */
  ghost predicate Spread(s: Spines, all: set<Task>) {
    && (forall q | 0 <= q < 7 :: Distinct(s[q]) && forall t | t in s[q] :: t in all)
    && (forall p, q | 0 <= p < q < 7 :: forall t | t in s[p] :: t !in s[q])
  }

  ghost predicate Loose(s: Spines, t: Task) {
    forall q | 0 <= q < 7 :: t !in s[q]
  }

  ghost function Put(s: Spines, q: nat, t: Task): Spines
    requires q < 7
  {
    s[q := s[q] + [t]]
  }

  ghost function Pull(s: Spines, q: nat, t: Task): Spines
    requires q < 7
  {
    s[q := Minus(s[q], t)]
  }

  lemma PutSpread(s: Spines, all: set<Task>, q: nat, t: Task)
    requires Spread(s, all) && q < 7 && t in all && Loose(s, t)
    ensures Spread(Put(s, q, t), all) && t in Put(s, q, t)[q]
    ensures forall x | x in all :: Loose(Put(s, q, t), x) <==> Loose(s, x) && x != t
    ensures forall h, x | 0 <= h < 7 && x in Put(s, q, t)[h] :: x in s[h] || (h == q && x == t)
  {
    var s' := Put(s, q, t);
    assert t in s'[q];
    forall x | x in all ensures Loose(s', x) <==> Loose(s, x) && x != t {
      if Loose(s', x) {
        forall h | 0 <= h < 7 ensures x !in s[h] {
          assert x !in s'[h];
        }
      }
    }
  }

  lemma MinusKeeps(spine: seq<Task>, t: Task)
    requires Distinct(spine) && t in spine
    ensures Distinct(Minus(spine, t)) && t !in Minus(spine, t) && |Minus(spine, t)| == |spine| - 1
    ensures forall x | x in spine && x != t :: x in Minus(spine, t)
    ensures forall x | x in Minus(spine, t) :: x in spine
  {
    hide Minus;
    var i := Place(spine, t);
    MinusAt(spine, i);
    var s := spine[..i] + spine[i + 1..];
    forall x | x in spine && x != t ensures x in s {
      var j :| 0 <= j < |spine| && spine[j] == x;
      assert s[if j < i then j else j - 1] == x;
    }
  }

  lemma PullSpread(s: Spines, all: set<Task>, q: nat, t: Task)
    requires Spread(s, all) && q < 7 && t in s[q]
    ensures Spread(Pull(s, q, t), all) && |Pull(s, q, t)[q]| == |s[q]| - 1
    ensures forall x | x in all :: Loose(Pull(s, q, t), x) <==> Loose(s, x) || x == t
    ensures forall h, x | 0 <= h < 7 && x in Pull(s, q, t)[h] :: x in s[h]
  {
    hide Minus;
    MinusKeeps(s[q], t);
    var s' := Pull(s, q, t);
    forall x | x in all ensures Loose(s', x) <==> Loose(s, x) || x == t {
      if Loose(s', x) && x != t {
        forall h | 0 <= h < 7 ensures x !in s[h] {
          assert x !in s'[h];
        }
      }
    }
  }

  lemma PullLoose(s: Spines, q: nat, t: Task)
    requires q < 7 && Loose(s, t)
    ensures Pull(s, q, t) == s
  {
    MinusNone(s[q], t);
  }

  function ReadyTotal(s: Spines): nat
  {
    |s[0]| + |s[1]| + |s[2]| + |s[3]| + |s[4]|
  }

  /** The highest ready queue below `p` with a task on it; 5 if there is none. */
  function Highest(s: Spines, p: nat): (h: nat)
    requires p <= 5
    ensures h < p || h == 5
    ensures h < 5 ==> s[h] != [] && forall k | h < k < p :: s[k] == []
    ensures h == 5 ==> forall k | 0 <= k < p :: s[k] == []
  {
    if p == 0 then 5 else if s[p - 1] != [] then p - 1 else Highest(s, p - 1)
  }

  /** Who runs next: the first task of the highest ready queue, or the idle task. */
  function Pick(s: Spines, idle: Task): Task
  {
    var h := Highest(s, 5);
    if h == 5 then idle else s[h][0]
  }

  ghost function Picked(s: Spines): Spines
  {
    var h := Highest(s, 5);
    if h == 5 then s else s[h := s[h][1..]]
  }

  lemma PickedIsPulled(s: Spines, idle: Task)
    requires Highest(s, 5) < 5
    ensures Picked(s) == Pull(s, Highest(s, 5), Pick(s, idle)) && Pick(s, idle) in s[Highest(s, 5)]
  {
  }

  // ----- the sleepers -----

  /** The tasks whose time has come, or those whose time has not, in order. */
  ghost function Due(spine: seq<Task>, tick: nat, due: bool): seq<Task>
    reads spine`wake
  {
    if spine == [] then []
    else
      var n := |spine| - 1;
      Due(spine[..n], tick, due) + if (tick >= spine[n].wake) == due then [spine[n]] else []
  }

  /** The sweep splits the sleepers into those whose time has come and the rest, losing nobody. */
  lemma {:induction false} DueSplits(spine: seq<Task>, tick: nat)
    ensures multiset(Due(spine, tick, true)) + multiset(Due(spine, tick, false)) == multiset(spine)
    ensures forall t | t in Due(spine, tick, true) :: tick >= t.wake
    ensures forall t | t in Due(spine, tick, false) :: tick < t.wake
  {
    hide Due;
    DueNone(spine, tick);
    if spine != [] {
      var n := |spine| - 1;
      var rest, t := spine[..n], spine[n];
      DueSplits(rest, tick);
      assert spine == rest + [t];
      DueStep(rest, t, tick);
    }
  }

  lemma DueStep(rest: seq<Task>, t: Task, tick: nat)
    ensures Due(rest + [t], tick, tick >= t.wake) == Due(rest, tick, tick >= t.wake) + [t]
    ensures Due(rest + [t], tick, tick < t.wake) == Due(rest, tick, tick < t.wake)
  {
    assert (rest + [t])[..|rest|] == rest;
  }

  /** The tasks of one ready queue. */
  ghost function OfLevel(spine: seq<Task>, p: nat): seq<Task> {
    if spine == [] then []
    else
      var n := |spine| - 1;
      OfLevel(spine[..n], p) + if Level(spine[n].priority) == p then [spine[n]] else []
  }

  /** The queues after the due tasks `woken` were taken off the sleeping queue, `kept` staying there. */
  ghost function Roused(s: Spines, kept: seq<Task>, woken: seq<Task>): Spines
  {
    [s[0] + OfLevel(woken, 0), s[1] + OfLevel(woken, 1), s[2] + OfLevel(woken, 2), s[3] + OfLevel(woken, 3),
     s[4] + OfLevel(woken, 4), s[BLOCKED], kept]
  }

  ghost function NoSpines(): Spines {
    [[], [], [], [], [], [], []]
  }

  lemma RousedNone()
    ensures Roused(NoSpines(), [], []) == NoSpines()
  {
    assert forall q | 0 <= q < 7 :: Roused(NoSpines(), [], [])[q] == [];
  }

  lemma NoneLoose(all: set<Task>)
    ensures Spread(NoSpines(), all) && ReadyTotal(NoSpines()) == 0
    ensures forall t | t in all :: Loose(NoSpines(), t)
  {
  }

  lemma NoneLinked()
    ensures Linked([], null)
  {
  }

  lemma RousedAt(s: Spines, kept: seq<Task>, woken: seq<Task>)
    ensures forall p | 0 <= p < 5 :: Roused(s, kept, woken)[p] == s[p] + OfLevel(woken, p)
    ensures Roused(s, kept, woken)[BLOCKED] == s[BLOCKED] && Roused(s, kept, woken)[SLEEPING] == kept
  {
  }

  lemma RousedMore(s: Spines, kept: seq<Task>, woken: seq<Task>, t: Task)
    ensures Put(Roused(s, kept, woken), Level(t.priority), t) == Roused(s, kept, woken + [t])
  {
    var left, right := Put(Roused(s, kept, woken), Level(t.priority), t), Roused(s, kept, woken + [t]);
    assert (woken + [t])[..|woken|] == woken;
    forall p | 0 <= p < 7 ensures left[p] == right[p] {
      if p < 5 {
        assert s[p] + (OfLevel(woken, p) + [t]) == s[p] + OfLevel(woken, p) + [t];
      }
    }
  }

  lemma RousedOne(s: Spines, kept: seq<Task>, woken: seq<Task>, t: Task, rest: seq<Task>)
    requires t !in kept
    ensures Put(Pull(Roused(s, kept + [t] + rest, woken), SLEEPING, t), Level(t.priority), t) == Roused(s, kept + rest, woken + [t])
  {
    var line := kept + [t] + rest;
    MinusAt(line, |kept|);
    assert line[..|kept|] + line[|kept| + 1..] == kept + rest;
    assert Pull(Roused(s, line, woken), SLEEPING, t) == Roused(s, kept + rest, woken);
    RousedMore(s, kept + rest, woken, t);
  }

  lemma DueNone(spine: seq<Task>, tick: nat)
    ensures spine == [] ==> Due(spine, tick, true) == [] && Due(spine, tick, false) == []
  {
  }

  lemma DueAppend(spine: seq<Task>, c: nat, tick: nat, due: bool)
    requires c < |spine|
    ensures Due(spine[..c + 1], tick, due) == Due(spine[..c], tick, due) + if (tick >= spine[c].wake) == due then [spine[c]] else []
  {
    assert spine[..c + 1][..c] == spine[..c];
  }

  lemma {:induction false} DueSubset(spine: seq<Task>, tick: nat, due: bool)
    ensures forall t | t in Due(spine, tick, due) :: t in spine
  {
    if spine != [] {
      DueSubset(spine[..|spine| - 1], tick, due);
    }
  }

  lemma LooseApart(s: Spines, q: nat, t: Task)
    requires q < 7 && Loose(s, t)
    ensures forall h | 0 <= h < 7 :: t !in s[h]
  {
  }

  lemma SpreadApart(s: Spines, all: set<Task>, q: nat)
    requires Spread(s, all) && q < 7
    ensures forall t | t in s[q] :: t in all
    ensures forall h, t | 0 <= h < 7 && h != q && t in s[h] :: t !in s[q]
  {
  }

  /** State fields agree with the queues. */
  ghost predicate Fit(s: Spines, all: set<Task>)
    reads all`state
  {
    forall q, t | 0 <= q < 7 && t in s[q] && t in all :: t.state == StateOf(q) && (q < 5 ==> Level(t.priority) == q)
  }

  lemma FitPut(s: Spines, all: set<Task>, q: nat, t: Task)
    requires Spread(s, all) && Fit(s, all) && q < 7 && t in all && Loose(s, t)
    requires t.state == StateOf(q) && (q < 5 ==> Level(t.priority) == q)
    ensures Fit(Put(s, q, t), all)
  {
    PutSpread(s, all, q, t);
  }

  lemma FitPull(s: Spines, all: set<Task>, q: nat, t: Task)
    requires Spread(s, all) && Fit(s, all) && q < 7 && t in s[q]
    ensures Fit(Pull(s, q, t), all)
  {
    PullSpread(s, all, q, t);
  }

  lemma FitAt(s: Spines, all: set<Task>, q: nat, t: Task)
    requires Spread(s, all) && Fit(s, all) && q < 7 && t in s[q]
    ensures t in all && t.state == StateOf(q) && !Loose(s, t)
  {
  }

  lemma TotalPut(s: Spines, q: nat, t: Task)
    requires q < 7
    ensures ReadyTotal(Put(s, q, t)) == ReadyTotal(s) + if q < 5 then 1 else 0
    ensures forall h | 0 <= h < 7 :: |Put(s, q, t)[h]| == |s[h]| + if h == q then 1 else 0
  {
  }

  lemma TotalPull(s: Spines, all: set<Task>, q: nat, t: Task)
    requires Spread(s, all) && q < 7 && t in s[q]
    ensures ReadyTotal(s) == ReadyTotal(Pull(s, q, t)) + if q < 5 then 1 else 0
    ensures forall h | 0 <= h < 7 :: |s[h]| == |Pull(s, q, t)[h]| + if h == q then 1 else 0
  {
    hide Minus;
    PullSpread(s, all, q, t);
  }

  /** Choosing the next task. */
  lemma PickedSpread(s: Spines, all: set<Task>, idle: Task)
    requires Spread(s, all) && idle in all && Loose(s, idle)
    ensures Spread(Picked(s), all) && Pick(s, idle) in all && Loose(Picked(s), Pick(s, idle))
    ensures forall x | x in all :: Loose(Picked(s), x) <==> Loose(s, x) || x == Pick(s, idle)
    ensures Picked(s)[BLOCKED] == s[BLOCKED] && Picked(s)[SLEEPING] == s[SLEEPING]
  {
    hide Minus, Highest;
    if Highest(s, 5) < 5 {
      PickedIsPulled(s, idle);
      PullSpread(s, all, Highest(s, 5), Pick(s, idle));
    }
  }

  // ----- who has been ready longest -----

  /** A task of priority `x` is not to run before one of priority `t`; what is above 4 counts as 2. */
  predicate NotBefore(x: nat, t: nat) {
    && (x <= 4 && t <= 4 ==> x <= t)
    && (x > 4 && t <= 4 ==> 2 <= t)
    && (x <= 4 && t > 4 ==> x <= 2)
  }

  /** The ready task at position `k` is next: none is to run before it, and it runs before all that became
      ready earlier. */
  ghost predicate IsNext(ready: seq<Task>, k: nat) {
    && k < |ready|
    && (forall i | 0 <= i < |ready| :: NotBefore(ready[i].priority, ready[k].priority))
    && (forall i | 0 <= i < k :: !NotBefore(ready[k].priority, ready[i].priority))
  }

  ghost predicate Chosen(ready: seq<Task>, idle: Task, t: Task) {
    if ready == [] then t == idle else exists k: nat :: IsNext(ready, k) && ready[k] == t
  }

  /** The ready queues hold the ready tasks, each queue in the order in which they became ready. */
  ghost predicate Lined(ready: seq<Task>, s: Spines) {
    forall p | 0 <= p < 5 :: s[p] == OfLevel(ready, p)
  }

  lemma LinedMore(ready: seq<Task>, s: Spines, t: Task)
    requires Lined(ready, s)
    ensures Lined(ready + [t], Put(s, Level(t.priority), t))
  {
    assert (ready + [t])[..|ready|] == ready;
  }

  lemma PutAtEnd(s: Spines, t: Task)
    ensures var p := if t.priority > 4 then 2 else t.priority; Put(s, Level(t.priority), t) == s[p := s[p] + [t]]
  {
  }

  lemma LinedElsewhere(ready: seq<Task>, s: Spines, q: nat, t: Task)
    requires Lined(ready, s) && 5 <= q < 7
    ensures Lined(ready, Put(s, q, t)) && Lined(ready, Pull(s, q, t))
  {
    hide OfLevel, Minus;
  }

  lemma {:induction false} OfLevelConcat(a: seq<Task>, b: seq<Task>, p: nat)
    ensures OfLevel(a + b, p) == OfLevel(a, p) + OfLevel(b, p)
  {
    if b == [] {
      assert a + b == a;
    } else {
      var n := |b| - 1;
      OfLevelConcat(a, b[..n], p);
      assert (a + b)[..|a + b| - 1] == a + b[..n];
    }
  }

  lemma OfLevelOne(t: Task, p: nat)
    ensures OfLevel([t], p) == if Level(t.priority) == p then [t] else []
  {
    assert [t][..0] == [];
  }

  lemma {:induction false} OfLevelNone(ready: seq<Task>, p: nat)
    ensures OfLevel(ready, p) == [] <==> forall i | 0 <= i < |ready| :: Level(ready[i].priority) != p
  {
    if ready != [] {
      OfLevelNone(ready[..|ready| - 1], p);
    }
  }

  lemma {:induction false} OfLevelIn(ready: seq<Task>, p: nat, t: Task)
    ensures t in OfLevel(ready, p) <==> t in ready && Level(t.priority) == p
  {
    if ready != [] {
      OfLevelIn(ready[..|ready| - 1], p, t);
    }
  }

  /** The first task of a ready queue, among all ready tasks. */
  lemma {:induction false} OfLevelFirst(ready: seq<Task>, p: nat) returns (k: nat)
    requires OfLevel(ready, p) != []
    ensures k < |ready| && ready[k] == OfLevel(ready, p)[0] && Level(ready[k].priority) == p
    ensures forall i | 0 <= i < k :: Level(ready[i].priority) != p
  {
    var n := |ready| - 1;
    if OfLevel(ready[..n], p) != [] {
      k := OfLevelFirst(ready[..n], p);
    } else {
      OfLevelNone(ready[..n], p);
      k := n;
    }
  }

  lemma OfLevelDrop(ready: seq<Task>, k: nat, p: nat)
    requires k < |ready| && forall i | 0 <= i < k :: Level(ready[i].priority) != Level(ready[k].priority)
    ensures Level(ready[k].priority) == p ==> OfLevel(ready, p) != []
    ensures OfLevel(ready[..k] + ready[k + 1..], p) ==
            if Level(ready[k].priority) == p then OfLevel(ready, p)[1..] else OfLevel(ready, p)
  {
    hide Level, OfLevel;
    var a, t, b := ready[..k], ready[k], ready[k + 1..];
    assert ready == a + ([t] + b);
    OfLevelConcat(a, [t] + b, p);
    OfLevelConcat([t], b, p);
    OfLevelConcat(a, b, p);
    OfLevelOne(t, p);
    if Level(t.priority) == p {
      OfLevelNone(a, p);
    }
  }

  /** Taking the first task of the highest ready queue: it is the one to run next. */
  lemma LinedLess(ready: seq<Task>, s: Spines, all: set<Task>, idle: Task)
    requires Lined(ready, s) && Highest(s, 5) < 5
    ensures var t := Pick(s, idle); Chosen(ready, idle, t) && Lined(Minus(ready, t), Picked(s))
  {
    hide Minus, Level, OfLevel;
    var h, t := Highest(s, 5), Pick(s, idle);
    var k := OfLevelFirst(ready, h);
    forall i | 0 <= i < k ensures ready[i] != t {
    }
    MinusAt(ready, k);
    forall p | 0 <= p < 5
      ensures OfLevel(ready[..k] + ready[k + 1..], p) == if p == h then OfLevel(ready, p)[1..] else OfLevel(ready, p)
    {
      OfLevelDrop(ready, k, p);
    }
    NextIs(ready, s, k, h);
  }

  lemma NextIs(ready: seq<Task>, s: Spines, k: nat, h: nat)
    requires Lined(ready, s) && h < 5 && (forall p | h < p < 5 :: s[p] == []) && k < |ready| && Level(ready[k].priority) == h
    requires forall i | 0 <= i < k :: Level(ready[i].priority) != h
    ensures IsNext(ready, k)
  {
    hide OfLevel;
    forall i | 0 <= i < |ready| ensures Level(ready[i].priority) <= h {
      OfLevelNone(ready, Level(ready[i].priority));
    }
  }

  lemma LinedNone(ready: seq<Task>, s: Spines, idle: Task)
    requires Lined(ready, s) && Highest(s, 5) == 5
    ensures Chosen(ready, idle, idle) && ready == [] && Minus(ready, idle) == []
  {
    hide OfLevel, Level;
    if ready != [] {
      OfLevelNone(ready, Level(ready[0].priority));
    }
  }

  class Scheduler {
    const queues: array<Task?>
    const tasks: map<int, Task>
    const idle: Task
    var current: Task
    var tick: nat
    var readyCount: nat
    var blockedCount: nat
    var sleepingCount: nat
    var preemption: bool
    var critical: bool
    ghost var spines: Spines
    /** The ready tasks, in the order in which they became ready. */
    ghost var ready: seq<Task>

    /** The links of the queues. */
    ghost predicate Links()
      reads this`spines, queues, tasks.Values`next, tasks.Values`prev
    {
      && queues.Length == 7 && Spread(spines, tasks.Values)
      && (forall q | 0 <= q < 7 :: Linked(spines[q], queues[q]))
      && (forall t | t in tasks.Values && Loose(spines, t) :: t.next == null && t.prev == null)
    }

    /** Links, state fields and the count of ready tasks agree with the queues. */
    ghost predicate Sound()
      reads this`spines, this`ready, this`readyCount, queues, tasks.Values`next, tasks.Values`prev, tasks.Values`state
    {
      Links() && Fit(spines, tasks.Values) && readyCount == ReadyTotal(spines) && Lined(ready, spines)
    }

    /** Every task is running, on exactly one queue, or the idle task standing by. */
    ghost predicate Placed()
      reads this`spines, this`current, tasks.Values`state
    {
      && idle in tasks.Values && current in tasks.Values
      && Loose(spines, idle) && Loose(spines, current)
      && current.state == Running && (idle.state == Ready || idle.state == Running)
      && (forall t | t in tasks.Values && Loose(spines, t) :: t == current || t == idle)
      && (forall t | t in tasks.Values :: t.pid in tasks && tasks[t.pid] == t)
    }

    ghost predicate Valid()
      reads this, queues, tasks.Values
    {
      && Sound() && Placed()
      && blockedCount == |spines[BLOCKED]| && sleepingCount == |spines[SLEEPING]|
    }

    /** A scheduler with one running task and the others ready, in the given order. */
    constructor (tasks: map<int, Task>, idle: Task, first: Task, work: seq<Task>)
      requires idle in tasks.Values && first in tasks.Values && Distinct(work)
      requires forall t | t in tasks.Values :: (t in work <==> t != idle && t != first) && t.next == null && t.prev == null
      requires forall t | t in work :: t in tasks.Values
      requires forall t | t in tasks.Values :: t.pid in tasks && tasks[t.pid] == t
      requires first.state == Running && (idle.state == Ready || idle.state == Running)
      modifies tasks.Values
      ensures Valid() && fresh(queues) && this.tasks == tasks && this.idle == idle && current == first
      ensures ready == work && forall p | 0 <= p < 5 :: spines[p] == OfLevel(work, p)
    {
      hide Sound, Loose, Roused, Distinct;
      queues := new Task?[7](_ => null);
      this.tasks, this.idle, current := tasks, idle, first;
      tick, readyCount, blockedCount, sleepingCount, preemption, critical := 0, 0, 0, 0, true, false;
      spines, ready := NoSpines(), [];
      new;
      StartSound();
      AddAll(work);
      RousedAt(NoSpines(), [], work);
    }

    /** Put new tasks on the ready queues one after the other. */
    method AddAll(work: seq<Task>)
      requires Sound() && spines == NoSpines() && ready == [] && Distinct(work) && forall t | t in work :: t in tasks.Values
      modifies this`spines, this`ready, this`readyCount, queues, tasks.Values`next, tasks.Values`prev, tasks.Values`state
      ensures Sound() && spines == Roused(NoSpines(), [], work) && ready == work
      ensures forall t | t in tasks.Values :: Loose(spines, t) <==> t !in work
      ensures forall t | t in tasks.Values && t !in work :: t.state == old(t.state)
    {
      hide Sound, Roused, Loose;
      RousedNone();
      NoneLoose(tasks.Values);
      for i := 0 to |work|
        invariant Sound() && spines == Roused(NoSpines(), [], work[..i]) && ready == work[..i]
        invariant forall t | t in tasks.Values :: Loose(spines, t) <==> t !in work[..i]
        invariant forall t | t in tasks.Values && t !in work :: t.state == old(t.state)
      {
        assert work[..i + 1] == work[..i] + [work[i]];
        assert work[i] !in work[..i];
        RousedMore(NoSpines(), [], work[..i], work[i]);
        SoundSpread();
        PutSpread(spines, tasks.Values, Level(work[i].priority), work[i]);
        AddReady(work[i]);
      }
      assert work[..|work|] == work;
    }

    lemma StartSound()
      requires queues.Length == 7 && spines == NoSpines() && ready == [] && readyCount == 0
      requires (forall q | 0 <= q < 7 :: queues[q] == null) && forall t | t in tasks.Values :: t.next == null && t.prev == null
      ensures Sound()
    {
      NoneLoose(tasks.Values);
      NoneLinked();
    }

    lemma SoundSpread()
      requires Sound()
      ensures Spread(spines, tasks.Values)
    {
    }

    /** Add at the end of queue `q`. */
    method AddTo(q: nat, t: Task)
      requires Links() && q < 7 && t in tasks.Values && Loose(spines, t)
      modifies this`spines, queues, tasks.Values`next, tasks.Values`prev
      ensures Links() && spines == Put(old(spines), q, t)
    {
      hide Linked, Spread;
      LooseApart(spines, q, t);
      PutSpread(spines, tasks.Values, q, t);
      SpreadApart(spines, tasks.Values, q);
      var head := Append(spines[q], queues[q], t);
      forall h | 0 <= h < 7 && h != q ensures Linked(spines[h], queues[h]) {
        assert old(Linked(spines[h], queues[h]));
        assert forall x | x in spines[h] :: x !in spines[q] && x != t;
        assert forall x | x in spines[h] :: x.next == old(x.next) && x.prev == old(x.prev);
      }
      queues[q] := head;
      spines := Put(spines, q, t);
    }

    /** Take off queue `q`; a task on no queue is left alone. */
    method RemoveFrom(q: nat, t: Task)
      requires Links() && q < 7 && t in tasks.Values && (t in spines[q] || Loose(spines, t))
      modifies this`spines, queues, tasks.Values`next, tasks.Values`prev
      ensures Links() && spines == Pull(old(spines), q, t)
    {
      hide Linked, Spread, Minus;
      SpreadApart(spines, tasks.Values, q);
      if t in spines[q] {
        PullSpread(spines, tasks.Values, q, t);
      } else {
        LooseApart(spines, q, t);
        PullLoose(spines, q, t);
      }
      var head := Unlink(spines[q], queues[q], t);
      forall h | 0 <= h < 7 && h != q ensures Linked(spines[h], queues[h]) {
        assert old(Linked(spines[h], queues[h]));
        assert forall x | x in spines[h] :: x !in spines[q] && x != t;
        assert forall x | x in spines[h] :: x.next == old(x.next) && x.prev == old(x.prev);
      }
      queues[q] := head;
      spines := Pull(spines, q, t);
    }

    method SetState(ghost s: Spines, t: Task, state: Status)
      requires Fit(s, tasks.Values) && Loose(s, t)
      modifies t`state
      ensures Fit(s, tasks.Values) && t.state == state
    {
      t.state := state;
    }

    /** `add_task_to_ready_queue` */
    method AddReady(t: Task)
      requires Sound() && t in tasks.Values && Loose(spines, t)
      modifies this`spines, this`ready, this`readyCount, queues, tasks.Values`next, tasks.Values`prev, t`state
      ensures Sound() && t.state == Ready && spines == Put(old(spines), Level(t.priority), t) && ready == old(ready) + [t]
      ensures spines == old(spines)[if t.priority > 4 then 2 else t.priority := old(spines)[if t.priority > 4 then 2 else t.priority] + [t]]
    {
      hide Links, Spread, Fit, Put, ReadyTotal, Loose, Lined;
      PutAtEnd(spines, t);
      LinksSpread();
      ghost var s := spines;
      LinedMore(ready, s, t);
      AddTo(Level(t.priority), t);
      SetState(s, t, Ready);
      FitPut(s, tasks.Values, Level(t.priority), t);
      TotalPut(s, Level(t.priority), t);
      ready := ready + [t];
      readyCount := readyCount + 1;
    }

    lemma LinksSpread()
      requires Links()
      ensures queues.Length == 7 && Spread(spines, tasks.Values)
      ensures forall q | 0 <= q < 7 :: queues[q] == At(spines[q], 0)
    {
    }

    /** `get_next_ready_task` */
    method GetNext() returns (t: Task)
      requires Sound() && idle in tasks.Values && Loose(spines, idle)
      modifies this`spines, this`ready, this`readyCount, queues, tasks.Values`next, tasks.Values`prev
      ensures Sound() && t == Pick(old(spines), idle) && spines == Picked(old(spines))
      ensures Chosen(old(ready), idle, t) && ready == Minus(old(ready), t)
    {
      hide Links, Spread, Fit, Pull, ReadyTotal, Loose, Lined, Chosen, Minus;
      LinksSpread();
      for p := 5 downto 0
        invariant Sound() && spines == old(spines) && ready == old(ready) && Highest(spines, 5) == Highest(spines, p)
      {
        LinksSpread();
        var first := queues[p];
        if first != null {
          PickedIsPulled(spines, idle);
          TotalPull(spines, tasks.Values, p, first);
          FitPull(spines, tasks.Values, p, first);
          FitAt(spines, tasks.Values, p, first);
          LinedLess(ready, spines, tasks.Values, idle);
          RemoveFrom(p, first);
          ready := Minus(ready, first);
          readyCount := readyCount - 1;
          return first;
        }
      }
      LinedNone(ready, spines, idle);
      return idle;
    }

    /** `switch_to_task`, without the context switch itself. */
    method SwitchTo(t: Task)
      requires Sound() && t in tasks.Values && Loose(spines, t) && current in tasks.Values
      requires t != current && current.state == Running ==> Loose(spines, current)
      modifies this`spines, this`ready, this`readyCount, this`current, queues
      modifies tasks.Values`next, tasks.Values`prev, tasks.Values`state, tasks.Values`remaining
      ensures Sound() && current == t && forall x | x in tasks.Values && x != t && x != old(current) :: x.state == old(x.state)
      ensures t == old(current) ==> spines == old(spines) && t.state == old(t.state)
      ensures t != old(current) ==> t.state == Running && t.remaining == t.slice
      ensures t != old(current) && old(current.state) != Running ==> spines == old(spines) && old(current).state == old(current.state)
      ensures ready == if t != old(current) && old(current.state) == Running then old(ready) + [old(current)] else old(ready)
      ensures t != old(current) && old(current.state) == Running ==>
                spines == Put(old(spines), Level(old(current).priority), old(current))
    {
      hide Links, Fit, Put, ReadyTotal, Loose;
      if current == t {
        return;
      }
      SetState(spines, t, Running);
      t.remaining := t.slice;
      var before := current;
      current := t;
      if before.state != Terminated {
        if before.state == Running {
          AddReady(before);
        }
      }
    }

    /** `schedule_next_task`, once the running task has been put on another queue. */
    method ScheduleNext()
      requires Sound() && idle in tasks.Values && Loose(spines, idle)
      requires current in tasks.Values && !Loose(spines, current) && current.state != Ready && current.state != Running
      modifies this`spines, this`ready, this`readyCount, this`current, queues
      modifies tasks.Values`next, tasks.Values`prev, tasks.Values`state, tasks.Values`remaining
      ensures Sound() && current == Pick(old(spines), idle) && spines == Picked(old(spines))
      ensures current in tasks.Values && current != old(current) && current.state == Running
      ensures Chosen(old(ready), idle, current) && ready == Minus(old(ready), current)
      ensures forall x | x in tasks.Values && x != current :: x.state == old(x.state)
    {
      hide Sound, Loose, Pick, Picked, Chosen, Minus;
      NotPicked();
      var next := GetNext();
      SwitchTo(next);
    }

    /** A task that is queued but not ready is not chosen. */
    lemma NotPicked()
      requires Sound() && idle in tasks.Values && Loose(spines, idle)
      requires current in tasks.Values && !Loose(spines, current) && current.state != Ready
      ensures Pick(spines, idle) != current && Pick(spines, idle) in tasks.Values
      ensures Loose(Picked(spines), Pick(spines, idle))
    {
      hide Links, Fit, Picked, Spread;
      LinksSpread();
      PickedSpread(spines, tasks.Values, idle);
      var h := Highest(spines, 5);
      if h < 5 {
        FitAt(spines, tasks.Values, h, spines[h][0]);
      }
    }

    /** Going over the ready queues changes nothing for a task that is on none. */
    method RemoveFromReady(t: Task)
      requires Links() && t in tasks.Values && Loose(spines, t)
      modifies this`spines, queues, tasks.Values`next, tasks.Values`prev
      ensures Links() && spines == old(spines)
    {
      hide Links, Loose;
      for i := 0 to 5
        invariant Links() && spines == old(spines)
      {
        PullLoose(spines, i, t);
        RemoveFrom(i, t);
      }
    }

    /** Take the running task to the blocked or the sleeping queue. */
    method Retire(q: nat)
      requires Sound() && current in tasks.Values && Loose(spines, current) && (q == BLOCKED || q == SLEEPING)
      modifies this`spines, queues, tasks.Values`next, tasks.Values`prev, current`state
      ensures Sound() && spines == Put(old(spines), q, current)
      ensures current.state == if q == BLOCKED then Blocked else Sleeping
    {
      hide Links, Loose, Fit, Spread, ReadyTotal, Put, Lined;
      ghost var s := spines;
      LinksSpread();
      SetState(spines, current, StateOf(q));
      RemoveFromReady(current);
      AddTo(q, current);
      FitPut(s, tasks.Values, q, current);
      TotalPut(s, q, current);
      LinedElsewhere(ready, s, q, current);
    }

    /** Put the running task on the blocked or the sleeping queue and run another one. */
    method Leave(q: nat)
      requires Valid() && current != idle && (q == BLOCKED || q == SLEEPING)
      modifies this, queues, tasks.Values`next, tasks.Values`prev, tasks.Values`state, tasks.Values`remaining
      ensures Valid() && tick == old(tick)
      ensures current == Pick(old(spines), idle) && spines == Put(Picked(old(spines)), q, old(current))
      ensures Chosen(old(ready), idle, current) && ready == Minus(old(ready), current)
      ensures old(current).state == if q == BLOCKED then Blocked else Sleeping
    {
      hide Sound, Loose, Pick, Picked, Put, Chosen, Minus;
      SoundSpread();
      LeaveOrder(spines, tasks.Values, q, current, idle);
      Retire(q);
      if q == BLOCKED {
        blockedCount := blockedCount + 1;
      } else {
        sleepingCount := sleepingCount + 1;
      }
      ScheduleNext();
    }

    /** `sleep_task` */
    method Sleep(milliseconds: nat)
      requires Valid()
      modifies this, queues, tasks.Values
      ensures Valid() && tick == old(tick)
      ensures old(current) == idle ==> current == idle && spines == old(spines)
      ensures old(current) != idle ==>
                && current == Pick(old(spines), idle) && spines == Put(Picked(old(spines)), SLEEPING, old(current))
                && Chosen(old(ready), idle, current) && old(current).state == Sleeping
                && old(current).wake == (tick + milliseconds) % U64
      ensures forall t | t in tasks.Values && t != old(current) :: t.wake == old(t.wake)
    {
      hide Sound, Placed, Pick, Picked, Put, Chosen;
      critical := true;
      if current == idle {
        critical := false;
        return;
      }
      CurrentKnown();
      current.wake := (tick + milliseconds) % U64;
      Leave(SLEEPING);
      critical := false;
    }

    lemma CurrentKnown()
      requires Placed()
      ensures current in tasks.Values && idle in tasks.Values
      ensures current.pid in tasks && tasks[current.pid] == current
    {
    }

    /** `block_task`, for the running task; an unknown task or the idle task is left alone. */
    method Block(pid: int)
      requires Valid() && (pid in tasks ==> tasks[pid] == current || tasks[pid] == idle)
      modifies this, queues, tasks.Values`next, tasks.Values`prev, tasks.Values`state, tasks.Values`remaining
      ensures Valid() && tick == old(tick)
      ensures pid !in tasks || tasks[pid] == idle ==> current == old(current) && spines == old(spines)
      ensures pid in tasks && tasks[pid] != idle ==>
                && current == Pick(old(spines), idle) && spines == Put(Picked(old(spines)), BLOCKED, old(current))
                && Chosen(old(ready), idle, current) && old(current).state == Blocked
    {
      hide Sound, Placed, Pick, Picked, Put, Chosen;
      critical := true;
      if pid !in tasks || tasks[pid] == idle {
        critical := false;
        return;
      }
      Leave(BLOCKED);
      critical := false;
    }

    /** Move a task from the blocked or the sleeping queue to the ready queues. */
    method Rouse(q: nat, t: Task)
      requires Sound() && (q == BLOCKED || q == SLEEPING) && t in spines[q]
      modifies this`spines, this`ready, this`readyCount, queues, tasks.Values`next, tasks.Values`prev, tasks.Values`state
      ensures Sound() && spines == Put(Pull(old(spines), q, t), Level(t.priority), t) && ready == old(ready) + [t]
      ensures forall x | x in tasks.Values :: Loose(spines, x) <==> Loose(old(spines), x)
      ensures forall x | x in tasks.Values && Loose(spines, x) :: x.state == old(x.state)
      ensures forall h | 5 <= h < 7 :: |spines[h]| == |old(spines)[h]| - if h == q then 1 else 0
    {
      hide Links, Loose, Fit, Spread, ReadyTotal, Put, Pull, Lined;
      LinksSpread();
      FitAt(spines, tasks.Values, q, t);
      FitPull(spines, tasks.Values, q, t);
      TotalPull(spines, tasks.Values, q, t);
      PullSpread(spines, tasks.Values, q, t);
      LinedElsewhere(ready, spines, q, t);
      RemoveFrom(q, t);
      TotalPut(spines, Level(t.priority), t);
      PutSpread(spines, tasks.Values, Level(t.priority), t);
      AddReady(t);
    }

    /** Who is ready, by the state fields. */
    lemma ReadyAre()
      requires Valid()
      ensures forall t | t in tasks.Values && t != idle :: t in ready <==> t.state == Ready
    {
      hide Links, Fit, ReadyTotal, Spread, OfLevel, Level;
      LinksSpread();
      forall t | t in tasks.Values && t != idle ensures t in ready <==> t.state == Ready {
        OfLevelIn(ready, Level(t.priority), t);
        if t in ready {
          FitAt(spines, tasks.Values, Level(t.priority), t);
        } else if t.state == Ready {
          var h :| 0 <= h < 7 && t in spines[h];
          FitAt(spines, tasks.Values, h, t);
          OfLevelIn(ready, h, t);
        }
      }
    }

    /** A task whose state says so is on that queue. */
    lemma OnQueue(q: nat, t: Task)
      requires Sound() && Placed() && (q == BLOCKED || q == SLEEPING) && t in tasks.Values
      ensures t.state == StateOf(q) <==> t in spines[q]
    {
      hide Links, Fit, ReadyTotal, Spread;
      LinksSpread();
      if t in spines[q] {
        FitAt(spines, tasks.Values, q, t);
      }
      if t.state == StateOf(q) {
        var h :| 0 <= h < 7 && t in spines[h];
        FitAt(spines, tasks.Values, h, t);
      }
    }

    /** `wake_task` and `unblock_task` */
    method Resume(pid: int, q: nat)
      requires Valid() && (q == BLOCKED || q == SLEEPING)
      modifies this, queues, tasks.Values`next, tasks.Values`prev, tasks.Values`state
      ensures Valid() && current == old(current) && tick == old(tick)
      ensures spines == if pid in tasks && tasks[pid] in old(spines)[q]
                        then Put(Pull(old(spines), q, tasks[pid]), Level(tasks[pid].priority), tasks[pid])
                        else old(spines)
      ensures ready == if pid in tasks && tasks[pid] in old(spines)[q] then old(ready) + [tasks[pid]] else old(ready)
    {
      hide Sound, Loose, Put, Pull;
      critical := true;
      if pid in tasks {
        OnQueue(q, tasks[pid]);
        if tasks[pid].state == StateOf(q) {
          Rouse(q, tasks[pid]);
          if q == BLOCKED {
            blockedCount := blockedCount - 1;
          } else {
            sleepingCount := sleepingCount - 1;
          }
        }
      }
      critical := false;
    }

    /** `check_sleeping_tasks` */
    method CheckSleeping()
      requires Valid()
      modifies this`spines, this`ready, this`readyCount, this`sleepingCount, queues
      modifies tasks.Values`next, tasks.Values`prev, tasks.Values`state
      ensures Valid()
      ensures spines == Roused(old(spines), Due(old(spines)[SLEEPING], tick, false), Due(old(spines)[SLEEPING], tick, true))
      ensures ready == old(ready) + Due(old(spines)[SLEEPING], tick, true)
    {
      hide Sound, Loose, Put, Pull, Roused, Due, Placed;
      ghost var s, line, c := spines, spines[SLEEPING], 0;
      SleepersKnown();
      SweepStart(s, tick);
      DueNone(line[..0], tick);
      var task := queues[SLEEPING];
      while task != null
        invariant 0 <= c <= |line| && task == At(line, c) && Valid()
        invariant spines == Roused(s, Due(line[..c], tick, false) + line[c..], Due(line[..c], tick, true))
        invariant ready == old(ready) + Due(line[..c], tick, true)
        decreases |line| - c
      {
        SleeperNext(s, line, c);
        var next := task.next;
        SweepStep(s, line, c, tick);
        DueAppend(line, c, tick, true);
        if tick >= task.wake {
          PlacedRoused(SLEEPING, task);
        }
        task, c := next, c + 1;
      }
      assert line[..c] == line && line[c..] == [];
      assert Due(line, tick, false) + [] == Due(line, tick, false);
    }

    /** Rouse a sleeper and keep the rest of the scheduler in order. */
    method PlacedRoused(q: nat, t: Task)
      requires Valid() && q == SLEEPING && t in spines[q]
      modifies this`spines, this`ready, this`readyCount, this`sleepingCount, queues
      modifies tasks.Values`next, tasks.Values`prev, tasks.Values`state
      ensures Valid() && spines == Put(Pull(old(spines), q, t), Level(t.priority), t) && ready == old(ready) + [t]
    {
      hide Sound, Loose, Put, Pull;
      Rouse(q, t);
      sleepingCount := sleepingCount - 1;
    }

    lemma SleepersKnown()
      requires Sound()
      ensures queues.Length == 7 && queues[SLEEPING] == At(spines[SLEEPING], 0)
      ensures Distinct(spines[SLEEPING]) && forall t | t in spines[SLEEPING] :: t in tasks.Values
    {
    }

    lemma SleeperNext(s: Spines, line: seq<Task>, c: nat)
      requires Sound() && c < |line|
      requires spines == Roused(s, Due(line[..c], tick, false) + line[c..], Due(line[..c], tick, true))
      ensures line[c].next == At(line, c + 1) && line[c] in spines[SLEEPING]
    {
      hide Roused, Due, Spread, Fit;
      var kept := Due(line[..c], tick, false);
      RousedAt(s, kept + line[c..], Due(line[..c], tick, true));
      var now := spines[SLEEPING];
      assert now == kept + line[c..];
      assert now[|kept|] == line[c];
      LinkedNext(now, queues[SLEEPING], |kept|);
      assert At(now, |kept| + 1) == At(line, c + 1);
    }

    /** `schedule`: the flag that guards against re-entry is the one it has just set itself. */
    method Schedule()
      requires Valid()
      modifies this`critical
      ensures Valid() && !critical
    {
      hide Sound, Placed;
      critical := true;
      if critical {
        critical := false;
        return;
      }
      assert false;
    }

    /** `timer_tick_handler` */
    method Tick()
      requires Valid()
      modifies this, queues
      modifies tasks.Values`next, tasks.Values`prev, tasks.Values`state, current`total, current`remaining
      ensures Valid() && current == old(current) && tick == (old(tick) + 1) % U64 && preemption == old(preemption)
      ensures spines == Roused(old(spines), Due(old(spines)[SLEEPING], tick, false), Due(old(spines)[SLEEPING], tick, true))
      ensures ready == old(ready) + Due(old(spines)[SLEEPING], tick, true)
      ensures current.total == old(current.total) + if preemption && current != idle then 1 else 0
      ensures current.remaining == old(current.remaining) - if preemption && current != idle && old(current.remaining) > 0 then 1 else 0
    {
      hide Sound, Roused, Placed, Due;
      CurrentRuns();
      tick := (tick + 1) % U64;
      if sleepingCount > 0 {
        CheckSleeping();
      } else {
        NoSleepers(spines, tick);
        DueNone(spines[SLEEPING], tick);
      }
      Charge();
    }

    /** Charge the tick to the running task. */
    method Charge()
      requires Valid()
      modifies this`critical, current`total, current`remaining
      ensures Valid()
      ensures current.total == old(current.total) + if preemption && current != idle then 1 else 0
      ensures current.remaining == old(current.remaining) - if preemption && current != idle && old(current.remaining) > 0 then 1 else 0
    {
      hide Sound, Placed;
      if !preemption {
        return;
      }
      CurrentRuns();
      if current != idle && current.state == Running {
        current.total := current.total + 1;
        if current.remaining > 0 {
          current.remaining := current.remaining - 1;
        }
        if current.remaining == 0 {
          Schedule();
        }
      }
    }

    lemma CurrentRuns()
      requires Placed()
      ensures current in tasks.Values && current.state == Running
    {
    }

    /** Any sequence of calls, made by whichever task is running or by an interrupt: every task stays in
        exactly one place, and once the idle task runs it runs for ever, while the ready queues only grow. */
    method Drive(ops: seq<Op>)
      requires Valid()
      modifies this, queues, tasks.Values
      ensures Valid()
      ensures old(current) == idle ==> current == idle && Waits(old(spines), spines)
    {
      hide Sound, Placed, Put, Picked, Pick, Roused, Pull, Waits;
      WaitsStill(spines);
      for i := 0 to |ops|
        invariant Valid() && (old(current) == idle ==> current == idle && Waits(old(spines), spines))
      {
        ghost var before := spines;
        WaitsStill(spines);
        match ops[i] {
        case Sleep(milliseconds) =>
          Sleep(milliseconds);
        case BlockSelf =>
          CurrentKnown();
          Block(current.pid);
        case Wake(pid) =>
          Resume(pid, SLEEPING);
          WaitsResume(before, SLEEPING, if pid in tasks then tasks[pid] else idle);
        case Unblock(pid) =>
          Resume(pid, BLOCKED);
          WaitsResume(before, BLOCKED, if pid in tasks then tasks[pid] else idle);
        case Tick =>
          CurrentRuns();
          Tick();
          WaitsRoused(before, Due(before[SLEEPING], tick, false), Due(before[SLEEPING], tick, true));
        case Yield =>
          Schedule();
        }
        if old(current) == idle {
          WaitsOn(old(spines), before, spines);
        }
      }
    }
  }

  datatype Op = Sleep(milliseconds: nat) | BlockSelf | Wake(pid: int) | Unblock(pid: int) | Tick | Yield

  /** Ready tasks keep their places. */
  ghost predicate Waits(s: Spines, s': Spines) {
    forall p | 0 <= p < 5 :: s[p] <= s'[p]
  }

  lemma WaitsStill(s: Spines)
    ensures Waits(s, s)
  {
  }

  lemma WaitsOn(s: Spines, s': Spines, s'': Spines)
    requires Waits(s, s') && Waits(s', s'')
    ensures Waits(s, s'')
  {
    forall p | 0 <= p < 5 ensures s[p] <= s''[p] {
      assert s[p] <= s'[p] <= s''[p];
    }
  }

  lemma WaitsResume(s: Spines, q: nat, t: Task)
    requires 5 <= q < 7
    ensures Waits(s, Put(Pull(s, q, t), Level(t.priority), t))
  {
  }

  lemma WaitsRoused(s: Spines, kept: seq<Task>, woken: seq<Task>)
    ensures Waits(s, Roused(s, kept, woken))
  {
    RousedAt(s, kept, woken);
  }

  lemma NoSleepers(s: Spines, tick: nat)
    requires s[SLEEPING] == []
    ensures s == Roused(s, Due(s[SLEEPING], tick, false), Due(s[SLEEPING], tick, true))
  {
    SweepStart(s, tick);
    assert s[SLEEPING][..0] == s[SLEEPING] && [] + s[SLEEPING][0..] == [];
  }

  lemma SweepStart(s: Spines, tick: nat)
    ensures var line := s[SLEEPING]; s == Roused(s, Due(line[..0], tick, false) + line[0..], Due(line[..0], tick, true))
  {
    var line := s[SLEEPING];
    assert line[..0] == [] && [] + line[0..] == line;
    RousedAt(s, line, []);
    assert forall p | 0 <= p < 7 :: Roused(s, line, [])[p] == s[p];
  }

  /** The sweep goes past one sleeper. */
  lemma SweepStep(s: Spines, line: seq<Task>, c: nat, tick: nat)
    requires c < |line| && Distinct(line)
    ensures var t := line[c];
            var s' := Roused(s, Due(line[..c], tick, false) + line[c..], Due(line[..c], tick, true));
            Roused(s, Due(line[..c + 1], tick, false) + line[c + 1..], Due(line[..c + 1], tick, true)) ==
            if tick >= t.wake then Put(Pull(s', SLEEPING, t), Level(t.priority), t) else s'
  {
    hide Roused, Put, Pull, Due;
    var kept, woken, t, rest := Due(line[..c], tick, false), Due(line[..c], tick, true), line[c], line[c + 1..];
    DueAppend(line, c, tick, false);
    DueAppend(line, c, tick, true);
    assert kept + line[c..] == kept + [t] + rest;
    assert kept + [] == kept && woken + [] == woken;
    if tick >= t.wake {
      DueSubset(line[..c], tick, false);
      assert t !in line[..c];
      RousedOne(s, kept, woken, t, rest);
    }
  }

  /** Joining the blocked or the sleeping queue does not change who is next. */
  lemma LeaveOrder(s: Spines, all: set<Task>, q: nat, task: Task, idle: Task)
    requires Spread(s, all) && idle in all && task in all && Loose(s, idle) && Loose(s, task) && task != idle && 5 <= q < 7
    ensures Loose(Put(s, q, task), idle) && !Loose(Put(s, q, task), task)
    ensures Pick(Put(s, q, task), idle) == Pick(s, idle) && Picked(Put(s, q, task)) == Put(Picked(s), q, task)
    ensures forall x | x in all :: Loose(Put(Picked(s), q, task), x) <==> (Loose(s, x) && x != task) || x == Pick(s, idle)
    ensures Pick(s, idle) in all
    ensures forall h | 5 <= h < 7 :: |Put(Picked(s), q, task)[h]| == |s[h]| + if h == q then 1 else 0
  {
    hide Spread, Loose;
    PutSpread(s, all, q, task);
    HighestPut(s, q, task, 5);
    PickedSpread(Put(s, q, task), all, idle);
  }

  lemma {:induction false} HighestPut(s: Spines, q: nat, task: Task, p: nat)
    requires 5 <= q < 7 && p <= 5
    ensures Highest(Put(s, q, task), p) == Highest(s, p)
  {
    if p > 0 {
      HighestPut(s, q, task, p - 1);
    }
  }
}
