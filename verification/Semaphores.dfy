/** Counting semaphores that hand a post straight to the longest waiter. */
module Semaphores {
  import opened WaitQueue

  const INT32_MAX := 0x7FFF_FFFF

  /** The value and the waiting tasks in order. */
  datatype Sem = Sem(value: int, waiters: seq<Entry>)

  datatype Outcome = Granted | Queued | Unqueued

  // ----- the operations on values -----

  /** `semaphore_trywait` */
  function AfterTry(s: Sem): Sem {
    if s.value > 0 then s.(value := s.value - 1) else s
  }

  /** `semaphore_wait`; `listed` says that a waiter record could be allocated. */
  function AfterWait(s: Sem, pid: int, now: nat, listed: bool): Sem {
    if s.value > 0 then AfterTry(s)
    else if listed then s.(waiters := s.waiters + [Entry(pid, now, 0)])
    else s
  }

  /** `semaphore_post` */
  function AfterPost(s: Sem): Sem {
    if s.value == INT32_MAX then s
    else if s.waiters != [] then s.(waiters := s.waiters[1..])
    else s.(value := s.value + 1)
  }

  /** The task a post unblocks. */
  function HandedTo(s: Sem): seq<int> {
    if s.value == INT32_MAX || s.waiters == [] then [] else [s.waiters[0].pid]
  }

  /** The unsigned initial value is stored in a signed field. */
  function Signed(x: nat): int
    requires x < 0x1_0000_0000
  {
    if x <= INT32_MAX then x else x - 0x1_0000_0000
  }

  lemma WakeOne(q: seq<Entry>)
    requires q != []
    ensures Woken(q, 1) == 1 && Pids(q[..1]) == [q[0].pid]
  {
  }

  class Semaphore {
    var value: int
    const waiters: Waiters

    ghost predicate Valid()
      reads this, waiters, waiters.spine
    {
      waiters.Valid()
    }

    ghost function Now(): Sem
      reads this, waiters
    {
      Sem(value, waiters.Contents())
    }

    /** `create_semaphore` */
    constructor (initial: nat)
      requires initial < 0x1_0000_0000
      ensures Valid() && fresh(waiters) && Now() == Sem(Signed(initial), [])
    {
      value := Signed(initial);
      waiters := new Waiters();
    }

    method Wait(pid: int, now: nat) returns (r: Outcome)
      requires Valid()
      modifies this, waiters, waiters.spine
      ensures Valid() && Now() == AfterWait(old(Now()), pid, now, r.Queued?)
      ensures r.Granted? <==> old(value) > 0
      ensures forall n | n in waiters.spine :: n in old(waiters.spine) || fresh(n)
    {
      if value > 0 {
        value := value - 1;
        return Granted;
      }
      var ok := waiters.Add(Entry(pid, now, 0));
      return if ok then Queued else Unqueued;
    }

    method TryWait() returns (ok: bool)
      modifies this
      ensures ok == (old(value) > 0) && Now() == AfterTry(old(Now()))
    {
      if value > 0 {
        value := value - 1;
        return true;
      }
      return false;
    }

    method Post() returns (ok: bool, woken: seq<int>)
      requires Valid()
      modifies this, waiters, waiters.spine
      ensures Valid() && ok == (old(value) != 0x7FFF_FFFF)
      ensures Now() == AfterPost(old(Now())) && woken == HandedTo(old(Now()))
      ensures forall n | n in waiters.spine :: n in old(waiters.spine)
    {
      hide Woken, Pids;
      if value == INT32_MAX {
        return false, [];
      }
      if waiters.count > 0 {
        WakeOne(waiters.Contents());
        woken := waiters.Wake(1);
      } else {
        woken := [];
        value := value + 1;
      }
      ok := true;
    }
  }

  // ----- runs -----

  datatype Op = Wait(pid: int, now: nat, listed: bool) | TryWait | Post | Sweep(now: nat)

  /** The semaphore and what has happened so far: grants on the spot, successful posts, the tasks that
      were put in the queue and the tasks a post was handed to. */
  datatype Traced = Traced(s: Sem, granted: nat, posts: nat, queued: seq<int>, handed: seq<int>)

  function Do(t: Traced, op: Op): Traced {
    match op
    case Wait(pid, now, listed) =>
      t.(s := AfterWait(t.s, pid, now, listed),
         granted := if t.s.value > 0 then t.granted + 1 else t.granted,
         queued := if t.s.value <= 0 && listed then t.queued + [pid] else t.queued)
    case TryWait =>
      t.(s := AfterTry(t.s), granted := if t.s.value > 0 then t.granted + 1 else t.granted)
    case Post =>
      t.(s := AfterPost(t.s), posts := if t.s.value == INT32_MAX then t.posts else t.posts + 1,
         handed := t.handed + HandedTo(t.s))
    case Sweep(now) =>
      t.(s := t.s.(waiters := Select(t.s.waiters, now, false)))
  }

  ghost predicate Run(ts: seq<Traced>, ops: seq<Op>, initial: int) {
    && |ts| == |ops| + 1 && ts[0] == Traced(Sem(initial, []), 0, 0, [], [])
    && forall i | 0 <= i < |ops| :: ts[i + 1] == Do(ts[i], ops[i])
  }

  /** Every token is accounted for, nobody waits while the value is positive, and hand-offs follow the
      order of arrival. */
  ghost predicate Conserved(t: Traced, initial: int) {
    && t.s.value + t.granted + |t.handed| == initial + t.posts
    && t.s.value <= INT32_MAX && (t.s.value > 0 ==> t.s.waiters == [])
    && t.handed + Pids(t.s.waiters) == t.queued
    && forall e | e in t.s.waiters :: e.timeout == 0
  }

  lemma PostConserves(t: Traced, initial: int)
    requires Conserved(t, initial)
    ensures Conserved(Do(t, Post), initial)
  {
    var w := t.s.waiters;
    if t.s.value != INT32_MAX && w != [] {
      assert Pids(w) == [w[0].pid] + Pids(w[1..]);
      assert t.handed + Pids(w) == t.handed + [w[0].pid] + Pids(w[1..]);
    } else {
      assert t.handed + [] == t.handed;
    }
  }

  lemma StepConserves(t: Traced, op: Op, initial: int)
    requires Conserved(t, initial)
    ensures Conserved(Do(t, op), initial)
  {
    match op
    case Wait(pid, now, listed) => PidsAppend(t.s.waiters, Entry(pid, now, 0));
    case TryWait =>
    case Post => PostConserves(t, initial);
    case Sweep(now) => NoLimitNoSweep(t.s.waiters, now);
  }

  /** In every run from any representable initial value, with or without waiter records to be had. */
  lemma {:induction false} RunConserves(ts: seq<Traced>, ops: seq<Op>, initial: int, n: nat)
    requires Run(ts, ops, initial) && n < |ts| && initial <= INT32_MAX
    ensures Conserved(ts[n], initial)
  {
    if n > 0 {
      RunConserves(ts, ops, initial, n - 1);
      StepConserves(ts[n - 1], ops[n - 1], initial);
    }
  }

  /** Waits alone, from an initial value that fits a signed 32-bit field: as many are granted as the value
      says, and the first to queue comes after them.  A value that does not fit grants none. */
  lemma {:induction false} InitialGrants(ts: seq<Traced>, ops: seq<Op>, initial: nat, n: nat)
    requires initial < 0x1_0000_0000 && Run(ts, ops, Signed(initial)) && n < |ts|
    requires forall i | 0 <= i < |ops| :: ops[i].Wait?
    ensures initial <= 0x7FFF_FFFF ==> ts[n].granted == if n <= initial then n else initial
    ensures initial <= 0x7FFF_FFFF && n <= initial ==> ts[n].queued == [] && ts[n].s.value == initial - n
    ensures initial > 0x7FFF_FFFF || n > initial ==> ts[n].s.value <= 0
    ensures initial > 0x7FFF_FFFF ==> ts[n].granted == 0
  {
    if n > 0 {
      InitialGrants(ts, ops, initial, n - 1);
      assert ts[n] == Do(ts[n - 1], ops[n - 1]);
    }
  }

  /** The timeout sweep never touches a semaphore. */
  lemma SweepDoesNothing(ts: seq<Traced>, ops: seq<Op>, initial: int, n: nat)
    requires Run(ts, ops, initial) && n < |ops| && initial <= INT32_MAX && ops[n].Sweep?
    ensures ts[n + 1] == ts[n] && Select(ts[n].s.waiters, ops[n].now, true) == []
  {
    RunConserves(ts, ops, initial, n);
    NoLimitNoSweep(ts[n].s.waiters, ops[n].now);
  }
}
