/** Senders and receivers of one four-list queue, interleaved step by step, on semaphores that hand a
    post to the longest waiter. */
module ListProtocol {
  import opened Chains
  import opened Messages
  import opened ListQueue
  import opened WaitQueue
  import opened Semaphores
  import T = Threads

  /** A sender is idle, queued for a free slot, holds a slot, or has stored its message but not
      announced it. A receiver is idle, queued for a message, holds a message token, or has taken its
      message but not returned the slot. A task without a waiter record sleeps outside both queues. */
  datatype Phase = Idle | AwaitsSlot | HasSlot | Unannounced | AwaitsToken | HasToken | Unreturned | Stranded

  /** `lost` counts the slots given up by senders that could not allocate a node. */
  datatype System = System(free: Sem, used: Sem, log: seq<Message>, lost: nat, threads: map<int, Phase>)

  datatype Step =
    | AwaitSlot(who: int, now: nat, listed: bool)
    | TrySlot(who: int)
    | Store(who: int, m: Message, gotNode: bool)
    | Announce(who: int)
    | AwaitToken(who: int, now: nat, listed: bool)
    | TryToken(who: int)
    | Take(who: int)
    | Return(who: int)

  predicate Stands(s: System, who: int, p: Phase) {
    who in s.threads && s.threads[who] == p
  }

  predicate Can(s: System, step: Step) {
    match step
    case AwaitSlot(who, _, _) => Stands(s, who, Idle)
    case TrySlot(who) => Stands(s, who, Idle)
    case Store(who, _, _) => Stands(s, who, HasSlot)
    case Announce(who) => Stands(s, who, Unannounced)
    case AwaitToken(who, _, _) => Stands(s, who, Idle)
    case TryToken(who) => Stands(s, who, Idle)
    case Take(who) => Stands(s, who, HasToken)
    case Return(who) => Stands(s, who, Unreturned)
  }

  function Go(s: System, who: int, p: Phase): System {
    s.(threads := s.threads[who := p])
  }

  /** The task a post is handed to goes on from where it waits. */
  function Handed(s: System, to: seq<int>, p: Phase): System {
    if to == [] then s else Go(s, to[0], p)
  }

  function Waiting(sem: Sem, listed: bool, granted: Phase, queued: Phase): Phase {
    if sem.value > 0 then granted else if listed then queued else Stranded
  }

  function After(s: System, step: Step): System {
    match step
    case AwaitSlot(who, now, listed) =>
      Go(s, who, Waiting(s.free, listed, HasSlot, AwaitsSlot)).(free := AfterWait(s.free, who, now, listed))
    case TrySlot(who) =>
      Go(s, who, if s.free.value > 0 then HasSlot else Idle).(free := AfterTry(s.free))
    case Store(who, m, gotNode) =>
      if gotNode then Go(s, who, Unannounced).(log := s.log + [m])
      else Go(s, who, Idle).(lost := s.lost + 1)
    case Announce(who) =>
      Handed(Go(s, who, Idle), HandedTo(s.used), HasToken).(used := AfterPost(s.used))
    case AwaitToken(who, now, listed) =>
      Go(s, who, Waiting(s.used, listed, HasToken, AwaitsToken)).(used := AfterWait(s.used, who, now, listed))
    case TryToken(who) =>
      Go(s, who, if s.used.value > 0 then HasToken else Idle).(used := AfterTry(s.used))
    case Take(who) =>
      if s.log == [] then Go(s, who, Idle)
      else Go(s, who, Unreturned).(log := Drop(s.log, Turn(s.log)))
    case Return(who) =>
      Handed(Go(s, who, Idle), HandedTo(s.free), HasSlot).(free := AfterPost(s.free))
  }

  /** Slots and messages are all accounted for. */
  ghost predicate Tokens(s: System, max: nat) {
    && s.free.value >= 0 && s.used.value >= 0
    && s.free.value + T.Count(s.threads, HasSlot) + |s.log| + T.Count(s.threads, Unreturned) + s.lost == max
    && s.used.value + T.Count(s.threads, HasToken) + T.Count(s.threads, Unannounced) == |s.log|
  }

  /** The tasks queued at a semaphore are exactly those that stand at `p`, each once, and nobody is
      queued while the semaphore has a token. */
  ghost predicate Queue(sem: Sem, threads: map<int, Phase>, p: Phase) {
    && (sem.value > 0 ==> sem.waiters == [])
    && (forall i, j | 0 <= i < j < |sem.waiters| :: sem.waiters[i].pid != sem.waiters[j].pid)
    && (forall e | e in sem.waiters :: e.pid in threads && threads[e.pid] == p)
    && (forall t | t in threads && threads[t] == p :: exists i :: 0 <= i < |sem.waiters| && sem.waiters[i].pid == t)
  }

  ghost predicate Inv(s: System, max: nat) {
    Tokens(s, max) && Queue(s.free, s.threads, AwaitsSlot) && Queue(s.used, s.threads, AwaitsToken)
  }

  // ----- the queues -----

  /** A task that neither comes to `p` nor leaves it does not matter to the queue. */
  lemma QueueOther(sem: Sem, threads: map<int, Phase>, p: Phase, who: int, to: Phase)
    requires Queue(sem, threads, p) && who in threads && threads[who] != p && to != p
    ensures Queue(sem, threads[who := to], p)
  {
  }

  lemma QueueTry(sem: Sem, threads: map<int, Phase>, p: Phase)
    requires Queue(sem, threads, p)
    ensures Queue(AfterTry(sem), threads, p)
  {
  }

  lemma QueueWait(sem: Sem, threads: map<int, Phase>, p: Phase, who: int, now: nat)
    requires Queue(sem, threads, p) && who in threads && threads[who] != p && sem.value <= 0
    ensures Queue(AfterWait(sem, who, now, true), threads[who := p], p)
  {
    var w, threads' := sem.waiters + [Entry(who, now, 0)], threads[who := p];
    forall t | t in threads' && threads'[t] == p ensures exists i :: 0 <= i < |w| && w[i].pid == t {
      if t == who {
        assert w[|w| - 1].pid == t;
      } else {
        var i :| 0 <= i < |sem.waiters| && sem.waiters[i].pid == t;
        assert w[i].pid == t;
      }
    }
  }

  lemma QueuePost(sem: Sem, threads: map<int, Phase>, p: Phase, to: Phase)
    requires Queue(sem, threads, p) && sem.value < INT32_MAX && to != p
    ensures sem.waiters == [] ==> HandedTo(sem) == [] && Queue(AfterPost(sem), threads, p)
    ensures sem.waiters != [] ==> HandedTo(sem) == [sem.waiters[0].pid] && sem.waiters[0].pid in threads
    ensures sem.waiters != [] ==> Queue(AfterPost(sem), threads[sem.waiters[0].pid := to], p)
  {
    if sem.waiters != [] {
      var w, first := sem.waiters[1..], sem.waiters[0].pid;
      assert sem.waiters[0] in sem.waiters;
      var threads' := threads[first := to];
      forall t | t in threads' && threads'[t] == p ensures exists i :: 0 <= i < |w| && w[i].pid == t {
        var i :| 0 <= i < |sem.waiters| && sem.waiters[i].pid == t;
        assert w[i - 1].pid == t;
      }
    }
  }

  // ----- the tokens -----

  lemma Moves(threads: map<int, Phase>, who: int, to: Phase)
    requires who in threads
    ensures T.Count(threads, threads[who]) > 0
    ensures forall p | p in {HasSlot, Unreturned, HasToken, Unannounced} ::
              T.Count(threads[who := to], p) ==
              T.Count(threads, p) + (if to == p then 1 else 0) - (if threads[who] == p then 1 else 0)
  {
    T.Present(threads, who);
    forall p | p in {HasSlot, Unreturned, HasToken, Unannounced} {
      T.Move(threads, who, to, p);
    }
  }

  lemma WaitKeeps(s: System, step: Step, max: nat)
    requires Inv(s, max) && Can(s, step) && (step.AwaitSlot? || step.TrySlot? || step.AwaitToken? || step.TryToken?)
    ensures Inv(After(s, step), max)
  {
    hide Queue, T.Count;
    var s' := After(s, step);
    var to := s'.threads[step.who];
    Moves(s.threads, step.who, to);
    if step.AwaitSlot? && to == AwaitsSlot {
      QueueWait(s.free, s.threads, AwaitsSlot, step.who, step.now);
    } else {
      QueueOther(s.free, s.threads, AwaitsSlot, step.who, to);
      QueueTry(s.free, s'.threads, AwaitsSlot);
    }
    if step.AwaitToken? && to == AwaitsToken {
      QueueWait(s.used, s.threads, AwaitsToken, step.who, step.now);
    } else {
      QueueOther(s.used, s.threads, AwaitsToken, step.who, to);
      QueueTry(s.used, s'.threads, AwaitsToken);
    }
  }

  lemma SectionKeeps(s: System, step: Step, max: nat)
    requires Inv(s, max) && Can(s, step) && (step.Store? || step.Take?)
    ensures Inv(After(s, step), max)
  {
    hide Queue, T.Count;
    var to := After(s, step).threads[step.who];
    Moves(s.threads, step.who, to);
    QueueOther(s.free, s.threads, AwaitsSlot, step.who, to);
    QueueOther(s.used, s.threads, AwaitsToken, step.who, to);
  }

  lemma AnnounceKeeps(s: System, who: int, max: nat)
    requires Inv(s, max) && Stands(s, who, Unannounced) && max < INT32_MAX
    ensures Inv(After(s, Announce(who)), max)
  {
    hide Queue, T.Count, Turn;
    var ts := s.threads[who := Idle];
    Moves(s.threads, who, Idle);
    QueueOther(s.free, s.threads, AwaitsSlot, who, Idle);
    QueueOther(s.used, s.threads, AwaitsToken, who, Idle);
    QueuePost(s.used, ts, AwaitsToken, HasToken);
    if s.used.waiters != [] {
      var w := s.used.waiters[0].pid;
      QueueFirst(s.used, ts, AwaitsToken);
      Moves(ts, w, HasToken);
      QueueOther(s.free, ts, AwaitsSlot, w, HasToken);
    }
  }

  lemma ReturnKeeps(s: System, who: int, max: nat)
    requires Inv(s, max) && Stands(s, who, Unreturned) && max < INT32_MAX
    ensures Inv(After(s, Return(who)), max)
  {
    hide Queue, T.Count, Turn;
    var ts := s.threads[who := Idle];
    Moves(s.threads, who, Idle);
    QueueOther(s.free, s.threads, AwaitsSlot, who, Idle);
    QueueOther(s.used, s.threads, AwaitsToken, who, Idle);
    QueuePost(s.free, ts, AwaitsSlot, HasSlot);
    if s.free.waiters != [] {
      var w := s.free.waiters[0].pid;
      QueueFirst(s.free, ts, AwaitsSlot);
      Moves(ts, w, HasSlot);
      QueueOther(s.used, ts, AwaitsToken, w, HasSlot);
    }
  }

  lemma QueueFirst(sem: Sem, threads: map<int, Phase>, p: Phase)
    requires Queue(sem, threads, p) && sem.waiters != []
    ensures sem.waiters[0].pid in threads && threads[sem.waiters[0].pid] == p
  {
    assert sem.waiters[0] in sem.waiters;
  }

  lemma StepKeeps(s: System, step: Step, max: nat)
    requires Inv(s, max) && Can(s, step) && max < INT32_MAX
    ensures Inv(After(s, step), max)
  {
    hide Inv, After;
    match step
    case AwaitSlot(_, _, _) => WaitKeeps(s, step, max);
    case TrySlot(_) => WaitKeeps(s, step, max);
    case Store(_, _, _) => SectionKeeps(s, step, max);
    case Announce(who) => AnnounceKeeps(s, who, max);
    case AwaitToken(_, _, _) => WaitKeeps(s, step, max);
    case TryToken(_) => WaitKeeps(s, step, max);
    case Take(_) => SectionKeeps(s, step, max);
    case Return(who) => ReturnKeeps(s, who, max);
  }

  // ----- runs -----

  ghost predicate Starts(s: System, max: nat) {
    && s.free == Sem(max, []) && s.used == Sem(0, []) && s.log == [] && s.lost == 0
    && forall t | t in s.threads :: s.threads[t] == Idle
  }

  /** `create_message_queue` admits capacities from 1 to 1000. */
  ghost predicate Run(ss: seq<System>, steps: seq<Step>, max: nat) {
    && 0 < max <= 1000 && |ss| == |steps| + 1 && Starts(ss[0], max)
    && forall i | 0 <= i < |steps| :: Can(ss[i], steps[i]) && ss[i + 1] == After(ss[i], steps[i])
  }

  lemma StartInv(s: System, max: nat)
    requires Starts(s, max)
    ensures Inv(s, max)
  {
    forall p ensures T.Count(s.threads, p) == 0 <==> forall t | t in s.threads :: s.threads[t] != p {
      T.Absent(s.threads, p);
    }
  }

  lemma {:induction false} RunInv(ss: seq<System>, steps: seq<Step>, max: nat, n: nat)
    requires Run(ss, steps, max) && n < |ss|
    ensures Inv(ss[n], max)
  {
    hide Inv, Can, After;
    if n == 0 {
      StartInv(ss[0], max);
    } else {
      RunInv(ss, steps, max, n - 1);
      StepKeeps(ss[n - 1], steps[n - 1], max);
    }
  }

  /** In every interleaving the queue never holds more than its capacity less the slots lost to failed
      allocations, a receiver with a token finds a message, no post is refused, and nobody is queued for
      what is there to be had. */
  lemma BoundedBuffer(ss: seq<System>, steps: seq<Step>, max: nat, n: nat)
    requires Run(ss, steps, max) && n < |ss|
    ensures |ss[n].log| + ss[n].lost <= max
    ensures forall t | t in ss[n].threads && ss[n].threads[t] == HasToken :: ss[n].log != []
    ensures forall t | t in ss[n].threads && ss[n].threads[t] == HasSlot :: |ss[n].log| + ss[n].lost < max
    ensures ss[n].free.value < INT32_MAX && ss[n].used.value < INT32_MAX
    ensures ss[n].used.value > 0 ==> forall t | t in ss[n].threads :: ss[n].threads[t] != AwaitsToken
    ensures ss[n].free.value > 0 ==> forall t | t in ss[n].threads :: ss[n].threads[t] != AwaitsSlot
  {
    hide Can, After;
    var s := ss[n];
    RunInv(ss, steps, max, n);
    forall t | t in s.threads ensures T.Count(s.threads, s.threads[t]) > 0 {
      T.Present(s.threads, t);
    }
  }
}
