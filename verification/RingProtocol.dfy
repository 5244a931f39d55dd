/** Senders and receivers of one circular queue, interleaved step by step: each semaphore operation and
    each section under the queue's lock is one step. */
module RingProtocol {
  import opened Threads
  import opened Messages
  import opened RingQueue
  import opened RingLaws

  /** A sender is idle, blocked for want of room, has reserved a slot, has stored its message but not
      announced it, or was turned away by a full queue. A receiver is idle, blocked for want of a message,
      has claimed one, has taken it but not returned the slot, or found the queue empty. */
  datatype Phase =
    | Idle
    | AwaitsSpace | Reserved | Unannounced | TurnedAway
    | AwaitsMessage | Claimed | Unreturned | FoundNothing

  datatype System = System(t: Traced, available: int, space: int, threads: map<int, Phase>)

  datatype Step =
    | AwaitSpace(who: int)
    | AwaitMessage(who: int)
    | TimeOut(who: int)
    | Reserve(who: int)
    | Store(who: int, m: Message, urgent: bool)
    | Announce(who: int)
    | GiveBack(who: int)
    | Claim(who: int)
    | Take(who: int)
    | Return(who: int)
    | PutBack(who: int)
    | Sweep(pid: int)

  /** A semaphore with an upper bound. */
  function Post(value: int, max: nat): int {
    if value < max then value + 1 else value
  }

  predicate Stands(s: System, who: int, p: Phase) {
    who in s.threads && s.threads[who] == p
  }

  /** Nobody is in the middle of an operation or blocked in one. */
  predicate Quiet(s: System) {
    forall t | t in s.threads :: s.threads[t] == Idle
  }

  /** Nobody holds a slot or a message; some may be blocked. */
  predicate AtRest(s: System) {
    forall t | t in s.threads :: s.threads[t] in {Idle, AwaitsSpace, AwaitsMessage}
  }

  /** Destroying a semaphore wakes its waiters, and a waiter that is woken goes on as if granted. */
  function Woken(threads: map<int, Phase>): map<int, Phase> {
    map t | t in threads ::
      match threads[t]
      case AwaitsSpace => Reserved
      case AwaitsMessage => Claimed
      case p => p
  }

  /** Clean-up finds nothing to remove. */
  predicate Untouched(s: System, pid: int) {
    |AfterCleanup(s.t.s, pid).q| == |s.t.s.q|
  }

  /** `cleanup_task_messages` destroys the semaphores and sets them up anew when it removed something. */
  function AfterSweep(s: System, pid: int, max: nat): System {
    var t := RingLaws.Do(s.t, Cleanup(pid));
    if Untouched(s, pid) then s.(t := t)
    else s.(t := t, available := |t.s.q|, space := max - |t.s.q|, threads := Woken(s.threads))
  }

  /** A clean-up is run only when it removes nothing or nobody is in the middle of an operation. */
  predicate Can(s: System, step: Step) {
    match step
    case AwaitSpace(who) => Stands(s, who, Idle) && s.space <= 0
    case AwaitMessage(who) => Stands(s, who, Idle) && s.available <= 0
    case TimeOut(who) => Stands(s, who, AwaitsSpace) || Stands(s, who, AwaitsMessage)
    case Reserve(who) => (Stands(s, who, Idle) || Stands(s, who, AwaitsSpace)) && s.space > 0
    case Store(who, _, _) => Stands(s, who, Reserved)
    case Announce(who) => Stands(s, who, Unannounced)
    case GiveBack(who) => Stands(s, who, TurnedAway)
    case Claim(who) => (Stands(s, who, Idle) || Stands(s, who, AwaitsMessage)) && s.available > 0
    case Take(who) => Stands(s, who, Claimed)
    case Return(who) => Stands(s, who, Unreturned)
    case PutBack(who) => Stands(s, who, FoundNothing)
    case Sweep(pid) => Untouched(s, pid) || Quiet(s)
  }

  function Go(s: System, who: int, p: Phase): System {
    s.(threads := s.threads[who := p])
  }

  function After(s: System, step: Step, max: nat): System {
    match step
    case AwaitSpace(who) => Go(s, who, AwaitsSpace)
    case AwaitMessage(who) => Go(s, who, AwaitsMessage)
    case TimeOut(who) => Go(s, who, Idle)
    case Reserve(who) => Go(s, who, Reserved).(space := s.space - 1)
    case Store(who, m, urgent) =>
      if |s.t.s.q| < max then Go(s, who, Unannounced).(t := RingLaws.Do(s.t, Send(m, urgent)))
      else Go(s, who, TurnedAway)
    case Announce(who) => Go(s, who, Idle).(available := Post(s.available, max))
    case GiveBack(who) => Go(s, who, Idle).(space := Post(s.space, max))
    case Claim(who) => Go(s, who, Claimed).(available := s.available - 1)
    case Take(who) =>
      if s.t.s.q != [] then Go(s, who, Unreturned).(t := RingLaws.Do(s.t, Receive))
      else Go(s, who, FoundNothing)
    case Return(who) => Go(s, who, Idle).(space := Post(s.space, max))
    case PutBack(who) => Go(s, who, Idle).(available := Post(s.available, max))
    case Sweep(pid) => AfterSweep(s, pid, max)
  }

  /** Every slot is free, reserved, filled or about to be returned; every message stored is announced,
      claimed or about to be announced. */
  ghost predicate Tokens(s: System, max: nat) {
    && s.space >= 0 && s.available >= 0
    && s.space + Count(s.threads, Reserved) + |s.t.s.q| + Count(s.threads, Unreturned) == max
    && s.available + Count(s.threads, Claimed) + Count(s.threads, Unannounced) == |s.t.s.q|
    && Count(s.threads, TurnedAway) == 0 && Count(s.threads, FoundNothing) == 0
  }

  lemma Moves(s: System, who: int, to: Phase)
    requires who in s.threads
    ensures Count(s.threads, s.threads[who]) > 0
    ensures forall p | p in {Reserved, Unannounced, TurnedAway, Claimed, Unreturned, FoundNothing} ::
              Count(s.threads[who := to], p) ==
              Count(s.threads, p) + (if to == p then 1 else 0) - (if s.threads[who] == p then 1 else 0)
  {
    Present(s.threads, who);
    forall p | p in {Reserved, Unannounced, TurnedAway, Claimed, Unreturned, FoundNothing} {
      Move(s.threads, who, to, p);
    }
  }

  lemma SendSize(t: Traced, m: Message, urgent: bool)
    ensures |RingLaws.Do(t, Send(m, urgent)).s.q| == |t.s.q| + 1
  {
    SentAt(t.s.q, m, urgent);
  }

  lemma SenderTokens(s: System, step: Step, max: nat)
    requires Tokens(s, max) && Can(s, step)
    requires step.Reserve? || step.Store? || step.Announce? || step.GiveBack? || step.AwaitSpace? || step.TimeOut?
    ensures Tokens(After(s, step, max), max)
  {
    hide Count, RingLaws.Do;
    var s' := After(s, step, max);
    Moves(s, step.who, s'.threads[step.who]);
    if step.Store? {
      SendSize(s.t, step.m, step.urgent);
    }
  }

  lemma ReceiverTokens(s: System, step: Step, max: nat)
    requires Tokens(s, max) && Can(s, step)
    requires step.Claim? || step.Take? || step.Return? || step.PutBack? || step.AwaitMessage?
    ensures Tokens(After(s, step, max), max)
  {
    hide Count;
    var s' := After(s, step, max);
    Moves(s, step.who, s'.threads[step.who]);
  }

  lemma WokenCounts(threads: map<int, Phase>)
    ensures Count(Woken(threads), Reserved) == Count(threads, Reserved) + Count(threads, AwaitsSpace)
    ensures Count(Woken(threads), Claimed) == Count(threads, Claimed) + Count(threads, AwaitsMessage)
    ensures forall p | p in {Unannounced, TurnedAway, Unreturned, FoundNothing} :: Count(Woken(threads), p) == Count(threads, p)
  {
    var after := Woken(threads);
    assert At(after, Reserved) == At(threads, Reserved) + At(threads, AwaitsSpace);
    assert At(after, Claimed) == At(threads, Claimed) + At(threads, AwaitsMessage);
    forall p | p in {Unannounced, TurnedAway, Unreturned, FoundNothing} ensures Count(after, p) == Count(threads, p) {
      assert At(after, p) == At(threads, p);
    }
  }

  /** Everybody is idle exactly if nobody is at any other point. */
  lemma QuietCounts(s: System)
    ensures Quiet(s) <==> forall p | p != Idle :: Count(s.threads, p) == 0
  {
    if Quiet(s) {
      forall p | p != Idle ensures Count(s.threads, p) == 0 {
        Absent(s.threads, p);
      }
    } else {
      var t :| t in s.threads && s.threads[t] != Idle;
      Present(s.threads, t);
    }
  }

  /** What clean-up does to the tokens while threads may be in the middle of an operation or blocked:
      they still add up exactly when it removes nothing or nobody is. */
  lemma SweepTokens(s: System, pid: int, max: nat)
    requires Tokens(s, max)
    ensures Tokens(AfterSweep(s, pid, max), max) <==> (Untouched(s, pid) || Quiet(s))
  {
    hide Count, Woken, Quiet;
    CleanupShrinks(s.t.s.q, pid);
    WokenCounts(s.threads);
    QuietCounts(s);
    if !Untouched(s, pid) && forall p | p in {Reserved, Unreturned, AwaitsSpace, Claimed, Unannounced, AwaitsMessage} :: Count(s.threads, p) == 0 {
      forall p | p != Idle ensures Count(s.threads, p) == 0 {
        assert p in {Reserved, Unreturned, AwaitsSpace, Claimed, Unannounced, AwaitsMessage, TurnedAway, FoundNothing};
      }
    }
  }

  /** A full queue of one message, its sender ending, and another sender blocked for want of room: after the
      clean-up there is room for one message and two claims on it. */
  lemma SweepOvercommits(m: Message, who: int, s: System)
    requires Involves(m, 5) && s == System(Traced(State([m], 0, 0), [m]), 1, 0, map[who := AwaitsSpace])
    ensures Tokens(s, 1)
    ensures var s' := AfterSweep(s, 5, 1); s'.space == 1 && s'.threads[who] == Reserved && !Tokens(s', 1)
  {
    forall p ensures Count(s.threads, p) == 0 <==> forall t | t in s.threads :: s.threads[t] != p {
      Absent(s.threads, p);
    }
    assert [m][1..] == [];
    assert Without([], 5) == [] && Without([m], 5) == [];
    SweepTokens(s, 5, 1);
  }

  lemma {:induction false} CleanupShrinks(q: seq<Message>, pid: int)
    ensures |Without(q, pid)| <= |q|
  {
    if q != [] {
      CleanupShrinks(q[1..], pid);
    }
  }

  lemma StepTokens(s: System, step: Step, max: nat)
    requires Tokens(s, max) && Can(s, step)
    ensures Tokens(After(s, step, max), max)
  {
    hide Tokens;
    if step.Sweep? {
      SweepTokens(s, step.pid, max);
    } else if step.Claim? || step.Take? || step.Return? || step.PutBack? || step.AwaitMessage? {
      ReceiverTokens(s, step, max);
    } else {
      SenderTokens(s, step, max);
    }
  }

  // ----- runs -----

  ghost predicate Starts(s: System, max: nat) {
    s.t == Traced(State([], 0, 0), []) && s.available == 0 && s.space == max && Quiet(s)
  }

  ghost predicate Run(ss: seq<System>, steps: seq<Step>, max: nat) {
    && |ss| == |steps| + 1 && Starts(ss[0], max)
    && forall i | 0 <= i < |steps| :: Can(ss[i], steps[i]) && ss[i + 1] == After(ss[i], steps[i], max)
  }

  lemma StartTokens(s: System, max: nat)
    requires Starts(s, max)
    ensures Tokens(s, max)
  {
    forall p ensures Count(s.threads, p) == 0 <==> forall t | t in s.threads :: s.threads[t] != p {
      Absent(s.threads, p);
    }
  }

  /** In every interleaving of any number of senders and receivers the tokens add up. */
  lemma {:induction false} RunTokens(ss: seq<System>, steps: seq<Step>, max: nat, n: nat)
    requires Run(ss, steps, max) && n < |ss|
    ensures Tokens(ss[n], max)
  {
    hide Tokens, Can, After;
    if n == 0 {
      StartTokens(ss[0], max);
    } else {
      RunTokens(ss, steps, max, n - 1);
      StepTokens(ss[n - 1], steps[n - 1], max);
    }
  }

  /** So a sender that holds a slot finds room, a receiver that holds a claim finds a message, no post
      meets the upper bound, and with nothing in flight the two semaphores show size and room. */
  lemma NoSurprises(ss: seq<System>, steps: seq<Step>, max: nat, n: nat)
    requires Run(ss, steps, max) && n < |ss|
    ensures forall t | t in ss[n].threads :: !ss[n].threads[t].TurnedAway? && !ss[n].threads[t].FoundNothing?
    ensures forall t | t in ss[n].threads && ss[n].threads[t] == Reserved :: |ss[n].t.s.q| < max
    ensures forall t | t in ss[n].threads && ss[n].threads[t] == Claimed :: ss[n].t.s.q != []
    ensures forall t | t in ss[n].threads && ss[n].threads[t] == Unannounced :: ss[n].available < max
    ensures forall t | t in ss[n].threads && ss[n].threads[t] == Unreturned :: ss[n].space < max
    ensures AtRest(ss[n]) ==> ss[n].available == |ss[n].t.s.q| && ss[n].space == max - |ss[n].t.s.q|
  {
    hide Run;
    var s := ss[n];
    RunTokens(ss, steps, max, n);
    forall t | t in s.threads ensures Count(s.threads, s.threads[t]) > 0 {
      Present(s.threads, t);
    }
    if AtRest(s) {
      forall p ensures Count(s.threads, p) == 0 <==> forall t | t in s.threads :: s.threads[t] != p {
        Absent(s.threads, p);
      }
    }
  }

  // ----- the tokens and the order together -----

  ghost predicate ProperSends(steps: seq<Step>) {
    forall i | 0 <= i < |steps| && steps[i].Store? :: Proper(steps[i].m, steps[i].urgent)
  }

  lemma StepOrder(s: System, step: Step, max: nat)
    requires Tokens(s, max) && Can(s, step) && Arranged(s.t.s.q, s.t.log)
    requires step.Store? ==> Proper(step.m, step.urgent)
    ensures var s' := After(s, step, max); Arranged(s'.t.s.q, s'.t.log)
  {
    hide Arranged, RingLaws.Do, Tokens, Proper;
    var s' := After(s, step, max);
    if step.Store? && |s.t.s.q| < max {
      StepArranged(s.t, Send(step.m, step.urgent), max);
    } else if step.Take? && s.t.s.q != [] {
      StepArranged(s.t, Receive, max);
    } else if step.Sweep? {
      StepArranged(s.t, Cleanup(step.pid), max);
    }
  }

  /** In every interleaving the queue holds the messages stored and not yet taken: urgent, then high,
      then the rest, the last two in the order in which they were stored. */
  lemma {:induction false} RunOrder(ss: seq<System>, steps: seq<Step>, max: nat, n: nat)
    requires Run(ss, steps, max) && ProperSends(steps) && n < |ss|
    ensures Arranged(ss[n].t.s.q, ss[n].t.log)
  {
    hide Arranged, Tokens, Can, After, Proper;
    if n == 0 {
      StartArranged();
    } else {
      RunOrder(ss, steps, max, n - 1);
      RunTokens(ss, steps, max, n - 1);
      StepOrder(ss[n - 1], steps[n - 1], max);
    }
  }
}
