/** Wait queues: lists of blocked tasks, woken in order of arrival or when their time is up. */
module WaitQueue {
  import opened Chains
  import opened Words

  /** A waiting task: since which tick, and for how many ticks (0: for ever). */
  datatype Entry = Entry(pid: int, start: nat, timeout: nat)

  // ----- the queue as a sequence -----

  function Pids(q: seq<Entry>): (r: seq<int>)
    ensures |r| == |q| && forall i | 0 <= i < |q| :: r[i] == q[i].pid
  {
    seq(|q|, i requires 0 <= i < |q| => q[i].pid)
  }

  /** The sequence without its first entry for `pid`. */
  function RemoveFirst(q: seq<Entry>, pid: int): seq<Entry> {
    if q == [] then [] else if q[0].pid == pid then q[1..] else [q[0]] + RemoveFirst(q[1..], pid)
  }

  /** Time is up; tick counts are 64-bit and may wrap. */
  predicate Expired(e: Entry, now: nat) {
    e.timeout > 0 && (now - e.start) % U64 >= e.timeout
  }

  /** On the 64-bit clock: `elapsed` ticks after it began to wait, an entry is expired if it has a limit and
      that many ticks or fewer were allowed. */
  lemma ExpiredAfter(e: Entry, elapsed: nat)
    requires e.start < 0x1_0000_0000_0000_0000 && elapsed < 0x1_0000_0000_0000_0000
    ensures Expired(e, (e.start + elapsed) % 0x1_0000_0000_0000_0000) <==> 0 < e.timeout <= elapsed
  {
    if e.start + elapsed >= U64 {
      assert (e.start + elapsed) % U64 == e.start + elapsed - U64;
      assert (elapsed - U64) % U64 == elapsed;
    } else {
      assert (e.start + elapsed) % U64 == e.start + elapsed;
    }
  }

  /** The entries that are expired, or those that are not, in order. */
  function Select(q: seq<Entry>, now: nat, expired: bool): seq<Entry> {
    if q == [] then []
    else Select(q[..|q| - 1], now, expired) + if Expired(q[|q| - 1], now) == expired then [q[|q| - 1]] else []
  }

  /** How many a wake-up of `n` takes; 0 means all. */
  function Woken(q: seq<Entry>, n: nat): (k: nat)
    ensures k <= |q|
    ensures n == 0 ==> k == |q|
    ensures 0 < n <= |q| ==> k == n
    ensures |q| < n ==> k == |q|
  {
    if n == 0 || |q| < n then |q| else n
  }

  lemma {:induction false} RemoveFirstAt(q: seq<Entry>, pid: int, i: nat)
    requires i < |q| && q[i].pid == pid && forall j | 0 <= j < i :: q[j].pid != pid
    ensures RemoveFirst(q, pid) == Drop(q, i)
  {
    if i > 0 {
      RemoveFirstAt(q[1..], pid, i - 1);
      assert Drop(q, i) == [q[0]] + Drop(q[1..], i - 1);
    } else {
      assert Drop(q, 0) == q[1..];
    }
  }

  lemma {:induction false} RemoveFirstNone(q: seq<Entry>, pid: int)
    requires forall j | 0 <= j < |q| :: q[j].pid != pid
    ensures RemoveFirst(q, pid) == q
  {
    if q != [] {
      RemoveFirstNone(q[1..], pid);
    }
  }

  lemma SelectAppend(q: seq<Entry>, e: Entry, now: nat, expired: bool)
    ensures Select(q + [e], now, expired) == Select(q, now, expired) + if Expired(e, now) == expired then [e] else []
  {
    assert (q + [e])[..|q|] == q;
  }

  /** The sweep loses no waiter and makes none up. */
  lemma {:induction false} SelectPartitions(q: seq<Entry>, now: nat)
    ensures multiset(Select(q, now, false)) + multiset(Select(q, now, true)) == multiset(q)
    ensures forall e | e in Select(q, now, true) :: Expired(e, now)
    ensures forall e | e in Select(q, now, false) :: !Expired(e, now)
  {
    if q != [] {
      SelectPartitions(q[..|q| - 1], now);
      assert q == q[..|q| - 1] + [q[|q| - 1]];
    }
  }

  /** Waiters without a time limit are never swept. */
  lemma {:induction false} NoLimitNoSweep(q: seq<Entry>, now: nat)
    requires forall e | e in q :: e.timeout == 0
    ensures Select(q, now, false) == q && Select(q, now, true) == []
  {
    if q != [] {
      NoLimitNoSweep(q[..|q| - 1], now);
      assert q == q[..|q| - 1] + [q[|q| - 1]];
    }
  }

  lemma PidsAppend(q: seq<Entry>, e: Entry)
    ensures Pids(q + [e]) == Pids(q) + [e.pid]
  {
  }

  lemma PidsPrefix(q: seq<Entry>, k: nat)
    requires k < |q|
    ensures Pids(q[..k + 1]) == Pids(q[..k]) + [q[k].pid]
  {
    assert q[..k + 1] == q[..k] + [q[k]];
    PidsAppend(q[..k], q[k]);
  }

  lemma PidsNone(q: seq<Entry>)
    ensures Pids(q[..0]) == []
  {
  }

  /** The sweep has gone over the first `c` entries of `q` and kept `k` of them. */
  ghost predicate Sifted(q: seq<Entry>, s: seq<Entry>, now: nat, c: nat, k: nat) {
    && c <= |q| && k <= |s|
    && s[..k] == Select(q[..c], now, false) && s[k..] == q[c..]
  }

  lemma SiftedStep(q: seq<Entry>, s: seq<Entry>, now: nat, c: nat, k: nat)
    requires Sifted(q, s, now, c, k) && k < |s|
    ensures c < |q| && s[k] == q[c]
    ensures if Expired(q[c], now) then Sifted(q, Drop(s, k), now, c + 1, k) else Sifted(q, s, now, c + 1, k + 1)
    ensures Pids(Select(q[..c + 1], now, true)) == Pids(Select(q[..c], now, true)) + if Expired(q[c], now) then [q[c].pid] else []
  {
    assert |s[k..]| == |q[c..]|;
    assert s[k..][0] == q[c..][0];
    assert q[..c + 1] == q[..c] + [q[c]];
    SelectAppend(q[..c], q[c], now, false);
    SelectAppend(q[..c], q[c], now, true);
    PidsAppend(Select(q[..c], now, true), q[c]);
    if Expired(q[c], now) {
      var r := Drop(s, k);
      assert r[..k] == s[..k];
      assert r[k..] == s[k..][1..] == q[c..][1..] == q[c + 1..];
    } else {
      assert s[..k + 1] == s[..k] + [s[k]];
      assert s[k + 1..] == s[k..][1..] == q[c..][1..] == q[c + 1..];
    }
  }

  lemma SiftedEnds(q: seq<Entry>, s: seq<Entry>, now: nat, c: nat, k: nat)
    requires Sifted(q, s, now, c, k) && k == |s|
    ensures s == Select(q, now, false) && c == |q| && q[..c] == q
  {
    assert |s[k..]| == |q[c..]|;
    assert q[..c] == q && s[..k] == s;
  }

  // ----- the list -----

  class Waiters {
    var head: Node?<Entry>
    var tail: Node?<Entry>
    var count: nat
    ghost var spine: seq<Node<Entry>>

    ghost predicate Valid()
      reads this, spine
    {
      Chained(spine, head, tail) && count == |spine|
    }

    ghost function Contents(): seq<Entry>
      reads this
    {
      Values(spine)
    }

    constructor ()
      ensures Valid() && Contents() == [] && spine == []
    {
      head, tail, count, spine := null, null, 0, [];
    }

    /** `add_waiter`; the allocator may fail. */
    method Add(e: Entry) returns (ok: bool)
      requires Valid()
      modifies this, spine
      ensures Valid() && Contents() == if ok then old(Contents()) + [e] else old(Contents())
      ensures forall n | n in spine :: n in old(spine) || fresh(n)
    {
      hide Chained, Values;
      if * {
        return false;
      }
      var n := new Node<Entry>(e);
      ChainEnds(spine, head, tail);
      ValuesAppend(spine, n);
      head, tail := Append(spine, head, tail, n);
      spine := spine + [n];
      count := count + 1;
      return true;
    }

    /** `remove_waiter` */
    method Remove(pid: int)
      requires Valid()
      modifies this, spine
      ensures Valid() && Contents() == RemoveFirst(old(Contents()), pid)
      ensures forall n | n in spine :: n in old(spine)
    {
      hide RemoveFirst, Chained;
      var prev: Node?<Entry>, current := null, head;
      ghost var i := 0;
      ChainEnds(spine, head, tail);
      while current != null
        invariant Valid() && spine == old(spine) && i <= |spine|
        invariant current == At(spine, i) && prev == At(spine, i - 1)
        invariant forall j | 0 <= j < i :: Contents()[j].pid != pid
        decreases |spine| - i
      {
        if current.val.pid == pid {
          RemoveFirstAt(Contents(), pid, i);
          ValuesDrop(spine, i);
          head, tail := Unlink(spine, head, tail, prev, current, i);
          spine := Drop(spine, i);
          count := count - 1;
          return;
        }
        ChainNext(spine, head, tail, i);
        prev, current, i := current, current.next, i + 1;
      }
      RemoveFirstNone(Contents(), pid);
    }

    /** `wake_waiters`: the tasks unblocked, in order. */
    method Wake(n: nat) returns (woken: seq<int>)
      requires Valid()
      modifies this, spine
      ensures Valid()
      ensures var q := old(Contents()); var k := Woken(q, n);
              Contents() == q[k..] && woken == Pids(q[..k])
      ensures forall x | x in spine :: x in old(spine)
    {
      hide Chained, Pids, Values;
      var current := head;
      ghost var k := 0;
      woken := [];
      ChainEnds(spine, head, tail);
      ghost var q := Contents();
      PidsNone(q);
      while current != null && (n == 0 || |woken| < n)
        invariant spine == old(spine) && Chained(spine, old(head), old(tail)) && tail == old(tail)
        invariant count == |spine| && k == |woken| <= |spine| && (n > 0 ==> k <= n)
        invariant head == current == At(spine, k)
        invariant woken == Pids(q[..k])
        decreases |spine| - k
      {
        var next := current.next;
        ChainNext(spine, old(head), old(tail), k);
        PidsPrefix(q, k);
        ValuesAt(spine, k);
        woken := woken + [current.val.pid];
        if head == current {
          head := next;
        }
        current, k := next, k + 1;
      }
      ChainFrom(spine, old(head), old(tail), k);
      ValuesFrom(spine, k);
      if head == null {
        tail := null;
      }
      count := count - |woken|;
      spine := spine[k..];
    }

    /** `check_timeouts`: keep exactly the waiters whose time is not up, and unblock the others. */
    method CheckTimeouts(now: nat) returns (woken: seq<int>)
      requires Valid()
      modifies this, spine
      ensures Valid() && Contents() == Select(old(Contents()), now, false)
      ensures woken == Pids(Select(old(Contents()), now, true))
      ensures forall n | n in spine :: n in old(spine)
    {
      hide Chained, Select, Sifted, Pids;
      var prev: Node?<Entry>, current := null, head;
      ghost var q, c, k := Contents(), 0, 0;
      woken := [];
      ChainEnds(spine, head, tail);
      SiftedStart(q, now);
      while current != null
        invariant Valid() && k <= |spine| && c <= |q| && (forall n | n in spine :: n in old(spine))
        invariant current == At(spine, k) && prev == At(spine, k - 1)
        invariant Sifted(q, Contents(), now, c, k)
        invariant woken == Pids(Select(q[..c], now, true))
        decreases |spine| - k
      {
        var next := current.next;
        SiftedStep(q, Contents(), now, c, k);
        ChainNext(spine, head, tail, k);
        if Expired(current.val, now) {
          woken := woken + [current.val.pid];
          ValuesDrop(spine, k);
          assert prev != null ==> prev in old(spine);
          head, tail := Unlink(spine, head, tail, prev, current, k);
          spine := Drop(spine, k);
          count := count - 1;
        } else {
          prev, k := current, k + 1;
        }
        current, c := next, c + 1;
      }
      SiftedEnds(q, Contents(), now, c, k);
    }
  }

  lemma SiftedStart(q: seq<Entry>, now: nat)
    ensures Sifted(q, q, now, 0, 0) && Pids(Select(q[..0], now, true)) == []
  {
  }
}
