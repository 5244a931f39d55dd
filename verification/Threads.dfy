/** How many threads are at a given point of a protocol. */
module Threads {
  /** The threads at point `p`. */
  ghost function At<P>(threads: map<int, P>, p: P): set<int> {
    set t | t in threads && threads[t] == p
  }

  ghost function Count<P>(threads: map<int, P>, p: P): nat {
    |At(threads, p)|
  }

  /** A thread moves from one point to another. */
  lemma Move<P>(threads: map<int, P>, t: int, to: P, p: P)
    requires t in threads
    ensures Count(threads[t := to], p) ==
            Count(threads, p) + (if to == p then 1 else 0) - (if threads[t] == p then 1 else 0)
  {
    var before, after := At(threads, p), At(threads[t := to], p);
    if to == p {
      assert after == before + {t};
    } else {
      assert after == before - {t};
    }
  }

  lemma Present<P>(threads: map<int, P>, t: int)
    requires t in threads
    ensures Count(threads, threads[t]) > 0
  {
    assert t in At(threads, threads[t]);
  }

  lemma Absent<P>(threads: map<int, P>, p: P)
    ensures Count(threads, p) == 0 <==> forall t | t in threads :: threads[t] != p
  {
    if Count(threads, p) == 0 {
      forall t | t in threads ensures threads[t] != p {
        assert t !in At(threads, p);
      }
    }
    if forall t | t in threads :: threads[t] != p {
      assert At(threads, p) == {};
    }
  }
}
