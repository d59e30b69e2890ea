/** `CountedLock`: a mutex that counts who has asked for it, as the atomic steps of any number of
    threads.  The counter and the mutex change in separate steps, so every interleaving is covered. */
module CountedLocks {

  type Thread = nat

  /** A thread inside the lock.  `Counted`: counted and waiting for (or about to take) the mutex;
      `Holding`: has the mutex and is still counted; `Uncounted`: `Unlock` has decremented the counter
      but not yet released the mutex. */
  datatype Phase = Counted | Holding | Uncounted

  datatype Holder = Free | HeldBy(thread: Thread)

  datatype Lock = Lock(numLocks: int, core: Holder, phase: map<Thread, Phase>)

  datatype Step = Count(t: Thread) | Acquire(t: Thread) | Uncount(t: Thread) | Release(t: Thread)

  const UNLOCKED: Lock := Lock(0, Free, map[])

  /** Two's-complement wrap-around of the 32-bit counter. */
  function Wrap32(n: int): (w: int)
    ensures -2147483648 <= w < 2147483648 && (w - n) % 4294967296 == 0
  {
    (n + 0x8000_0000) % 0x1_0000_0000 - 0x8000_0000
  }

  predicate At(l: Lock, t: Thread, p: Phase) {
    t in l.phase && l.phase[t] == p
  }

  predicate Enabled(l: Lock, step: Step) {
    match step
    case Count(t) => t !in l.phase
    case Acquire(t) => At(l, t, Counted) && l.core == Free
    case Uncount(t) => At(l, t, Holding)
    case Release(t) => At(l, t, Uncounted)
  }

  function Apply(l: Lock, step: Step): Lock {
    match step
    case Count(t) => l.(numLocks := Wrap32(l.numLocks + 1), phase := l.phase[t := Counted])
    case Acquire(t) => l.(core := HeldBy(t), phase := l.phase[t := Holding])
    case Uncount(t) => l.(numLocks := Wrap32(l.numLocks - 1), phase := l.phase[t := Uncounted])
    case Release(t) => l.(core := Free, phase := l.phase - {t})
  }

  predicate HasQueued(l: Lock) {
    l.numLocks > 1
  }

  /** The threads the counter stands for. */
  function Announced(l: Lock): set<Thread> {
    set t | t in l.phase && l.phase[t] != Uncounted
  }

  /** The threads that have announced themselves and do not have the mutex yet. */
  function Waiting(l: Lock): set<Thread> {
    set t | t in l.phase && l.phase[t] == Counted
  }

  /** Exactly the thread in the mutex is past `Acquire`. */
  ghost predicate OneHolder(l: Lock) {
    forall t :: At(l, t, Holding) || At(l, t, Uncounted) <==> l.core == HeldBy(t)
  }

  /** The counter is the number of announced threads, up to 32-bit wrap-around. */
  ghost predicate CountsAnnounced(l: Lock) {
    l.numLocks == Wrap32(|Announced(l)|)
  }

  ghost predicate Inv(l: Lock) {
    OneHolder(l) && CountsAnnounced(l)
  }

  lemma WrapStep(n: int, d: int)
    ensures Wrap32(Wrap32(n) + d) == Wrap32(n + d)
  {
  }

  lemma StepKeepsOneHolder(l: Lock, step: Step)
    requires OneHolder(l) && Enabled(l, step)
    ensures OneHolder(Apply(l, step))
  {
    hide Wrap32;
  }

  lemma StepKeepsCount(l: Lock, step: Step)
    requires CountsAnnounced(l) && Enabled(l, step)
    ensures CountsAnnounced(Apply(l, step))
  {
    hide Wrap32;
    var m := Apply(l, step);
    WrapStep(|Announced(l)|, 1);
    WrapStep(|Announced(l)|, -1);
    match step
    case Count(t) => assert Announced(m) == Announced(l) + {t};
    case Acquire(t) => assert Announced(m) == Announced(l);
    case Uncount(t) => assert Announced(m) == Announced(l) - {t};
    case Release(t) => assert Announced(m) == Announced(l);
  }

  /** Every step of every thread keeps the invariant. */
  lemma StepKeepsInv(l: Lock, step: Step)
    requires Inv(l) && Enabled(l, step)
    ensures Inv(Apply(l, step))
  {
    StepKeepsOneHolder(l, step);
    StepKeepsCount(l, step);
  }

  predicate Legal(l: Lock, steps: seq<Step>)
    decreases |steps|
  {
    steps == [] || (Enabled(l, steps[0]) && Legal(Apply(l, steps[0]), steps[1..]))
  }

  function Exec(l: Lock, steps: seq<Step>): Lock
    decreases |steps|
  {
    if steps == [] then l else Exec(Apply(l, steps[0]), steps[1..])
  }

  lemma {:induction false} RunKeepsInv(l: Lock, steps: seq<Step>)
    requires Inv(l) && Legal(l, steps)
    ensures Inv(Exec(l, steps))
    decreases |steps|
  {
    if steps != [] {
      StepKeepsInv(l, steps[0]);
      RunKeepsInv(Apply(l, steps[0]), steps[1..]);
    }
  }

  /** Over all interleavings of any number of threads: at most one thread is inside the mutex, and the
      counter is the number of waiting threads plus one for a holder that has not yet decremented. */
  lemma MutualExclusionAndCount(steps: seq<Step>)
    requires Legal(UNLOCKED, steps)
    ensures var l := Exec(UNLOCKED, steps);
            && (forall t, u ::
                  (At(l, t, Holding) || At(l, t, Uncounted)) && (At(l, u, Holding) || At(l, u, Uncounted)) ==> t == u)
            && l.numLocks == Wrap32(|Waiting(l)| + if exists t :: At(l, t, Holding) then 1 else 0)
  {
    assert Inv(UNLOCKED) by {
      assert Announced(UNLOCKED) == {};
    }
    RunKeepsInv(UNLOCKED, steps);
    var l := Exec(UNLOCKED, steps);
    if t: Thread :| At(l, t, Holding) {
      HolderAndWaiting(l, t);
    } else {
      assert Announced(l) == Waiting(l) by {
        forall u | u in Announced(l) ensures u in Waiting(l) {
          assert !At(l, u, Holding);
        }
      }
    }
  }

  /** For a holder that has not begun to unlock, `HasQueued` says exactly whether another thread has
      announced itself, as long as fewer than 2^31 threads are counted. */
  lemma HasQueuedIsExact(l: Lock, t: Thread)
    requires Inv(l) && At(l, t, Holding) && |Announced(l)| < 0x8000_0000
    ensures HasQueued(l) <==> exists u :: u != t && At(l, u, Counted)
  {
    HolderAndWaiting(l, t);
    if HasQueued(l) {
      var u :| u in Waiting(l);
      assert At(l, u, Counted);
    }
    if u: Thread :| u != t && At(l, u, Counted) {
      assert u in Waiting(l);
    }
  }

  /** Beyond that bound the counter lies: `HasQueued` is true exactly when the number of announced
      threads, reduced modulo 2^32, is at least 2 and below 2^31. */
  lemma HasQueuedIff(l: Lock)
    requires Inv(l)
    ensures HasQueued(l) <==> 2 <= |Announced(l)| % 4294967296 < 2147483648
  {
  }

  lemma HolderAndWaiting(l: Lock, t: Thread)
    requires Inv(l) && At(l, t, Holding)
    ensures t !in Waiting(l) && |Announced(l)| == |Waiting(l)| + 1
  {
    forall u | u in Announced(l) ensures u in Waiting(l) + {t} {
      if l.phase[u] == Holding {
        assert At(l, u, Holding);
      }
    }
    assert Announced(l) == Waiting(l) + {t};
  }
}
