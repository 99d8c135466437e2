/** Who moves between the sleepers and the run queue in a step, and in which order. */
module KernelQueues {
  import opened Kernel
  import opened KernelInv

  // ----- Wakeups

  /** The members of who, in the order in which they stand in all. */
  function Part(all: seq<Tid>, who: set<Tid>): seq<Tid> {
    if all == [] then []
    else if all[0] in who then [all[0]] + Part(all[1..], who)
    else Part(all[1..], who)
  }

  lemma {:induction false} PartAdd(all: seq<Tid>, t: Tid, who: set<Tid>)
    ensures Part(all + [t], who) == Part(all, who) + (if t in who then [t] else [])
  {
    if all == [] {
      assert [t][1..] == [];
    } else {
      assert (all + [t])[1..] == all[1..] + [t];
      PartAdd(all[1..], t, who);
    }
  }

  /** The sleepers on a, and the other ones. */
  function Asleep(k: K, a: Addr): set<Tid> { set t | t in k.sleepers && On(k.threads, t, a) }
  function Elsewhere(k: K, a: Addr): set<Tid> { set t | t in k.sleepers && !On(k.threads, t, a) }

  lemma {:induction false} MatchPart(ths: seq<Thread>, sl: seq<Tid>, a: Addr, on: set<Tid>, off: set<Tid>)
    requires forall t :: t in sl ==> (t in on <==> On(ths, t, a)) && (t in off <==> !On(ths, t, a))
    ensures Match(ths, sl, a) == Part(sl, on) && Others(ths, sl, a) == Part(sl, off)
  {
    hide On;
    hide Part;
    if sl == [] {
      assert Part([], on) == [] && Part([], off) == [] by { PartNone(on); PartNone(off); }
    } else {
      var front, t := sl[..|sl| - 1], sl[|sl| - 1];
      assert sl == front + [t];
      MatchPart(ths, front, a, on, off);
      PartAdd(front, t, on);
      PartAdd(front, t, off);
    }
  }

  lemma PartNone(who: set<Tid>)
    ensures Part([], who) == []
  {
  }

  /** Exactly the sleepers on a have moved, in sleep order, to the end of the run queue;
      the other ones still sleep, in their order, followed by late. */
  ghost predicate AllWoken(k: K, k': K, a: Addr, late: seq<Tid>) {
    && k'.runq == k.runq + Part(k.sleepers, Asleep(k, a))
    && k'.sleepers == Part(k.sleepers, Elsewhere(k, a)) + late
  }

  /** The sleeper at i is the one that has slept longest on a. */
  ghost predicate Earliest(k: K, a: Addr, i: nat) {
    && i < |k.sleepers| && On(k.threads, k.sleepers[i], a)
    && forall j :: 0 <= j < i ==> !On(k.threads, k.sleepers[j], a)
  }

  /** The sleeper at i, and no other, has moved to the end of the run queue. */
  predicate Moved(k: K, k': K, i: nat) {
    && i < |k.sleepers|
    && k'.runq == k.runq + [k.sleepers[i]] && k'.sleepers == k.sleepers[..i] + k.sleepers[i + 1..]
  }

  /** Exactly that one has moved, if there is one. */
  ghost predicate OneWoken(k: K, k': K, a: Addr) {
    && (Asleep(k, a) == {} ==> k'.runq == k.runq && k'.sleepers == k.sleepers)
    && (Asleep(k, a) != {} ==> exists i: nat :: Earliest(k, a, i) && Moved(k, k', i))
  }

  lemma WakesAll(k: K, k1: K, a: Addr)
    requires k1.runq == k.runq && k1.sleepers == k.sleepers
    requires forall t :: On(k1.threads, t, a) <==> On(k.threads, t, a)
    ensures AllWoken(k, WakeAll(k1, a), a, [])
  {
    MatchPart(k1.threads, k.sleepers, a, Asleep(k, a), Elsewhere(k, a));
  }

  lemma WakesOne(k: K, k1: K, a: Addr)
    requires k1.runq == k.runq && k1.sleepers == k.sleepers
    requires forall t :: On(k1.threads, t, a) <==> On(k.threads, t, a)
    ensures OneWoken(k, WakeOne(k1, a), a)
  {
    hide On;
    var f := FirstMatch(k1.threads, k.sleepers, a);
    if f < |k.sleepers| {
      assert Earliest(k, a, f) && k.sleepers[f] in Asleep(k, a) && Moved(k, WakeOne(k1, a), f);
    } else {
      forall t | t in k.sleepers ensures !On(k.threads, t, a) {
        var j :| 0 <= j < |k.sleepers| && k.sleepers[j] == t;
        assert !On(k1.threads, k.sleepers[j], a);
      }
      assert Asleep(k, a) == {};
    }
  }

  /** Nobody is left on a. */
  lemma {:induction false} NoneLeft(all: seq<Tid>, who: set<Tid>, t: Tid)
    ensures t in Part(all, who) <==> t in all && t in who
  {
    if all != [] {
      NoneLeft(all[1..], who, t);
      assert all == [all[0]] + all[1..];
    }
  }

  /** The current thread's operation, if it has one left. */
  predicate AtOp(k: K, op: Op) {
    Running(k) && var th := k.threads[k.cur.value]; !th.Done() && th.prog[th.pc] == op
  }

  /** The current thread is past its operation and still runs. */
  predicate Past(k: K, k': K)
    requires Running(k)
  {
    var t := k.cur.value;
    k'.cur == k.cur && k'.threads == k.threads[t := k.threads[t].(pc := k.threads[t].pc + 1, waited := false)]
  }

  lemma PastSame(k: K, k': K, a: Addr)
    requires Running(k) && Past(k, k')
    ensures forall t :: On(k'.threads, t, a) <==> On(k.threads, t, a)
  {
  }

  /** cv_broadcast: every thread asleep on the cv goes to the end of the run queue, in
      sleep order, and nobody else; none is left asleep on it. */
  lemma BroadcastWakes(k: K, c: nat, l: nat)
    requires WellFormed(k) && Enabled(k, Run) && AtOp(k, Broadcast(c, l))
    ensures var k' := RunOp(k);
            && AllWoken(k, k', CvAddr(c), []) && Past(k, k') && k'.sems == k.sems && k'.locks == k.locks
            && forall t :: t in k'.sleepers ==> !On(k'.threads, t, CvAddr(c))
  {
    var k1 := Advance(k);
    PastSame(k, k1, CvAddr(c));
    WakesAll(k, k1, CvAddr(c));
    forall t | t in RunOp(k).sleepers ensures !On(k1.threads, t, CvAddr(c)) {
      NoneLeft(k.sleepers, Elsewhere(k, CvAddr(c)), t);
    }
  }

  /** cv_signal: the thread that has slept longest on the cv, if any, and nobody else. */
  lemma SignalWakes(k: K, c: nat, l: nat)
    requires WellFormed(k) && Enabled(k, Run) && AtOp(k, Signal(c, l))
    ensures var k' := RunOp(k);
            OneWoken(k, k', CvAddr(c)) && Past(k, k') && k'.sems == k.sems && k'.locks == k.locks
  {
    var k1 := Advance(k);
    PastSame(k, k1, CvAddr(c));
    WakesOne(k, k1, CvAddr(c));
  }

  /** V: the count goes up by one and every thread asleep on the semaphore is woken. */
  lemma VWakes(k: K, s: nat)
    requires WellFormed(k) && Enabled(k, Run) && AtOp(k, V(s))
    ensures var k' := RunOp(k);
            && AllWoken(k, k', SemAddr(s), []) && Past(k, k') && k'.locks == k.locks
            && k'.sems == k.sems[s := k.sems[s] + 1]
  {
    var k1 := SetSem(Advance(k), s, k.sems[s] + 1);
    PastSame(k, k1, SemAddr(s));
    WakesAll(k, k1, SemAddr(s));
  }

  /** lock_release by the holder: the lock is free and every thread asleep on it is woken.
      By anyone else: nothing but the thread going on. */
  lemma ReleaseWakes(k: K, l: nat)
    requires WellFormed(k) && Enabled(k, Run) && AtOp(k, Release(l))
    ensures var k' := RunOp(k);
            && Past(k, k') && k'.sems == k.sems
            && (k.locks[l].heldThread == k.cur ==>
                  AllWoken(k, k', LockAddr(l), []) && k'.locks == k.locks[l := Lock(false, None)])
            && (k.locks[l].heldThread != k.cur ==>
                  k'.runq == k.runq && k'.sleepers == k.sleepers && k'.locks == k.locks)
  {
    var k1 := SetLock(Advance(k), l, Lock(false, None));
    PastSame(k, k1, LockAddr(l));
    WakesAll(k, k1, LockAddr(l));
  }

  /** The current thread is the last of the sleepers, on a, at the operation it was at. */
  ghost predicate Slept(k: K, k': K, a: Addr)
    requires Running(k)
  {
    var t := k.cur.value;
    && k'.cur == None && k'.runq == k.runq && k'.sleepers == k.sleepers + [t]
    && k'.threads == k.threads[t := k.threads[t].(sleepaddr := a)] && k'.sems == k.sems && k'.locks == k.locks
  }

  /** P: the count goes down by one, or the thread sleeps while it is 0. */
  lemma PTakes(k: K, s: nat)
    requires WellFormed(k) && Enabled(k, Run) && AtOp(k, P(s))
    ensures var k' := RunOp(k);
            if k.sems[s] == 0 then Slept(k, k', SemAddr(s))
            else
              && Past(k, k') && k'.runq == k.runq && k'.sleepers == k.sleepers && k'.locks == k.locks
              && k'.sems == k.sems[s := k.sems[s] - 1]
  {
  }

  /** lock_acquire, and the end of cv_wait: the caller holds the lock, or sleeps while it is held. */
  lemma AcquireTakes(k: K, l: nat)
    requires WellFormed(k) && Enabled(k, Run) && Running(k) && !k.threads[k.cur.value].Done()
    requires var th := k.threads[k.cur.value];
             th.prog[th.pc] == Acquire(l) || (th.prog[th.pc].Wait? && th.prog[th.pc].l == l && th.waited)
    ensures var k' := RunOp(k);
            if k.locks[l].held then Slept(k, k', LockAddr(l))
            else
              && Past(k, k') && k'.runq == k.runq && k'.sleepers == k.sleepers && k'.sems == k.sems
              && k'.locks == k.locks[l := Lock(true, k.cur)]
  {
  }

  /** cv_wait, first part: the lock is free, every thread asleep on it is woken, and the
      caller is the last of the sleepers, on the cv. */
  lemma WaitWakes(k: K, c: nat, l: nat)
    requires WellFormed(k) && Enabled(k, Run) && AtOp(k, Wait(c, l)) && !k.threads[k.cur.value].waited
    ensures var t, k' := k.cur.value, RunOp(k);
            && AllWoken(k, k', LockAddr(l), [t]) && k'.cur == None && On(k'.threads, t, CvAddr(c))
            && k'.sems == k.sems && k'.locks == k.locks[l := Lock(false, None)]
  {
    WakesAll(k, SetLock(k, l, Lock(false, None)), LockAddr(l));
  }

  // ----- The run queue is first in, first out

  /** A new thread starts at the beginning of its program, last in the run queue. */
  lemma Spawned(k: K, prog: seq<Op>)
    requires WellFormed(k) && Enabled(k, Spawn(prog))
    ensures var k' := Next(k, Spawn(prog));
            && |k'.threads| == |k.threads| + 1 && k'.threads[..|k.threads|] == k.threads
            && k'.threads[|k.threads|].prog == prog && k'.threads[|k.threads|].pc == 0
            && !k'.threads[|k.threads|].waited && !k'.threads[|k.threads|].started
            && k'.runq == k.runq + [|k.threads|] && k'.sleepers == k.sleepers && k'.cur == k.cur
  {
  }

  /** A thread at the end of its program becomes the last of the zombies. */
  lemma Exits(k: K)
    requires WellFormed(k) && Enabled(k, Run) && k.threads[k.cur.value].Done()
    ensures RunOp(k) == k.(cur := None, zombies := k.zombies + [k.cur.value], numthreads := k.numthreads - 1)
  {
  }

  /** Zombies stay until a thread that has run before is picked, and are all gone then. */
  lemma Reaps(k: K)
    requires WellFormed(k) && Enabled(k, Schedule)
    ensures var t, k' := k.runq[0], Next(k, Schedule);
            && (k.threads[t].started ==> k'.zombies == [] && k'.gone == k.gone + set z | z in k.zombies)
            && (!k.threads[t].started ==> k'.zombies == k.zombies && k'.gone == k.gone)
            && k'.threads == k.threads[t := k.threads[t].(started := true, sleepaddr := NullAddr)]
            && k'.sleepers == k.sleepers && k'.sems == k.sems && k'.locks == k.locks
            && k'.numthreads == k.numthreads
  {
  }

  /** Threads join the run queue at its end only, and leave it at its head only, when
      they are picked. */
  lemma QueueStep(k: K, st: Step)
    requires WellFormed(k) && Enabled(k, st)
    ensures var k' := Next(k, st);
            if st.Schedule? then k'.runq == k.runq[1..] && k'.cur == Some(k.runq[0]) else k.runq <= k'.runq
  {
    hide Match;
    hide Others;
    hide FirstMatch;
  }

  /** How many times the scheduler picks a thread in a run. */
  function Picks(steps: seq<Step>): nat {
    if steps == [] then 0 else (if steps[0].Schedule? then 1 else 0) + Picks(steps[1..])
  }

  /** Bounded waiting, in every run: behind i others, a thread moves up by one with each
      pick and is the one picked the next time after i picks. */
  lemma {:induction false} RoundRobin(k: K, steps: seq<Step>, k': K, i: nat)
    requires Reaches(k, steps, k') && i < |k.runq| && Picks(steps) <= i
    ensures i - Picks(steps) < |k'.runq| && k'.runq[i - Picks(steps)] == k.runq[i]
    ensures Picks(steps) == i && WellFormed(k') && Enabled(k', Schedule) ==>
      Next(k', Schedule).cur == Some(k.runq[i])
    decreases |steps|
  {
    hide Enabled;
    hide Next;
    if steps != [] {
      var k1 := Next(k, steps[0]);
      QueueStep(k, steps[0]);
      RoundRobin(k1, steps[1..], k', if steps[0].Schedule? then i - 1 else i);
    }
    if Picks(steps) == i && WellFormed(k') && Enabled(k', Schedule) {
      QueueStep(k', Schedule);
    }
  }
}
