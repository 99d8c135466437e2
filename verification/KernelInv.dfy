/** Invariants of every run of the kernel state machine. */
module KernelInv {
  import opened Kernel

  // ----- Thread conservation

  function CurPlace(k: K): multiset<Tid> {
    if k.cur.Some? then multiset{k.cur.value} else multiset{}
  }

  /** Every place a thread can be in, with multiplicity. */
  function Places(k: K): multiset<Tid> {
    CurPlace(k) + multiset(k.runq) + multiset(k.sleepers) + multiset(k.zombies)
  }

  /** Each created, undestroyed thread is in exactly one place, and numthreads
      counts those that are not zombies. */
  ghost predicate Conserved(k: K) {
    && (forall t: nat :: Places(k)[t] == if t < |k.threads| && t !in k.gone then 1 else 0)
    && (forall t :: t in k.gone ==> t < |k.threads|)
    && k.numthreads == |CurPlace(k)| + |k.runq| + |k.sleepers|
  }

  lemma {:induction false} MatchCounts(ths: seq<Thread>, sl: seq<Tid>, a: Addr)
    ensures multiset(Match(ths, sl, a)) + multiset(Others(ths, sl, a)) == multiset(sl)
    ensures |Match(ths, sl, a)| + |Others(ths, sl, a)| == |sl|
  {
    hide On;
    if sl != [] {
      var front, t := sl[..|sl| - 1], sl[|sl| - 1];
      MatchCounts(ths, front, a);
      assert sl == front + [t];
    }
  }

  lemma {:induction false} MatchMembers(ths: seq<Thread>, sl: seq<Tid>, a: Addr, t: Tid)
    ensures t in Match(ths, sl, a) <==> t in sl && On(ths, t, a)
    ensures t in Others(ths, sl, a) <==> t in sl && !On(ths, t, a)
  {
    hide On;
    if sl != [] {
      var front := sl[..|sl| - 1];
      MatchMembers(ths, front, a, t);
      assert sl == front + [sl[|sl| - 1]];
    }
  }

  /** A wakeup splits the sleepers without loss. */
  lemma MatchSplits(ths: seq<Thread>, sl: seq<Tid>, a: Addr)
    ensures multiset(Match(ths, sl, a)) + multiset(Others(ths, sl, a)) == multiset(sl)
    ensures |Match(ths, sl, a)| + |Others(ths, sl, a)| == |sl|
    ensures forall t :: t in Match(ths, sl, a) <==> t in sl && On(ths, t, a)
    ensures forall t :: t in Others(ths, sl, a) <==> t in sl && !On(ths, t, a)
  {
    hide On;
    hide Match;
    hide Others;
    MatchCounts(ths, sl, a);
    forall t ensures t in Match(ths, sl, a) <==> t in sl && On(ths, t, a) { MatchMembers(ths, sl, a, t); }
    forall t ensures t in Others(ths, sl, a) <==> t in sl && !On(ths, t, a) { MatchMembers(ths, sl, a, t); }
  }

  lemma WakeAllPlaces(k: K, a: Addr)
    ensures Places(WakeAll(k, a)) == Places(k)
    ensures |WakeAll(k, a).runq| + |WakeAll(k, a).sleepers| == |k.runq| + |k.sleepers|
  {
    MatchSplits(k.threads, k.sleepers, a);
  }

  lemma WakeOnePlaces(k: K, a: Addr)
    ensures Places(WakeOne(k, a)) == Places(k)
    ensures |WakeOne(k, a).runq| + |WakeOne(k, a).sleepers| == |k.runq| + |k.sleepers|
    ensures forall t :: t in WakeOne(k, a).sleepers ==> t in k.sleepers
  {
    var i := FirstMatch(k.threads, k.sleepers, a);
    if i < |k.sleepers| {
      var before, t, after := k.sleepers[..i], k.sleepers[i], k.sleepers[i + 1..];
      assert k.sleepers == before + [t] + after;
      assert multiset(k.sleepers) == multiset(before) + multiset{t} + multiset(after);
      assert multiset(k.runq + [t]) == multiset(k.runq) + multiset{t};
    }
  }

  /** The current thread is nowhere else. */
  lemma CurIsAlone(k: K)
    requires Conserved(k) && k.cur.Some?
    ensures Running(k) && k.cur.value !in k.gone
    ensures k.cur.value !in k.runq && k.cur.value !in k.sleepers && k.cur.value !in k.zombies
  {
    var t := k.cur.value;
    assert Places(k)[t] >= 1;
    assert t in k.runq ==> multiset(k.runq)[t] >= 1;
    assert t in k.sleepers ==> multiset(k.sleepers)[t] >= 1;
    assert t in k.zombies ==> multiset(k.zombies)[t] >= 1;
  }

  /** Two lists that share no thread, and threads in lists exist. */
  lemma PlacesApart(k: K, t: Tid)
    requires Conserved(k)
    ensures t in k.runq ==> t < |k.threads| && t !in k.sleepers && t !in k.zombies && t !in k.gone
    ensures t in k.sleepers ==> t < |k.threads| && t !in k.zombies && t !in k.gone
    ensures t in k.zombies ==> t < |k.threads| && t !in k.gone
  {
    assert Places(k)[t] == if t < |k.threads| && t !in k.gone then 1 else 0;
    assert t in k.runq ==> multiset(k.runq)[t] >= 1;
    assert t in k.sleepers ==> multiset(k.sleepers)[t] >= 1;
    assert t in k.zombies ==> multiset(k.zombies)[t] >= 1;
  }

  /** A change that keeps the places, the threads' existence and the counter. */
  lemma SamePlaces(k: K, k': K)
    requires Conserved(k) && Places(k') == Places(k) && |k'.threads| == |k.threads| && k'.gone == k.gone
    requires k'.numthreads - k.numthreads
          == |CurPlace(k')| + |k'.runq| + |k'.sleepers| - (|CurPlace(k)| + |k.runq| + |k.sleepers|)
    ensures Conserved(k')
  {
    forall t: nat ensures Places(k')[t] == if t < |k'.threads| && t !in k'.gone then 1 else 0 {
      assert Places(k)[t] == if t < |k.threads| && t !in k.gone then 1 else 0;
    }
  }

  lemma WakeConserved(k: K, a: Addr)
    requires Conserved(k)
    ensures Conserved(WakeAll(k, a)) && Conserved(WakeOne(k, a))
  {
    WakeAllPlaces(k, a);
    WakeOnePlaces(k, a);
    SamePlaces(k, WakeAll(k, a));
    SamePlaces(k, WakeOne(k, a));
  }

  /** The current thread moves to one of the lists. */
  lemma SwitchConserved(k: K, a: Addr)
    requires Conserved(k) && Running(k)
    ensures Conserved(SleepOn(k, a)) && Conserved(Yield(k)) && Conserved(Exit(k))
  {
    SamePlaces(k, SleepOn(k, a));
    SamePlaces(k, Yield(k));
    SamePlaces(k, Exit(k));
  }

  /** Changes outside the scheduling lists. */
  lemma LocalConserved(k: K, k': K)
    requires Conserved(k) && k' == k.(threads := k'.threads, sems := k'.sems, locks := k'.locks)
    requires |k'.threads| == |k.threads|
    ensures Conserved(k')
  {
    SamePlaces(k, k');
  }

  lemma UnlockConserved(k: K, l: nat)
    requires Conserved(k) && l < |k.locks|
    ensures Conserved(Unlock(k, l))
  {
    hide Conserved;
    var k' := SetLock(k, l, Lock(false, None));
    LocalConserved(k, k');
    WakeConserved(k', LockAddr(l));
  }

  lemma AcquireConserved(k: K, l: nat)
    requires Conserved(k) && Running(k) && l < |k.locks|
    ensures Conserved(AcquirePass(k, l))
  {
    hide Conserved;
    SwitchConserved(k, LockAddr(l));
    LocalConserved(k, SetLock(Advance(k), l, Lock(true, k.cur)));
  }

  lemma SemConserved(k: K)
    requires WellFormed(k) && Conserved(k) && Running(k) && NoPanic(k) && !k.threads[k.cur.value].Done()
    requires var th := k.threads[k.cur.value]; th.prog[th.pc].P? || th.prog[th.pc].V?
    ensures Conserved(RunOp(k))
  {
    hide Conserved;
    var th := k.threads[k.cur.value];
    var s := th.prog[th.pc].s;
    if th.prog[th.pc].V? {
      var k' := SetSem(Advance(k), s, k.sems[s] + 1);
      LocalConserved(k, k');
      WakeConserved(k', SemAddr(s));
    } else if k.sems[s] > 0 {
      LocalConserved(k, SetSem(Advance(k), s, k.sems[s] - 1));
    } else {
      SwitchConserved(k, SemAddr(s));
    }
  }

  lemma WaitConserved(k: K)
    requires WellFormed(k) && Conserved(k) && Running(k) && NoPanic(k) && !k.threads[k.cur.value].Done()
    requires var th := k.threads[k.cur.value]; th.prog[th.pc].Wait?
    ensures Conserved(RunOp(k))
  {
    hide Conserved;
    var t := k.cur.value;
    var th := k.threads[t];
    var c, l := th.prog[th.pc].c, th.prog[th.pc].l;
    if th.waited {
      AcquireConserved(k, l);
    } else {
      UnlockConserved(k, l);
      var k' := SetThread(Unlock(k, l), t, th.(waited := true));
      LocalConserved(Unlock(k, l), k');
      SwitchConserved(k', CvAddr(c));
    }
  }

  lemma RunConserved(k: K)
    requires WellFormed(k) && Conserved(k) && Running(k) && NoPanic(k)
    ensures Conserved(RunOp(k))
  {
    hide Conserved;
    var th := k.threads[k.cur.value];
    if th.Done() {
      SwitchConserved(k, NullAddr);
    } else if th.prog[th.pc].P? || th.prog[th.pc].V? {
      SemConserved(k);
    } else if th.prog[th.pc].Wait? {
      WaitConserved(k);
    } else {
      LocalConserved(k, Advance(k));
      match th.prog[th.pc]
      case Acquire(l) => AcquireConserved(k, l);
      case Release(l) => UnlockConserved(Advance(k), l);
      case Signal(c, l) => WakeConserved(Advance(k), CvAddr(c));
      case Broadcast(c, l) => WakeConserved(Advance(k), CvAddr(c));
    }
  }

  /** What the scheduler takes out of all places: the zombies it exorcises. */
  function Exorcised(k: K): seq<Tid>
    requires k.runq != [] && k.runq[0] < |k.threads|
  {
    if k.threads[k.runq[0]].started then k.zombies else []
  }

  lemma DispatchPlaces(k: K)
    requires k.cur.None? && k.runq != [] && k.runq[0] < |k.threads|
    ensures Places(k) == Places(Dispatch(k)) + multiset(Exorcised(k))
    ensures forall t :: t in Dispatch(k).gone <==> t in k.gone || t in Exorcised(k)
  {
    assert k.runq == [k.runq[0]] + k.runq[1..];
  }

  lemma DispatchConserved(k: K)
    requires Conserved(k) && k.cur.None? && k.runq != [] && k.runq[0] < |k.threads|
    ensures Conserved(Dispatch(k))
    ensures Dispatch(k).cur.value !in k.zombies  // the assertion in exorcise
  {
    var k' := Dispatch(k);
    var z: multiset<Tid> := multiset(Exorcised(k));
    DispatchPlaces(k);
    PlacesApart(k, k.runq[0]);
    forall t: nat ensures Places(k')[t] == if t < |k'.threads| && t !in k'.gone then 1 else 0 {
      hide Places;
      PlacesApart(k, t);
      assert Places(k)[t] == if t < |k.threads| && t !in k.gone then 1 else 0;
      assert z[t] > 0 <==> t in Exorcised(k);
    }
    forall t | t in k'.gone ensures t < |k'.threads| {
      PlacesApart(k, t);
    }
  }

  lemma ForkConserved(k: K, prog: seq<Op>)
    requires Conserved(k)
    ensures Conserved(Fork(k, prog))
  {
    var k' := Fork(k, prog);
    forall t: nat ensures Places(k')[t] == if t < |k'.threads| && t !in k'.gone then 1 else 0 {
      assert Places(k)[t] == if t < |k.threads| && t !in k.gone then 1 else 0;
      assert Places(k') == Places(k) + multiset{|k.threads|};
    }
  }

  // ----- Semaphore accounting

  function Executed(th: Thread): seq<Op> {
    if th.pc <= |th.prog| then th.prog[..th.pc] else th.prog
  }

  function Delta(op: Op, s: nat): int {
    if op == P(s) then 1 else if op == V(s) then -1 else 0
  }

  /** Completed Ps minus Vs on semaphore s. */
  function Net(ops: seq<Op>, s: nat): int {
    if ops == [] then 0 else Net(ops[..|ops| - 1], s) + Delta(ops[|ops| - 1], s)
  }

  function Total(ths: seq<Thread>, s: nat): int {
    if ths == [] then 0 else Total(ths[..|ths| - 1], s) + Net(Executed(ths[|ths| - 1]), s)
  }

  lemma {:induction false} TotalUpdate(ths: seq<Thread>, t: nat, th: Thread, s: nat)
    requires t < |ths|
    ensures Total(ths[t := th], s) == Total(ths, s) - Net(Executed(ths[t]), s) + Net(Executed(th), s)
  {
    var n := |ths| - 1;
    if t == n {
      assert ths[t := th][..n] == ths[..n];
    } else {
      assert ths[t := th][..n] == ths[..n][t := th];
      TotalUpdate(ths[..n], t, th, s);
    }
  }

  lemma NetStep(th: Thread, s: nat)
    requires th.pc < |th.prog|
    ensures Net(Executed(th.(pc := th.pc + 1)), s) == Net(Executed(th), s) + Delta(th.prog[th.pc], s)
  {
    var ops := th.prog[..th.pc + 1];
    assert ops[..|ops| - 1] == th.prog[..th.pc];
  }

  /** count = initial + Vs - completed Ps, for every semaphore. */
  ghost predicate Balanced(k: K, init: seq<nat>) {
    && |k.sems| == |init|
    && forall s :: 0 <= s < |init| ==> k.sems[s] + Total(k.threads, s) == init[s]
  }

  /** What one operation does to the threads and the semaphores. */
  lemma RunThreads(k: K)
    requires WellFormed(k) && Running(k) && NoPanic(k)
    ensures var t := k.cur.value;
            var th, k' := k.threads[t], RunOp(k);
            && |k'.threads| == |k.threads| && k'.threads == k.threads[t := k'.threads[t]]
            && k'.threads[t].prog == th.prog && |k'.sems| == |k.sems| && |k'.locks| == |k.locks|
            && (th.Done() ==> k'.threads[t] == th)
            && (k'.threads[t].pc == th.pc || (!th.Done() && k'.threads[t].pc == th.pc + 1 && !k'.threads[t].waited))
            && (k'.threads[t].pc == th.pc ==> k'.sems == k.sems)
            && (k'.threads[t].pc == th.pc + 1 ==>
                  match th.prog[th.pc]
                  case P(s) => k.sems[s] > 0 && k'.sems == k.sems[s := k.sems[s] - 1]
                  case V(s) => k'.sems == k.sems[s := k.sems[s] + 1]
                  case _ => k'.sems == k.sems)
  {
  }

  lemma RunBalanced(k: K, init: seq<nat>)
    requires WellFormed(k) && Running(k) && NoPanic(k) && Balanced(k, init)
    ensures Balanced(RunOp(k), init)
  {
    RunThreads(k);
    var t, k' := k.cur.value, RunOp(k);
    var th := k.threads[t];
    forall s | 0 <= s < |init| ensures k'.sems[s] + Total(k'.threads, s) == init[s] {
      TotalUpdate(k.threads, t, k'.threads[t], s);
      if k'.threads[t].pc == th.pc {
        assert Executed(k'.threads[t]) == Executed(th);
      } else {
        NetStep(th, s);
        assert Executed(k'.threads[t]) == Executed(th.(pc := th.pc + 1));
      }
    }
  }

  /** Switching, forking and scheduling leave the accounts alone. */
  lemma OtherBalanced(k: K, st: Step, init: seq<nat>)
    requires WellFormed(k) && Enabled(k, st) && !st.Run? && Balanced(k, init)
    ensures Balanced(Next(k, st), init)
  {
    var k' := Next(k, st);
    forall s | 0 <= s < |init| ensures k'.sems[s] + Total(k'.threads, s) == init[s] {
      if st.Schedule? {
        TotalUpdate(k.threads, k.runq[0], k'.threads[k.runq[0]], s);
      } else if st.Spawn? {
        assert k'.threads[..|k'.threads| - 1] == k.threads;
      }
    }
  }

  // ----- Sleepers are really blocked

  /** Where a sleeping thread is in its program, and why it cannot go on. */
  predicate Blocked(k: K, t: Tid) {
    && t < |k.threads|
    && var th := k.threads[t];
    && !th.Done()
    && match th.sleepaddr
       case SemAddr(s) => th.prog[th.pc] == P(s) && s < |k.sems| && k.sems[s] == 0
       case LockAddr(l) =>
         && l < |k.locks| && k.locks[l].held
         && (th.prog[th.pc] == Acquire(l) || (th.prog[th.pc].Wait? && th.prog[th.pc].l == l && th.waited))
       case CvAddr(c) => th.prog[th.pc].Wait? && th.prog[th.pc].c == c && th.waited
       case NullAddr => false
  }

  ghost predicate Sleeping(k: K) {
    forall t :: t in k.sleepers ==> Blocked(k, t)
  }

  /** Blocked depends only on the thread, the semaphores and the held flags. */
  lemma StillBlocked(k: K, k': K, t: Tid)
    requires Blocked(k, t) && t < |k'.threads| && k'.threads[t] == k.threads[t]
    requires match k.threads[t].sleepaddr
             case SemAddr(s) => s < |k'.sems| && k'.sems[s] == 0
             case LockAddr(l) => l < |k'.locks| && k'.locks[l].held
             case _ => true
    ensures Blocked(k', t)
  {
  }

  lemma WakeSleeping(k: K, a: Addr)
    ensures forall t :: t in WakeAll(k, a).sleepers ==> t in k.sleepers && !On(k.threads, t, a)
    ensures forall t :: t in WakeOne(k, a).sleepers ==> t in k.sleepers
  {
    MatchSplits(k.threads, k.sleepers, a);
    WakeOnePlaces(k, a);
  }

  lemma SemSleeping(k: K)
    requires WellFormed(k) && Conserved(k) && Running(k) && NoPanic(k) && Sleeping(k)
    requires var th := k.threads[k.cur.value]; !th.Done() && (th.prog[th.pc].P? || th.prog[th.pc].V?)
    ensures Sleeping(RunOp(k))
  {
    CurIsAlone(k);
    var t, k' := k.cur.value, RunOp(k);
    var th := k.threads[t];
    var s := th.prog[th.pc].s;
    if th.prog[th.pc].V? { WakeSleeping(SetSem(Advance(k), s, k.sems[s] + 1), SemAddr(s)); }
    forall u | u in k'.sleepers ensures Blocked(k', u) {
      if u != t { assert Blocked(k, u); StillBlocked(k, k', u); }
    }
  }

  lemma LockSleeping(k: K)
    requires WellFormed(k) && Conserved(k) && Running(k) && NoPanic(k) && Sleeping(k)
    requires var th := k.threads[k.cur.value]; !th.Done() && (th.prog[th.pc].Acquire? || th.prog[th.pc].Release?)
    ensures Sleeping(RunOp(k))
  {
    CurIsAlone(k);
    var t, k' := k.cur.value, RunOp(k);
    var th := k.threads[t];
    var l := th.prog[th.pc].l;
    WakeSleeping(SetLock(Advance(k), l, Lock(false, None)), LockAddr(l));
    forall u | u in k'.sleepers ensures Blocked(k', u) {
      if u != t { assert Blocked(k, u); StillBlocked(k, k', u); }
    }
  }

  lemma WaitSleeping(k: K)
    requires WellFormed(k) && Conserved(k) && Running(k) && NoPanic(k) && Sleeping(k)
    requires var th := k.threads[k.cur.value]; !th.Done() && th.prog[th.pc].Wait?
    ensures Sleeping(RunOp(k))
  {
    CurIsAlone(k);
    hide Conserved;
    var t, k' := k.cur.value, RunOp(k);
    var th := k.threads[t];
    var l := th.prog[th.pc].l;
    WakeSleeping(SetLock(k, l, Lock(false, None)), LockAddr(l));
    forall u | u in k'.sleepers ensures Blocked(k', u) {
      if u != t { assert Blocked(k, u); StillBlocked(k, k', u); }
    }
  }

  lemma SignalSleeping(k: K)
    requires WellFormed(k) && Conserved(k) && Running(k) && NoPanic(k) && Sleeping(k)
    requires var th := k.threads[k.cur.value]; !th.Done() && (th.prog[th.pc].Signal? || th.prog[th.pc].Broadcast?)
    ensures Sleeping(RunOp(k))
  {
    CurIsAlone(k);
    hide Conserved;
    var t, k' := k.cur.value, RunOp(k);
    var th := k.threads[t];
    WakeSleeping(Advance(k), CvAddr(th.prog[th.pc].c));
    forall u | u in k'.sleepers ensures Blocked(k', u) {
      assert Blocked(k, u);
      StillBlocked(k, k', u);
    }
  }

  lemma StepSleeping(k: K, st: Step)
    requires WellFormed(k) && Conserved(k) && Enabled(k, st) && Sleeping(k)
    ensures Sleeping(Next(k, st))
  {
    var k' := Next(k, st);
    if st.Run? && !k.threads[k.cur.value].Done() {
      var th := k.threads[k.cur.value];
      match th.prog[th.pc]
      case P(_) => SemSleeping(k);
      case V(_) => SemSleeping(k);
      case Acquire(_) => LockSleeping(k);
      case Release(_) => LockSleeping(k);
      case Wait(_, _) => WaitSleeping(k);
      case _ => SignalSleeping(k);
    } else {
      forall u | u in k'.sleepers ensures Blocked(k', u) {
        PlacesApart(k, u);
        assert Blocked(k, u);
        StillBlocked(k, k', u);
      }
    }
  }

  // ----- Lock ownership

  /** Who holds lock l after executing ops, read off the program alone. */
  predicate HoldsAfter(ops: seq<Op>, l: nat) {
    ops != [] &&
    var rest := HoldsAfter(ops[..|ops| - 1], l);
    match ops[|ops| - 1]
    case Acquire(l') => l' == l || rest
    case Release(l') => l' != l && rest
    case Wait(_, l') => l' == l || rest
    case _ => rest
  }

  /** th has acquired l and not released it; inside cv_wait it does not hold l. */
  predicate Holds(th: Thread, l: nat) {
    !(th.waited && th.pc < |th.prog| && th.prog[th.pc].Wait? && th.prog[th.pc].l == l) && HoldsAfter(Executed(th), l)
  }

  /** Thread t holds lock l exactly if the lock says so. */
  predicate HolderOk(k: K, t: Tid, l: nat)
    requires t < |k.threads| && l < |k.locks|
  {
    Holds(k.threads[t], l) <==> k.locks[l].held && k.locks[l].heldThread == Some(t)
  }

  /** A lock is held exactly by the thread that heldThread names. */
  ghost predicate LocksOk(k: K) {
    && (forall t, l :: 0 <= t < |k.threads| && 0 <= l < |k.locks| ==> HolderOk(k, t, l))
    && (forall l :: 0 <= l < |k.locks| && k.locks[l].held ==>
          k.locks[l].heldThread.Some? && k.locks[l].heldThread.value < |k.threads|)
  }

  /** What one operation does to the lock it names, and to the holders. */
  lemma HoldsStep(th: Thread, l: nat)
    requires th.pc < |th.prog|
    ensures Holds(th.(pc := th.pc + 1, waited := false), l)
         == match th.prog[th.pc]
            case Acquire(l') => l' == l || HoldsAfter(Executed(th), l)
            case Release(l') => l' != l && HoldsAfter(Executed(th), l)
            case Wait(_, l') => l' == l || HoldsAfter(Executed(th), l)
            case _ => HoldsAfter(Executed(th), l)
  {
    var ops := th.prog[..th.pc + 1];
    assert ops[..|ops| - 1] == th.prog[..th.pc];
  }

  /** The thread that runs. */
  lemma RunHolder(k: K, l: nat)
    requires WellFormed(k) && Running(k) && NoPanic(k) && l < |k.locks| && HolderOk(k, k.cur.value, l)
    ensures |RunOp(k).threads| == |k.threads| && |RunOp(k).locks| == |k.locks|
    ensures HolderOk(RunOp(k), k.cur.value, l)
  {
    RunThreads(k);
    var t, k' := k.cur.value, RunOp(k);
    var th := k.threads[t];
    if !th.Done() {
      HoldsStep(th, l);
      if k'.threads[t].pc == th.pc { assert Executed(k'.threads[t]) == Executed(th); }
    }
  }

  /** Any other thread. */
  lemma RunNotHolder(k: K, u: Tid, l: nat)
    requires WellFormed(k) && Running(k) && NoPanic(k) && l < |k.locks|
    requires u < |k.threads| && u != k.cur.value && HolderOk(k, u, l)
    ensures |RunOp(k).threads| == |k.threads| && |RunOp(k).locks| == |k.locks|
    ensures HolderOk(RunOp(k), u, l)
  {
    RunThreads(k);
  }

  lemma RunLocks(k: K)
    requires WellFormed(k) && Running(k) && NoPanic(k) && LocksOk(k)
    ensures LocksOk(RunOp(k))
  {
    RunThreads(k);
    var k' := RunOp(k);
    forall u, l | 0 <= u < |k'.threads| && 0 <= l < |k'.locks| ensures HolderOk(k', u, l) {
      assert HolderOk(k, u, l);
      if u == k.cur.value { RunHolder(k, l); } else { RunNotHolder(k, u, l); }
    }
  }

  lemma OtherLocks(k: K, st: Step)
    requires WellFormed(k) && Enabled(k, st) && !st.Run? && LocksOk(k)
    ensures LocksOk(Next(k, st))
  {
    var k' := Next(k, st);
    forall u, l | 0 <= u < |k'.threads| && 0 <= l < |k'.locks| ensures HolderOk(k', u, l) {
      if u < |k.threads| {
        assert HolderOk(k, u, l);
        assert Executed(k'.threads[u]) == Executed(k.threads[u]);
      }
    }
  }

  // ----- The invariant

  /** Threads that left the system finished their programs. */
  ghost predicate Finished(k: K) {
    forall t :: t in k.zombies || t in k.gone ==> t < |k.threads| && k.threads[t].Done()
  }

  ghost predicate ThreadsOk(k: K) {
    forall t :: 0 <= t < |k.threads| ==> ThreadOk(k, k.threads[t])
  }

  ghost predicate Inv(k: K, init: seq<nat>) {
    && ThreadsOk(k) && Conserved(k) && Balanced(k, init)
    && Sleeping(k) && LocksOk(k) && Finished(k)
  }

  lemma InvWellFormed(k: K)
    requires ThreadsOk(k) && Conserved(k)
    ensures WellFormed(k)
  {
    forall t | t in k.runq || t in k.sleepers || t in k.zombies ensures t < |k.threads| {
      PlacesApart(k, t);
    }
    if k.cur.Some? { CurIsAlone(k); }
  }

  lemma StepThreadsOk(k: K, st: Step)
    requires WellFormed(k) && Enabled(k, st)
    ensures ThreadsOk(Next(k, st))
  {
    var k' := Next(k, st);
    if st.Run? { RunThreads(k); }
    forall t | 0 <= t < |k'.threads| ensures ThreadOk(k', k'.threads[t]) {
      if t < |k.threads| { assert ThreadOk(k, k.threads[t]); }
    }
  }

  lemma StepFinished(k: K, st: Step)
    requires WellFormed(k) && Conserved(k) && Enabled(k, st) && Finished(k)
    ensures Finished(Next(k, st))
  {
    var k' := Next(k, st);
    if st.Run? { RunThreads(k); CurIsAlone(k); }
    if st.Schedule? { PlacesApart(k, k.runq[0]); }
  }

  lemma StepConserved(k: K, st: Step)
    requires WellFormed(k) && Conserved(k) && Enabled(k, st)
    ensures Conserved(Next(k, st))
  {
    hide Conserved;
    match st
    case Run => RunConserved(k);
    case Preempt => SwitchConserved(k, NullAddr);
    case Schedule => DispatchConserved(k);
    case Spawn(prog) => ForkConserved(k, prog);
  }

  /** Every step of every thread keeps the invariant. */
  lemma StepInv(k: K, st: Step, init: seq<nat>)
    requires Inv(k, init) && WellFormed(k) && Enabled(k, st)
    ensures Inv(Next(k, st), init)
  {
    StepThreadsOk(k, st);
    StepConserved(k, st);
    StepSleeping(k, st);
    StepFinished(k, st);
    if st.Run? {
      RunBalanced(k, init);
      RunLocks(k);
    } else {
      OtherBalanced(k, st, init);
      OtherLocks(k, st);
    }
  }

  lemma InitialInv(k: K)
    requires Initial(k)
    ensures Inv(k, k.sems)
  {
    forall s | 0 <= s < |k.sems| ensures k.sems[s] + Total(k.threads, s) == k.sems[s] {
      assert k.threads[..0] == [];
      assert Total(k.threads, s) == Total(k.threads[..0], s) + Net(Executed(k.threads[0]), s);
    }
  }

  /** k follows from k0 by some sequence of steps. */
  ghost predicate Reaches(k0: K, steps: seq<Step>, k: K)
    decreases |steps|
  {
    if steps == [] then k0 == k
    else WellFormed(k0) && Enabled(k0, steps[0]) && Reaches(Next(k0, steps[0]), steps[1..], k)
  }

  lemma {:induction false} ReachesInv(k0: K, steps: seq<Step>, k: K, init: seq<nat>)
    requires Inv(k0, init) && Reaches(k0, steps, k)
    ensures Inv(k, init) && WellFormed(k)
    decreases |steps|
  {
    InvWellFormed(k0);
    if steps != [] {
      StepInv(k0, steps[0], init);
      ReachesInv(Next(k0, steps[0]), steps[1..], k, init);
    }
  }

  // ----- What every run guarantees

  /** A semaphore's count is its initial value plus Vs minus completed Ps; a
      positive count or a free lock has no sleeper. */
  lemma NoLostWakeup(k0: K, steps: seq<Step>, k: K, t: Tid)
    requires Initial(k0) && Reaches(k0, steps, k)
    ensures forall s :: 0 <= s < |k.sems| ==> |k.sems| == |k0.sems| && k.sems[s] == k0.sems[s] - Total(k.threads, s)
    ensures forall s :: 0 <= s < |k.sems| && k.sems[s] > 0 && t in k.sleepers ==> !On(k.threads, t, SemAddr(s))
    ensures forall l :: 0 <= l < |k.locks| && !k.locks[l].held && t in k.sleepers ==> !On(k.threads, t, LockAddr(l))
  {
    InitialInv(k0);
    ReachesInv(k0, steps, k, k0.sems);
    if t in k.sleepers { assert Blocked(k, t); }
  }

  /** At most one thread is between acquiring and releasing a lock. */
  lemma MutualExclusion(k0: K, steps: seq<Step>, k: K, l: nat, t: Tid, u: Tid)
    requires Initial(k0) && Reaches(k0, steps, k) && l < |k.locks|
    requires t < |k.threads| && u < |k.threads| && Holds(k.threads[t], l) && Holds(k.threads[u], l)
    ensures t == u && k.locks[l] == Lock(true, Some(t))
  {
    InitialInv(k0);
    ReachesInv(k0, steps, k, k0.sems);
    assert HolderOk(k, t, l) && HolderOk(k, u, l);
  }

  /** Every created, undestroyed thread is in exactly one place. */
  lemma ThreadsConserved(k0: K, steps: seq<Step>, k: K, t: Tid)
    requires Initial(k0) && Reaches(k0, steps, k)
    ensures Places(k)[t] == if t < |k.threads| && t !in k.gone then 1 else 0
    ensures k.numthreads == |CurPlace(k)| + |k.runq| + |k.sleepers|
    ensures t in k.gone || t in k.zombies ==> t < |k.threads| && k.threads[t].Done()
  {
    InitialInv(k0);
    ReachesInv(k0, steps, k, k0.sems);
  }

  /** cv_wait gives up the lock and goes to sleep in one step, and is back only
      with the lock held. */
  lemma CvWaitAtomic(k0: K, steps: seq<Step>, k: K)
    requires Initial(k0) && Reaches(k0, steps, k) && WellFormed(k) && Enabled(k, Run)
    requires var th := k.threads[k.cur.value]; !th.Done() && th.prog[th.pc].Wait?
    ensures var t := k.cur.value;
            var th, k' := k.threads[t], RunOp(k);
            var c, l := th.prog[th.pc].c, th.prog[th.pc].l;
            && (!th.waited ==> t in k'.sleepers && On(k'.threads, t, CvAddr(c)) && !k'.locks[l].held)
            && (k'.threads[t].pc == th.pc + 1 ==>
                  th.waited && Holds(k'.threads[t], l) && k'.locks[l] == Lock(true, Some(t)))
  {
    InitialInv(k0);
    ReachesInv(k0, steps, k, k0.sems);
    RunThreads(k);
    var th := k.threads[k.cur.value];
    assert HolderOk(k, k.cur.value, th.prog[th.pc].l);
    RunHolder(k, th.prog[th.pc].l);
    HoldsStep(th, th.prog[th.pc].l);
  }
}
