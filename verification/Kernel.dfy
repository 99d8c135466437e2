/** Threads, semaphores, locks and condition variables as one state machine.

    Interrupts are off inside every primitive, so the machine's steps are: the
    current thread runs its next operation (or goes to sleep in it), is preempted,
    or forks; or the scheduler picks the head of the run queue. A thread is a
    program of synchronization operations and a program counter. */
module Kernel {

  datatype Option<+T> = None | Some(value: T)

  type Tid = nat

  datatype Addr = NullAddr | SemAddr(s: nat) | LockAddr(l: nat) | CvAddr(c: nat)

  datatype Op =
    | P(s: nat) | V(s: nat)
    | Acquire(l: nat) | Release(l: nat)
    | Wait(c: nat, l: nat) | Signal(c: nat, l: nat) | Broadcast(c: nat, l: nat)

  /** `waited`: inside cv_wait, past the thread_sleep. `started`: has run before. */
  datatype Thread = Thread(prog: seq<Op>, pc: nat, waited: bool, started: bool, sleepaddr: Addr) {
    predicate Done() { pc >= |prog| }
  }

  datatype Lock = Lock(held: bool, heldThread: Option<Tid>)

  /** `gone` holds the destroyed threads, kept in `threads` for their history. */
  datatype K = K(threads: seq<Thread>, cur: Option<Tid>, runq: seq<Tid>, sleepers: seq<Tid>,
                 zombies: seq<Tid>, gone: set<Tid>, numthreads: int,
                 sems: seq<nat>, locks: seq<Lock>)

  // ----- Well-formed states

  predicate OpOk(k: K, op: Op) {
    match op
    case P(s) => s < |k.sems|
    case V(s) => s < |k.sems|
    case Acquire(l) => l < |k.locks|
    case Release(l) => l < |k.locks|
    case Wait(c, l) => l < |k.locks|
    case Signal(c, l) => l < |k.locks|
    case Broadcast(c, l) => l < |k.locks|
  }

  predicate ThreadOk(k: K, th: Thread) {
    && th.pc <= |th.prog|
    && (forall i :: 0 <= i < |th.prog| ==> OpOk(k, th.prog[i]))
    && (th.waited ==> th.pc < |th.prog| && th.prog[th.pc].Wait?)
  }

  predicate WellFormed(k: K) {
    && (forall t :: 0 <= t < |k.threads| ==> ThreadOk(k, k.threads[t]))
    && (k.cur.Some? ==> k.cur.value < |k.threads|)
    && (forall t :: t in k.runq ==> t < |k.threads|)
    && (forall t :: t in k.sleepers ==> t < |k.threads|)
    && (forall t :: t in k.zombies ==> t < |k.threads|)
  }

  // ----- Scheduling (thread.c, scheduler.c)

  predicate Running(k: K) { k.cur.Some? && k.cur.value < |k.threads| }

  predicate On(ths: seq<Thread>, t: Tid, a: Addr) { t < |ths| && ths[t].sleepaddr == a }

  /** The sleepers on address a, in sleep order. */
  function Match(ths: seq<Thread>, sl: seq<Tid>, a: Addr): seq<Tid> {
    if sl == [] then []
    else
      var rest, t := Match(ths, sl[..|sl| - 1], a), sl[|sl| - 1];
      if On(ths, t, a) then rest + [t] else rest
  }

  function Others(ths: seq<Thread>, sl: seq<Tid>, a: Addr): seq<Tid> {
    if sl == [] then []
    else
      var rest, t := Others(ths, sl[..|sl| - 1], a), sl[|sl| - 1];
      if On(ths, t, a) then rest else rest + [t]
  }

  /** thread_wakeup: every sleeper on a goes to the run queue tail, in sleep order. */
  function WakeAll(k: K, a: Addr): K {
    k.(runq := k.runq + Match(k.threads, k.sleepers, a),
       sleepers := Others(k.threads, k.sleepers, a))
  }

  /** Index of the earliest sleeper on a, or |sl|. */
  function FirstMatch(ths: seq<Thread>, sl: seq<Tid>, a: Addr): (i: nat)
    ensures i <= |sl|
    ensures i < |sl| ==> On(ths, sl[i], a)
    ensures forall j :: 0 <= j < i ==> !On(ths, sl[j], a)
  {
    if sl == [] then 0
    else
      var i := FirstMatch(ths, sl[..|sl| - 1], a);
      if i < |sl| - 1 then i
      else if On(ths, sl[|sl| - 1], a) then |sl| - 1 else |sl|
  }

  /** thread_wakeupOne: only the earliest sleeper on a. */
  function WakeOne(k: K, a: Addr): K {
    var i := FirstMatch(k.threads, k.sleepers, a);
    if i == |k.sleepers| then k
    else k.(runq := k.runq + [k.sleepers[i]], sleepers := k.sleepers[..i] + k.sleepers[i + 1..])
  }

  function SetThread(k: K, t: Tid, th: Thread): K
    requires t < |k.threads|
  {
    k.(threads := k.threads[t := th])
  }

  /** thread_sleep: the current thread goes to the end of the sleepers. */
  function SleepOn(k: K, a: Addr): K
    requires Running(k)
  {
    var t := k.cur.value;
    SetThread(k, t, k.threads[t].(sleepaddr := a)).(sleepers := k.sleepers + [t], cur := None)
  }

  /** thread_yield, also what a timer interrupt does. */
  function Yield(k: K): K
    requires k.cur.Some?
  {
    k.(runq := k.runq + [k.cur.value], cur := None)
  }

  /** thread_exit. */
  function Exit(k: K): K
    requires k.cur.Some?
  {
    k.(zombies := k.zombies + [k.cur.value], numthreads := k.numthreads - 1, cur := None)
  }

  /** scheduler() and the code after the context switch: a thread that has run
      before exorcises the zombies; a new thread does not. */
  function Dispatch(k: K): K
    requires k.cur.None? && k.runq != [] && k.runq[0] < |k.threads|
  {
    var t := k.runq[0];
    var k' := SetThread(k, t, k.threads[t].(started := true, sleepaddr := NullAddr)).(cur := Some(t),
      runq := k.runq[1..]);
    if k.threads[t].started then k'.(zombies := [], gone := k.gone + (set z | z in k.zombies)) else k'
  }

  /** thread_fork of a thread running prog. */
  function Fork(k: K, prog: seq<Op>): K {
    k.(threads := k.threads + [Thread(prog, 0, false, false, NullAddr)],
       runq := k.runq + [|k.threads|], numthreads := k.numthreads + 1)
  }

  // ----- Operations (synch.c)

  function Advance(k: K): K
    requires Running(k)
  {
    var t := k.cur.value;
    SetThread(k, t, k.threads[t].(pc := k.threads[t].pc + 1, waited := false))
  }

  function SetSem(k: K, s: nat, v: nat): K
    requires s < |k.sems|
  {
    k.(sems := k.sems[s := v])
  }

  function SetLock(k: K, l: nat, v: Lock): K
    requires l < |k.locks|
  {
    k.(locks := k.locks[l := v])
  }

  /** lock_acquire: one pass of its while loop. */
  function AcquirePass(k: K, l: nat): K
    requires Running(k) && l < |k.locks|
  {
    if k.locks[l].held then SleepOn(k, LockAddr(l))
    else SetLock(Advance(k), l, Lock(true, k.cur))
  }

  /** lock_release, which does nothing unless the caller is heldThread. */
  function Unlock(k: K, l: nat): K
    requires l < |k.locks|
  {
    if k.cur == k.locks[l].heldThread then WakeAll(SetLock(k, l, Lock(false, None)), LockAddr(l)) else k
  }

  predicate DoIHold(k: K, l: nat)
    requires l < |k.locks|
  {
    k.cur == k.locks[l].heldThread
  }

  /** The assertions of the cv functions. */
  predicate NoPanic(k: K)
    requires WellFormed(k) && Running(k)
  {
    var th := k.threads[k.cur.value];
    th.Done() ||
    match th.prog[th.pc]
    case Wait(c, l) => th.waited || DoIHold(k, l)
    case Signal(c, l) => DoIHold(k, l)
    case Broadcast(c, l) => DoIHold(k, l)
    case _ => true
  }

  /** The current thread runs its next operation, or sleeps in it, or exits. */
  function RunOp(k: K): K
    requires WellFormed(k) && Running(k) && NoPanic(k)
  {
    var t := k.cur.value;
    var th := k.threads[t];
    if th.Done() then Exit(k)
    else match th.prog[th.pc]
      case P(s) => if k.sems[s] == 0 then SleepOn(k, SemAddr(s)) else SetSem(Advance(k), s, k.sems[s] - 1)
      case V(s) => WakeAll(SetSem(Advance(k), s, k.sems[s] + 1), SemAddr(s))
      case Acquire(l) => AcquirePass(k, l)
      case Release(l) => Unlock(Advance(k), l)
      case Wait(c, l) =>
        if th.waited then AcquirePass(k, l)
        else SleepOn(SetThread(Unlock(k, l), t, th.(waited := true)), CvAddr(c))
      case Signal(c, l) => WakeOne(Advance(k), CvAddr(c))
      case Broadcast(c, l) => WakeAll(Advance(k), CvAddr(c))
  }

  datatype Step = Run | Preempt | Schedule | Spawn(prog: seq<Op>)

  predicate Enabled(k: K, st: Step)
    requires WellFormed(k)
  {
    match st
    case Run => Running(k) && NoPanic(k)
    case Preempt => k.cur.Some?
    case Schedule => k.cur.None? && k.runq != [] && k.runq[0] < |k.threads|
    case Spawn(prog) => k.cur.Some? && forall i :: 0 <= i < |prog| ==> OpOk(k, prog[i])
  }

  function Next(k: K, st: Step): K
    requires WellFormed(k) && Enabled(k, st)
  {
    match st
    case Run => RunOp(k)
    case Preempt => Yield(k)
    case Schedule => Dispatch(k)
    case Spawn(prog) => Fork(k, prog)
  }

  /** thread_bootstrap: one running thread. heldThread of a new lock is not set,
      so it starts as anything. */
  predicate Initial(k: K) {
    && |k.threads| == 1 && k.cur == Some(0) && k.runq == [] && k.sleepers == [] && k.zombies == [] && k.gone == {}
    && k.numthreads == 1
    && k.threads[0].pc == 0 && !k.threads[0].waited && k.threads[0].started
    && ThreadOk(k, k.threads[0])
    && forall l :: 0 <= l < |k.locks| ==> !k.locks[l].held
  }
}
