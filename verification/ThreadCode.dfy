/** thread.c, scheduler.c and synch.c as code over the kernel's global variables,
    proved against the state machine of Kernel. */
module ThreadCode {
  import opened Kernel
  import opened KernelInv

  datatype NextState = Ready | Sleep | Zombie

  /** One pass of the loop of thread_wakeup, on the abstract lists. */
  lemma WakeStep(ths: seq<Thread>, all: seq<Tid>, j: nat, a: Addr)
    requires j < |all|
    ensures all[j..] == [all[j]] + all[j + 1..]
    ensures On(ths, all[j], a) ==> Match(ths, all[..j + 1], a) == Match(ths, all[..j], a) + [all[j]]
                                   && Others(ths, all[..j + 1], a) == Others(ths, all[..j], a)
    ensures !On(ths, all[j], a) ==> Match(ths, all[..j + 1], a) == Match(ths, all[..j], a)
                                    && Others(ths, all[..j + 1], a) == Others(ths, all[..j], a) + [all[j]]
  {
    assert all[..j + 1][..j] == all[..j];
  }

  /** Removing the element between two lists. */
  lemma RemoveMiddle<T>(a: seq<T>, x: T, b: seq<T>)
    ensures var s := a + ([x] + b);
            s[..|a|] + s[|a| + 1..] == a + b && s == (a + [x]) + b && s[|a|] == x
  {
  }

  /** thread_wakeup has looked at the first j of the sleepers `all` and is at place i. */
  ghost predicate Scanned(ths: seq<Thread>, all: seq<Tid>, a: Addr, j: nat, i: nat, sl: seq<Tid>, woken: seq<Tid>) {
    && j <= |all| && i == |Others(ths, all[..j], a)| && |sl| - i == |all| - j
    && sl == Others(ths, all[..j], a) + all[j..] && woken == Match(ths, all[..j], a)
  }

  lemma ScanStart(ths: seq<Thread>, all: seq<Tid>, a: Addr)
    ensures Scanned(ths, all, a, 0, 0, all, [])
  {
    assert all[..0] == [] && all[0..] == all;
  }

  lemma ScanStep(ths: seq<Thread>, all: seq<Tid>, a: Addr, j: nat, i: nat, sl: seq<Tid>, woken: seq<Tid>)
    requires Scanned(ths, all, a, j, i, sl, woken) && i < |sl|
    ensures j < |all| && sl[i] == all[j]
    ensures if On(ths, sl[i], a) then Scanned(ths, all, a, j + 1, i, sl[..i] + sl[i + 1..], woken + [sl[i]])
            else Scanned(ths, all, a, j + 1, i + 1, sl, woken)
  {
    hide Match;
    hide Others;
    hide On;
    WakeStep(ths, all, j, a);
    RemoveMiddle(Others(ths, all[..j], a), all[j], all[j + 1..]);
  }

  lemma ScanEnd(ths: seq<Thread>, all: seq<Tid>, a: Addr, j: nat, i: nat, sl: seq<Tid>, woken: seq<Tid>)
    requires Scanned(ths, all, a, j, i, sl, woken) && i >= |sl|
    ensures sl == Others(ths, all, a) && woken == Match(ths, all, a)
  {
    hide Match;
    hide Others;
    assert all[..j] == all && all[j..] == [];
  }

  class System {
    var threads: seq<Thread>
    var curthread: Option<Tid>
    var runqueue: seq<Tid>
    var sleepers: seq<Tid>
    var zombies: seq<Tid>
    var numthreads: int
    var sems: seq<nat>
    var locks: seq<Lock>
    ghost var gone: set<Tid>

    ghost function State(): K
      reads this
    {
      K(threads, curthread, runqueue, sleepers, zombies, gone, numthreads, sems, locks)
    }

    /** thread_wakeup: scan the sleepers, moving matches while scanning. */
    method ThreadWakeup(a: Addr)
      requires WellFormed(State())
      modifies this`sleepers, this`runqueue
      ensures State() == WakeAll(old(State()), a)
    {
      hide Match;
      hide Others;
      hide Scanned;
      ghost var all, woken := sleepers, [];
      ghost var j := 0;
      var i := 0;
      ScanStart(threads, all, a);
      while i < |sleepers|
        invariant 0 <= i && 0 <= j <= |all| && Scanned(threads, all, a, j, i, sleepers, woken)
        invariant runqueue == old(runqueue) + woken
        decreases |all| - j
      {
        ScanStep(threads, all, a, j, i, sleepers, woken);
        var t := sleepers[i];
        assert t in all;
        if threads[t].sleepaddr == a {
          sleepers := sleepers[..i] + sleepers[i + 1..];
          runqueue := runqueue + [t];
          woken := woken + [t];
        } else {
          i := i + 1;
        }
        j := j + 1;
      }
      ScanEnd(threads, all, a, j, i, sleepers, woken);
    }

    /** thread_wakeupOne: stop after the first match. */
    method ThreadWakeupOne(a: Addr)
      requires WellFormed(State())
      modifies this`sleepers, this`runqueue
      ensures State() == WakeOne(old(State()), a)
    {
      var i := 0;
      while i < |sleepers|
        invariant 0 <= i <= |sleepers| && sleepers == old(sleepers) && runqueue == old(runqueue)
        invariant forall j :: 0 <= j < i ==> !On(threads, sleepers[j], a)
      {
        var t := sleepers[i];
        assert t in sleepers;
        if threads[t].sleepaddr == a {
          assert FirstMatch(threads, sleepers, a) == i;
          sleepers := sleepers[..i] + sleepers[i + 1..];
          runqueue := runqueue + [t];
          return;
        }
        i := i + 1;
      }
    }

    /** mi_switch, up to the call of the scheduler. */
    method Stash(nextstate: NextState)
      requires Running(State())
      modifies this`curthread, this`runqueue, this`sleepers, this`zombies
      ensures State() == old(State()).(cur := None, runq := runqueue, sleepers := sleepers, zombies := zombies)
      ensures runqueue == old(runqueue) + (if nextstate.Ready? then [old(curthread).value] else [])
      ensures sleepers == old(sleepers) + (if nextstate.Sleep? then [old(curthread).value] else [])
      ensures zombies == old(zombies) + (if nextstate.Zombie? then [old(curthread).value] else [])
    {
      var cur := curthread.value;
      curthread := None;
      if nextstate == Ready {
        runqueue := runqueue + [cur];
      } else if nextstate == Sleep {
        sleepers := sleepers + [cur];
      } else {
        zombies := zombies + [cur];
      }
    }

    /** scheduler(), the context switch, and what the chosen thread does next. */
    method Resume()
      requires WellFormed(State()) && Conserved(State()) && curthread.None? && runqueue != [] && runqueue[0] < |threads|
      modifies this
      ensures State() == Dispatch(old(State()))
    {
      DispatchConserved(State());
      var next := runqueue[0];
      runqueue := runqueue[1..];
      curthread := Some(next);
      if threads[next].started {
        Exorcise();
      }
      threads := threads[next := threads[next].(started := true, sleepaddr := NullAddr)];
    }

    /** exorcise: destroy every zombie; none is the current thread. */
    method Exorcise()
      requires curthread.Some? && curthread.value !in zombies
      modifies this`zombies, this`gone
      ensures zombies == [] && gone == old(gone) + (set z | z in old(zombies))
    {
      var i := 0;
      while i < |zombies|
        invariant 0 <= i <= |zombies| && zombies == old(zombies)
        invariant gone == old(gone) + (set z | z in zombies[..i])
      {
        var z := zombies[i];
        if Some(z) == curthread {
          assert false;  // assert(z != curthread)
        }
        gone := gone + {z};
        assert zombies[..i + 1] == zombies[..i] + [z];
        i := i + 1;
      }
      assert zombies[..i] == zombies;
      zombies := [];
    }

    method ThreadSleep(a: Addr)
      requires Running(State())
      modifies this
      ensures State() == SleepOn(old(State()), a)
    {
      var t := curthread.value;
      threads := threads[t := threads[t].(sleepaddr := a)];
      Stash(Sleep);
    }

    method ThreadYield()
      requires Running(State())
      modifies this
      ensures State() == Yield(old(State()))
    {
      Stash(Ready);
    }

    method ThreadExit()
      requires Running(State()) && Conserved(State())
      modifies this
      ensures State() == Exit(old(State()))
    {
      if numthreads <= 0 {
        assert false;  // assert(numthreads > 0)
      }
      numthreads := numthreads - 1;
      Stash(Zombie);
    }

    method ThreadFork(prog: seq<Op>)
      modifies this
      ensures State() == Fork(old(State()), prog)
    {
      runqueue := runqueue + [|threads|];
      threads := threads + [Thread(prog, 0, false, false, NullAddr)];
      numthreads := numthreads + 1;
    }

    /** Return from the primitive that the current thread was in. */
    method Return()
      requires Running(State())
      modifies this`threads
      ensures State() == Advance(old(State()))
    {
      var t := curthread.value;
      threads := threads[t := threads[t].(pc := threads[t].pc + 1, waited := false)];
    }

    /** P: one pass of its while loop. */
    method SemP(s: nat)
      requires Running(State()) && s < |sems|
      modifies this
      ensures State() == if old(sems)[s] == 0 then SleepOn(old(State()), SemAddr(s))
                         else SetSem(Advance(old(State())), s, old(sems)[s] - 1)
    {
      if sems[s] == 0 {
        ThreadSleep(SemAddr(s));
      } else {
        sems := sems[s := sems[s] - 1];
        Return();
      }
    }

    method SemV(s: nat)
      requires WellFormed(State()) && Running(State()) && s < |sems|
      modifies this
      ensures State() == WakeAll(SetSem(old(State()), s, old(sems)[s] + 1), SemAddr(s))
    {
      sems := sems[s := sems[s] + 1];
      ThreadWakeup(SemAddr(s));
    }

    /** lock_acquire: one pass of its while loop. */
    method LockAcquire(l: nat)
      requires Running(State()) && l < |locks|
      modifies this
      ensures State() == AcquirePass(old(State()), l)
    {
      if locks[l].held {
        ThreadSleep(LockAddr(l));
      } else {
        locks := locks[l := Lock(true, curthread)];
        Return();
      }
    }

    method LockRelease(l: nat)
      requires WellFormed(State()) && l < |locks|
      modifies this
      ensures State() == Unlock(old(State()), l)
    {
      if curthread == locks[l].heldThread {
        locks := locks[l := Lock(false, None)];
        ThreadWakeup(LockAddr(l));
      }
    }

    /** cv_wait up to its thread_sleep, with interrupts off throughout. */
    method CvWait(c: nat, l: nat)
      requires WellFormed(State()) && Running(State()) && l < |locks| && DoIHold(State(), l)
      modifies this
      ensures var t := old(curthread).value;
              State() == SleepOn(SetThread(Unlock(old(State()), l), t, old(threads)[t].(waited := true)), CvAddr(c))
    {
      LockRelease(l);
      var t := curthread.value;
      threads := threads[t := threads[t].(waited := true)];
      ThreadSleep(CvAddr(c));
    }

    /** The current thread runs its next operation. */
    method RunCurrent()
      requires WellFormed(State()) && Conserved(State()) && Running(State()) && NoPanic(State())
      modifies this
      ensures State() == RunOp(old(State()))
    {
      var t := curthread.value;
      var th := threads[t];
      if th.pc >= |th.prog| {
        ThreadExit();
        return;
      }
      match th.prog[th.pc]
      case P(s) => SemP(s);
      case V(s) => ReturnFrom(); SemV(s);
      case Acquire(l) => LockAcquire(l);
      case Release(l) => ReturnFrom(); LockRelease(l);
      case Wait(c, l) => if th.waited { LockAcquire(l); } else { CvWait(c, l); }
      case Signal(c, l) => ReturnFrom(); ThreadWakeupOne(CvAddr(c));
      case Broadcast(c, l) => ReturnFrom(); ThreadWakeup(CvAddr(c));
    }

    /** The program counter of a primitive that cannot sleep moves with its step. */
    method ReturnFrom()
      requires WellFormed(State()) && Running(State()) && !threads[curthread.value].Done()
      modifies this`threads
      ensures State() == Advance(old(State())) && WellFormed(State()) && Running(State())
    {
      Return();
    }
  }
}
