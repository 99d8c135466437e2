/** The intersection of asst1: cars as programs over five kernel semaphores. */
module Stoplight {
  import opened Kernel
  import opened KernelInv

  // The quadrants in driving order, then the entrance.
  const NW: nat := 0
  const SW: nat := 1
  const SE: nat := 2
  const NE: nat := 3
  const ENTRANCE: nat := 4

  datatype Direction = North | East | South | West
  datatype Turn = Straight | Left | Right

  function GoStraight(d: Direction): seq<Op> {
    match d
    case North => [P(NW), P(SW), V(NW), V(SW)]
    case East => [P(NE), P(NW), V(NE), V(NW)]
    case South => [P(SE), P(NE), V(SE), V(NE)]
    case West => [P(SW), P(SE), V(SW), V(SE)]
  }

  function TurnLeft(d: Direction): seq<Op> {
    match d
    case North => [P(NW), P(SW), V(NW), P(SE), V(SW), V(SE)]
    case East => [P(NE), P(NW), V(NE), P(SW), V(NW), V(SW)]
    case South => [P(SE), P(NE), V(SE), P(NW), V(NE), V(NW)]
    case West => [P(SW), P(SE), V(SW), P(NE), V(SE), V(NE)]
  }

  function TurnRight(d: Direction): seq<Op> {
    match d
    case North => [P(NW), V(NW)]
    case East => [P(NE), V(NE)]
    case South => [P(SE), V(SE)]
    case West => [P(SW), V(SW)]
  }

  function ApproachIntersection(d: Direction, turn: Turn): seq<Op> {
    [P(ENTRANCE)]
    + (match turn case Straight => GoStraight(d) case Left => TurnLeft(d) case Right => TurnRight(d))
    + [V(ENTRANCE)]
  }

  /** A thread of the system: a car, or one that does not touch the semaphores. */
  ghost predicate CarOrIdle(prog: seq<Op>) {
    prog == [] || exists d, turn :: prog == ApproachIntersection(d, turn)
  }

  /** createcars(): the semaphores as created. */
  const SEMS: seq<nat> := [1, 1, 1, 1, 3]

  /** The quadrant after q in driving order. */
  function After(q: nat): nat { if q == NE then NW else q + 1 }

  predicate InQuadrant(th: Thread, q: nat) { Net(Executed(th), q) == 1 }
  predicate Inside(th: Thread) { Net(Executed(th), ENTRANCE) == 1 }

  // ----- Where a car can be

  lemma NetPrefix(prog: seq<Op>, j: nat, s: nat)
    requires j < |prog|
    ensures Net(prog[..j + 1], s) == Net(prog[..j], s) + Delta(prog[j], s)
  {
    assert prog[..j + 1][..j] == prog[..j];
  }

  /** What a car at pc holds: the three shapes of program, from quadrant q on. */
  predicate CarAt(prog: seq<Op>, pc: nat)
    requires pc <= |prog|
  {
    && (forall s :: 0 <= s < 5 ==> 0 <= Net(prog[..pc], s) <= 1)
    && (pc == |prog| ==> forall s :: 0 <= s < 5 ==> Net(prog[..pc], s) == 0)
    && (pc < |prog| ==>
          match prog[pc]
          case P(s) =>
            && s < 5
            && (s == ENTRANCE ==> forall q :: 0 <= q < 5 ==> Net(prog[..pc], q) == 0)
            && (s != ENTRANCE ==>
                  && Net(prog[..pc], ENTRANCE) == 1
                  && forall q :: 0 <= q < 4 && Net(prog[..pc], q) == 1 ==> s == After(q))
          case V(s) => s < 5
          case _ => false)
  }

  // The shapes of the programs for a car that enters at quadrant q.

  function RightShape(q: nat): seq<Op> {
    [P(ENTRANCE), P(q), V(q), V(ENTRANCE)]
  }

  function StraightShape(q: nat): seq<Op> {
    var q1 := After(q);
    [P(ENTRANCE), P(q), P(q1), V(q), V(q1), V(ENTRANCE)]
  }

  function LeftShape(q: nat): seq<Op> {
    var q1, q2 := After(q), After(After(q));
    [P(ENTRANCE), P(q), P(q1), V(q), P(q2), V(q1), V(q2), V(ENTRANCE)]
  }

  function Entry(d: Direction): nat {
    match d case North => NW case East => NE case South => SE case West => SW
  }

  /** Every car crosses the quadrants in the same circular order. */
  lemma Shapes(d: Direction, turn: Turn)
    ensures ApproachIntersection(d, turn)
         == match turn
            case Right => RightShape(Entry(d))
            case Straight => StraightShape(Entry(d))
            case Left => LeftShape(Entry(d))
  {
  }

  // ----- The way through

  /** The side to which a car leaves. */
  function Destination(d: Direction, turn: Turn): Direction {
    match turn
    case Straight => (match d case North => South case East => West case South => North case West => East)
    case Left => (match d case North => East case East => South case South => West case West => North)
    case Right => (match d case North => West case East => North case South => East case West => South)
  }

  /** The quadrant lies at this side of the intersection. */
  predicate AtSide(q: nat, side: Direction) {
    match side
    case North => q == NW || q == NE
    case East => q == NE || q == SE
    case South => q == SE || q == SW
    case West => q == SW || q == NW
  }

  /** A car comes in at its side and goes out at the side of its destination, through the
      quadrant there that cars coming from that side do not enter by. */
  lemma Routes(d: Direction, turn: Turn)
    ensures var prog, to := ApproachIntersection(d, turn), Destination(d, turn);
            && |prog| >= 4 && prog[0] == P(ENTRANCE) && prog[|prog| - 1] == V(ENTRANCE)
            && prog[1].P? && AtSide(prog[1].s, d)
            && prog[|prog| - 2].V? && AtSide(prog[|prog| - 2].s, to)
            && forall other :: prog[|prog| - 2].s != ApproachIntersection(to, other)[1].s
  {
  }

  function Bit(b: bool): int { if b then 1 else 0 }

  lemma {:induction false} RightNet(q: nat, pc: nat, s: nat)
    requires q < 4 && pc <= 4
    ensures Net(RightShape(q)[..pc], s) == Bit(s == ENTRANCE && 1 <= pc < 4) + Bit(s == q && 2 <= pc < 3)
  {
    if pc > 0 {
      RightNet(q, pc - 1, s);
      NetPrefix(RightShape(q), pc - 1, s);
    }
  }

  lemma {:induction false} StraightNet(q: nat, pc: nat, s: nat)
    requires q < 4 && pc <= 6
    ensures Net(StraightShape(q)[..pc], s)
         == Bit(s == ENTRANCE && 1 <= pc < 6) + Bit(s == q && 2 <= pc < 4) + Bit(s == After(q) && 3 <= pc < 5)
  {
    if pc > 0 {
      StraightNet(q, pc - 1, s);
      NetPrefix(StraightShape(q), pc - 1, s);
    }
  }

  lemma {:induction false} LeftNet(q: nat, pc: nat, s: nat)
    requires q < 4 && pc <= 8
    ensures Net(LeftShape(q)[..pc], s)
         == Bit(s == ENTRANCE && 1 <= pc < 8) + Bit(s == q && 2 <= pc < 4)
            + Bit(s == After(q) && 3 <= pc < 6) + Bit(s == After(After(q)) && 5 <= pc < 7)
  {
    if pc > 0 {
      LeftNet(q, pc - 1, s);
      NetPrefix(LeftShape(q), pc - 1, s);
    }
  }

  lemma RightPlaces(q: nat, pc: nat)
    requires q < 4 && pc <= 4
    ensures CarAt(RightShape(q), pc)
  {
    forall s { RightNet(q, pc, s); }
  }

  lemma StraightPlaces(q: nat, pc: nat)
    requires q < 4 && pc <= 6
    ensures CarAt(StraightShape(q), pc)
  {
    forall s { StraightNet(q, pc, s); }
  }

  lemma LeftPlaces(q: nat, pc: nat)
    requires q < 4 && pc <= 8
    ensures CarAt(LeftShape(q), pc)
  {
    forall s { LeftNet(q, pc, s); }
  }

  /** At every point of every program a car holds at most one unit of each
      semaphore, and waits for a quadrant holding only the one before it. */
  lemma CarPlaces(d: Direction, turn: Turn, pc: nat)
    requires pc <= |ApproachIntersection(d, turn)|
    ensures CarAt(ApproachIntersection(d, turn), pc)
  {
    Shapes(d, turn);
    match turn
    case Right => RightPlaces(Entry(d), pc);
    case Straight => StraightPlaces(Entry(d), pc);
    case Left => LeftPlaces(Entry(d), pc);
  }

  // ----- Counting cars

  ghost predicate NoneNegative(ths: seq<Thread>, s: nat) {
    forall t :: 0 <= t < |ths| ==> Net(Executed(ths[t]), s) >= 0
  }

  ghost predicate HeldByAll(ths: seq<Thread>, s: nat, idx: set<nat>) {
    forall t :: t in idx ==> t < |ths| && Net(Executed(ths[t]), s) >= 1
  }

  /** All but the last thread. */
  lemma FrontHolds(ths: seq<Thread>, s: nat, idx: set<nat>)
    requires ths != [] && NoneNegative(ths, s) && HeldByAll(ths, s, idx)
    ensures var n := |ths| - 1;
            && NoneNegative(ths[..n], s) && HeldByAll(ths[..n], s, idx - {n})
            && Net(Executed(ths[n]), s) >= if n in idx then 1 else 0
  {
    hide Net;
    hide Executed;
    var n := |ths| - 1;
    forall t | t in idx - {n} ensures t < n && Net(Executed(ths[..n][t]), s) >= 1 {
      assert t in idx && ths[..n][t] == ths[t];
    }
  }

  /** Semaphore s is held by at least the threads in idx. */
  lemma {:induction false} TotalAtLeast(ths: seq<Thread>, s: nat, idx: set<nat>)
    requires NoneNegative(ths, s) && HeldByAll(ths, s, idx)
    ensures Total(ths, s) >= |idx|
  {
    hide Net;
    hide Executed;
    if ths == [] {
      NoMembers(idx);
    } else {
      hide NoneNegative;
      hide HeldByAll;
      var n := |ths| - 1;
      FrontHolds(ths, s, idx);
      TotalAtLeast(ths[..n], s, idx - {n});
      WithoutOne(idx, n);
    }
  }

  lemma NoMembers(idx: set<nat>)
    requires forall t :: t !in idx
    ensures |idx| == 0
  {
    assert idx == {};
  }

  lemma WithoutOne(idx: set<nat>, n: nat)
    ensures |idx - {n}| == if n in idx then |idx| - 1 else |idx|
  {
    if n in idx { assert idx == (idx - {n}) + {n}; } else { assert idx - {n} == idx; }
  }

  /** A semaphore that is short of s has a holder. */
  lemma {:induction false} SomeHolder(ths: seq<Thread>, s: nat) returns (t: nat)
    requires Total(ths, s) > 0
    ensures t < |ths| && Net(Executed(ths[t]), s) > 0
  {
    var n := |ths| - 1;
    if Net(Executed(ths[n]), s) > 0 {
      t := n;
    } else {
      t := SomeHolder(ths[..n], s);
    }
  }

  /** A system whose threads are cars and whose semaphores add up; every reachable
      state of such a system is one. */
  ghost predicate Traffic(k: K) {
    && ThreadsOk(k) && Balanced(k, SEMS)
    && forall t :: 0 <= t < |k.threads| ==> CarOrIdle(k.threads[t].prog)
  }

  lemma TrafficReached(k0: K, steps: seq<Step>, k: K)
    requires Initial(k0) && k0.sems == SEMS && Reaches(k0, steps, k)
    requires forall t :: 0 <= t < |k.threads| ==> CarOrIdle(k.threads[t].prog)
    ensures Traffic(k)
  {
    InitialInv(k0);
    ReachesInv(k0, steps, k, SEMS);
  }

  lemma ThreadPlace(k: K, t: Tid)
    requires Traffic(k) && t < |k.threads|
    ensures k.threads[t].pc <= |k.threads[t].prog| && CarAt(k.threads[t].prog, k.threads[t].pc)
  {
    var th := k.threads[t];
    assert ThreadOk(k, th) && CarOrIdle(th.prog);
    if th.prog == [] {
    } else {
      var d, turn :| th.prog == ApproachIntersection(d, turn);
      CarPlaces(d, turn, th.pc);
    }
  }

  lemma CountsFromHolders(k: K, s: nat, idx: set<nat>)
    requires Traffic(k) && s < 5
    requires HeldByAll(k.threads, s, idx)
    ensures k.sems[s] + |idx| <= SEMS[s]
  {
    forall t | 0 <= t < |k.threads| ensures Net(Executed(k.threads[t]), s) >= 0 { ThreadPlace(k, t); }
    TotalAtLeast(k.threads, s, idx);
  }

  lemma TwoMembers(t: nat, u: nat)
    requires t != u
    ensures |{t, u}| == 2
  {
  }

  /** No two cars are ever in the same quadrant. */
  lemma OneCarPerQuadrant(k: K, q: nat, t: Tid, u: Tid)
    requires Traffic(k) && q < 4 && t < |k.threads| && u < |k.threads|
    requires InQuadrant(k.threads[t], q) && InQuadrant(k.threads[u], q)
    ensures t == u
  {
    hide ThreadsOk;
    hide CarOrIdle;
    hide Net;
    hide Executed;
    if t != u {
      TwoMembers(t, u);
      CountsFromHolders(k, q, {t, u});
    }
  }

  /** At most three cars are inside the intersection. */
  lemma AtMostThreeInside(k: K, cars: set<Tid>)
    requires Traffic(k) && forall t :: t in cars ==> t < |k.threads| && Inside(k.threads[t])
    ensures |cars| <= 3
  {
    CountsFromHolders(k, ENTRANCE, cars);
  }

  // ----- Progress

  /** The thread's next operation can complete now. */
  predicate CanGo(k: K, t: Tid)
    requires t < |k.threads|
  {
    var th := k.threads[t];
    !th.Done() && match th.prog[th.pc]
                  case P(s) => s < |k.sems| && k.sems[s] > 0
                  case _ => true
  }

  /** A car in quadrant q that cannot go on is waiting for the next quadrant only. */
  lemma StuckCar(prog: seq<Op>, pc: nat, q: nat)
    requires pc <= |prog| && CarAt(prog, pc) && q < 4 && Net(prog[..pc], q) == 1
    requires pc < |prog| ==> !prog[pc].V?
    ensures pc < |prog| && prog[pc] == P(After(q)) && Net(prog[..pc], ENTRANCE) == 1
    ensures forall r :: 0 <= r < 4 && Net(prog[..pc], r) == 1 ==> r == q
  {
  }

  /** With every car stuck, an occupied quadrant means its occupant waits for the next. */
  lemma NextQuadrantTaken(k: K, q: nat) returns (t: Tid)
    requires Traffic(k) && q < 4 && k.sems[q] == 0
    requires forall u :: 0 <= u < |k.threads| ==> !CanGo(k, u)
    ensures t < |k.threads| && Inside(k.threads[t]) && InQuadrant(k.threads[t], q)
    ensures forall r :: 0 <= r < 4 && InQuadrant(k.threads[t], r) ==> r == q
    ensures k.sems[After(q)] == 0
  {
    t := SomeHolder(k.threads, q);
    ThreadPlace(k, t);
    assert !CanGo(k, t);
    var th := k.threads[t];
    assert Executed(th) == th.prog[..th.pc];
    assert Net(th.prog[..th.pc], q) == 1;
    StuckCar(th.prog, th.pc, q);
  }

  /** Four cars in four quadrants are four cars. */
  lemma FourDistinct(k: K, a: Tid, b: Tid, c: Tid, d: Tid, q: nat)
    requires q < 4 && a < |k.threads| && b < |k.threads| && c < |k.threads| && d < |k.threads|
    requires InQuadrant(k.threads[a], q) && InQuadrant(k.threads[b], After(q))
    requires InQuadrant(k.threads[c], After(After(q))) && InQuadrant(k.threads[d], After(After(After(q))))
    requires forall r :: 0 <= r < 4 && InQuadrant(k.threads[a], r) ==> r == q
    requires forall r :: 0 <= r < 4 && InQuadrant(k.threads[b], r) ==> r == After(q)
    requires forall r :: 0 <= r < 4 && InQuadrant(k.threads[c], r) ==> r == After(After(q))
    ensures |{a, b, c, d}| == 4
  {
    assert a != b && a != c && a != d && b != c && b != d && c != d;
  }

  /** If everyone is stuck, someone is stuck at a quadrant. */
  lemma StuckQuadrant(k: K, t: Tid) returns (q: nat)
    requires Traffic(k) && t < |k.threads| && !k.threads[t].Done()
    requires forall u :: 0 <= u < |k.threads| ==> !CanGo(k, u)
    ensures q < 4 && k.sems[q] == 0
  {
    ThreadPlace(k, t);
    assert !CanGo(k, t);
    var th := k.threads[t];
    q := th.prog[th.pc].s;
    if q == ENTRANCE {
      var u := SomeHolder(k.threads, ENTRANCE);
      ThreadPlace(k, u);
      assert !CanGo(k, u);
      q := k.threads[u].prog[k.threads[u].pc].s;
    }
  }

  /** With every car stuck there would be four cars inside, each in a quadrant of its own. */
  lemma FourStuck(k: K, q: nat) returns (cars: set<Tid>)
    requires Traffic(k) && q < 4 && k.sems[q] == 0
    requires forall u :: 0 <= u < |k.threads| ==> !CanGo(k, u)
    ensures |cars| == 4 && forall t :: t in cars ==> t < |k.threads| && Inside(k.threads[t])
  {
    hide CanGo;
    hide Inside;
    hide Traffic;
    var a := NextQuadrantTaken(k, q);
    var b := NextQuadrantTaken(k, After(q));
    var c := NextQuadrantTaken(k, After(After(q)));
    var d := NextQuadrantTaken(k, After(After(After(q))));
    FourDistinct(k, a, b, c, d, q);
    cars := {a, b, c, d};
  }

  /** While any car is unfinished, some car can go on: a circle of waiting cars
      needs four of them inside. */
  lemma SomeCarCanGo(k: K, t: Tid)
    requires Traffic(k) && t < |k.threads| && !k.threads[t].Done()
    ensures exists u :: 0 <= u < |k.threads| && CanGo(k, u)
  {
    if forall u :: 0 <= u < |k.threads| ==> !CanGo(k, u) {
      var q := StuckQuadrant(k, t);
      var cars := FourStuck(k, q);
      AtMostThreeInside(k, cars);
      assert false;
    }
  }

  /** The kernel never idles for good with a car left in the intersection: when
      nothing is running or runnable, every car is out and the semaphores are back. */
  lemma NoDeadlock(k0: K, steps: seq<Step>, k: K)
    requires Initial(k0) && k0.sems == SEMS && Reaches(k0, steps, k)
    requires forall t :: 0 <= t < |k.threads| ==> CarOrIdle(k.threads[t].prog)
    requires k.cur.None? && k.runq == []
    ensures forall t :: 0 <= t < |k.threads| ==> k.threads[t].Done()
    ensures k.sems == SEMS
  {
    TrafficReached(k0, steps, k);
    InitialInv(k0);
    ReachesInv(k0, steps, k, SEMS);
    forall t | 0 <= t < |k.threads| ensures !CanGo(k, t) {
      if !k.threads[t].Done() {
        assert Places(k)[t] == 1;
        assert t in k.sleepers;
        assert Blocked(k, t);
        ThreadPlace(k, t);
      }
    }
    forall t | 0 <= t < |k.threads| ensures k.threads[t].Done() {
      if !k.threads[t].Done() { SomeCarCanGo(k, t); }
    }
    AllOut(k);
  }

  lemma AllOut(k: K)
    requires Traffic(k) && forall t :: 0 <= t < |k.threads| ==> k.threads[t].Done()
    ensures k.sems == SEMS
  {
    forall s | 0 <= s < 5 ensures k.sems[s] == SEMS[s] {
      forall t | 0 <= t < |k.threads| ensures Net(Executed(k.threads[t]), s) == 0 { ThreadPlace(k, t); }
      if Total(k.threads, s) != 0 { ZeroTotal(k.threads, s); }
    }
  }

  lemma {:induction false} ZeroTotal(ths: seq<Thread>, s: nat)
    requires forall t :: 0 <= t < |ths| ==> Net(Executed(ths[t]), s) == 0
    ensures Total(ths, s) == 0
  {
    if ths != [] {
      assert forall t :: 0 <= t < |ths| - 1 ==> ths[..|ths| - 1][t] == ths[t];
      ZeroTotal(ths[..|ths| - 1], s);
    }
  }

  // ----- Termination

  /** Operations the cars have yet to complete. */
  function Remaining(ths: seq<Thread>): nat {
    if ths == [] then 0
    else
      var th := ths[|ths| - 1];
      Remaining(ths[..|ths| - 1]) + if th.pc <= |th.prog| then |th.prog| - th.pc else 0
  }

  lemma {:induction false} RemainingUpdate(ths: seq<Thread>, t: nat, th: Thread)
    requires t < |ths| && th.prog == ths[t].prog && ths[t].pc <= th.pc <= |th.prog|
    ensures Remaining(ths[t := th]) == Remaining(ths) - (th.pc - ths[t].pc)
  {
    var n := |ths| - 1;
    if t == n {
      assert ths[t := th][..n] == ths[..n];
    } else {
      assert ths[t := th][..n] == ths[..n][t := th];
      RemainingUpdate(ths[..n], t, th);
    }
  }

  predicate PsAndVs(prog: seq<Op>) { forall i :: 0 <= i < |prog| ==> prog[i].P? || prog[i].V? }

  /** Threads that only use semaphores, as cars do. */
  predicate SemaphoresOnly(k: K) {
    forall t :: 0 <= t < |k.threads| ==> PsAndVs(k.threads[t].prog)
  }

  lemma CarUsesSemaphores(prog: seq<Op>)
    requires CarOrIdle(prog)
    ensures PsAndVs(prog)
  {
    if prog != [] {
      var d, turn :| prog == ApproachIntersection(d, turn);
      Shapes(d, turn);
      hide ApproachIntersection;
    }
  }

  lemma CarsUseSemaphores(k: K)
    requires forall t :: 0 <= t < |k.threads| ==> CarOrIdle(k.threads[t].prog)
    ensures SemaphoresOnly(k)
  {
    hide CarOrIdle;
    hide PsAndVs;
    forall t | 0 <= t < |k.threads| ensures PsAndVs(k.threads[t].prog) {
      CarUsesSemaphores(k.threads[t].prog);
    }
  }

  /** A multiset of numbers below n without repetition has at most n elements. */
  lemma {:induction false} AtMostAll(m: multiset<nat>, n: nat)
    requires forall t: nat :: m[t] <= 1 && (t >= n ==> m[t] == 0)
    ensures |m| <= n
  {
    if n == 0 {
      assert m == multiset{};
    } else {
      var r := m[n - 1 := 0];
      AtMostAll(r, n - 1);
      assert m == r + (if m[n - 1] == 1 then multiset{n - 1} else multiset{});
    }
  }

  lemma PlacesBounded(k: K)
    requires Conserved(k)
    ensures |CurPlace(k)| + |k.runq| + |k.sleepers| <= |k.threads|
  {
    AtMostAll(Places(k), |k.threads|);
    assert |Places(k)| == |CurPlace(k)| + |k.runq| + |k.sleepers| + |k.zombies|;
  }

  /** The work left, and below it who is not asleep. */
  ghost function Measure(k: K): nat {
    Remaining(k.threads) * (|k.threads| + 1) + |k.runq| + (if k.cur.Some? then 1 else 0)
  }

  /** What one run step of a thread that uses semaphores does to the measure's parts. */
  lemma RunParts(k: K)
    requires WellFormed(k) && Conserved(k) && Enabled(k, Run) && SemaphoresOnly(k)
    ensures var k' := RunOp(k);
            && |k'.threads| == |k.threads| && SemaphoresOnly(k')
            && (|| (Remaining(k'.threads) == Remaining(k.threads) && k'.runq == k.runq && k'.cur.None?)
                || (Remaining(k'.threads) + 1 == Remaining(k.threads) && |k'.runq| + 1 <= |k.threads|
                  && k'.cur == k.cur))
  {
    hide Remaining;
    var t, k' := k.cur.value, RunOp(k);
    var th := k.threads[t];
    RunThreads(k);
    assert ThreadOk(k, th);
    RemainingUpdate(k.threads, t, k'.threads[t]);
    PlacesBounded(k);
    if !th.Done() && th.prog[th.pc].V? {
      var s := th.prog[th.pc].s;
      MatchSplits(Advance(k).threads, k.sleepers, SemAddr(s));
    }
  }

  lemma MeasureDown(n: nat, a: nat, b: nat)
    requires b + 1 == a
    ensures a * n == b * n + n
  {
  }

  lemma RunMeasure(k: K)
    requires WellFormed(k) && Conserved(k) && Enabled(k, Run) && SemaphoresOnly(k)
    ensures SemaphoresOnly(RunOp(k)) && Measure(RunOp(k)) < Measure(k)
  {
    hide RunOp;
    hide Remaining;
    hide Conserved;
    hide SemaphoresOnly;
    hide WellFormed;
    RunParts(k);
    var n, a, b := |k.threads| + 1, Remaining(k.threads), Remaining(RunOp(k).threads);
    if b + 1 == a { MeasureDown(n, a, b); }
  }

  lemma ScheduleMeasure(k: K)
    requires WellFormed(k) && Enabled(k, Schedule) && SemaphoresOnly(k)
    ensures SemaphoresOnly(Dispatch(k)) && Measure(Dispatch(k)) == Measure(k)
  {
    hide Remaining;
    assert ThreadOk(k, k.threads[k.runq[0]]);
    RemainingUpdate(k.threads, k.runq[0], Dispatch(k).threads[k.runq[0]]);
  }

  /** Every operation that a thread attempts lowers the measure, whether it completes
      it, goes to sleep in it or exits. Preemption and scheduling keep it. */
  lemma MeasureDrops(k: K, st: Step)
    requires WellFormed(k) && Conserved(k) && Enabled(k, st) && SemaphoresOnly(k) && !st.Spawn?
    ensures SemaphoresOnly(Next(k, st))
    ensures if st.Run? then Measure(Next(k, st)) < Measure(k) else Measure(Next(k, st)) == Measure(k)
  {
    hide RunOp;
    hide Dispatch;
    hide Remaining;
    hide Conserved;
    match st
    case Run => RunMeasure(k);
    case Schedule => ScheduleMeasure(k);
    case Preempt =>
      assert Next(k, st).threads == k.threads;
  }

  function RunSteps(steps: seq<Step>): nat {
    if steps == [] then 0 else (if steps[0].Run? then 1 else 0) + RunSteps(steps[1..])
  }

  /** Without new cars every run, under every schedule, has at most Measure steps in
      which a car does something. No fairness is needed. */
  lemma {:induction false} RunStepsBounded(k0: K, steps: seq<Step>, k: K)
    requires Conserved(k0) && SemaphoresOnly(k0) && Reaches(k0, steps, k) && forall st :: st in steps ==> !st.Spawn?
    ensures RunSteps(steps) + Measure(k) <= Measure(k0)
    decreases |steps|
  {
    hide Next;
    hide Enabled;
    hide WellFormed;
    hide Measure;
    hide Conserved;
    hide SemaphoresOnly;
    if steps != [] {
      assert steps[0] in steps;
      MeasureDrops(k0, steps[0]);
      StepConserved(k0, steps[0]);
      RunStepsBounded(Next(k0, steps[0]), steps[1..], k);
    }
  }

  /** Nothing left to do. */
  predicate AllDone(k: K) { k.sems == SEMS && forall t :: 0 <= t < |k.threads| ==> k.threads[t].Done() }

  /** While a car is unfinished, a car runs or can be scheduled. */
  lemma CarsKeepGoing(k0: K, steps: seq<Step>, k: K)
    requires Initial(k0) && k0.sems == SEMS && Reaches(k0, steps, k)
    requires forall u :: 0 <= u < |k.threads| ==> CarOrIdle(k.threads[u].prog)
    ensures WellFormed(k) && (Enabled(k, Run) || Enabled(k, Schedule) || AllDone(k))
  {
    hide CarOrIdle;
    hide ThreadsOk;
    hide Conserved;
    hide Balanced;
    hide Sleeping;
    hide LocksOk;
    hide Finished;
    InitialInv(k0);
    ReachesInv(k0, steps, k, SEMS);
    CarsUseSemaphores(k);
    if k.cur.None? && k.runq == [] {
      NoDeadlock(k0, steps, k);
    } else if k.cur.None? {
      assert k.runq[0] in k.runq;
    }
  }

  /** Without a fork no program changes. */
  lemma {:induction false} ProgramsKept(k: K, steps: seq<Step>, k': K)
    requires Reaches(k, steps, k') && forall st :: st in steps ==> !st.Spawn?
    ensures |k'.threads| == |k.threads| && forall t :: 0 <= t < |k.threads| ==> k'.threads[t].prog == k.threads[t].prog
    decreases |steps|
  {
    if steps != [] {
      assert steps[0] in steps;
      if steps[0].Run? { RunThreads(k); }
      ProgramsKept(Next(k, steps[0]), steps[1..], k');
    }
  }

  lemma {:induction false} ReachesOn(k0: K, before: seq<Step>, k1: K, steps: seq<Step>, k: K)
    requires Reaches(k0, before, k1) && Reaches(k1, steps, k)
    ensures Reaches(k0, before + steps, k)
    decreases |before|
  {
    hide Next;
    hide Enabled;
    hide WellFormed;
    if before == [] {
      assert before + steps == steps;
    } else {
      ReachesOn(Next(k0, before[0]), before[1..], k1, steps, k);
      assert (before + steps)[1..] == before[1..] + steps;
    }
  }

  /** Once all cars have arrived, under every schedule they do at most Measure operations
      more, and as long as one is unfinished the kernel can go on. So all leave. */
  lemma CarsFinish(k0: K, before: seq<Step>, k1: K, steps: seq<Step>, k: K)
    requires Initial(k0) && k0.sems == SEMS && Reaches(k0, before, k1) && Reaches(k1, steps, k)
    requires forall t :: 0 <= t < |k1.threads| ==> CarOrIdle(k1.threads[t].prog)
    requires forall st :: st in steps ==> !st.Spawn?
    ensures RunSteps(steps) <= Measure(k1)
    ensures WellFormed(k) && (Enabled(k, Run) || Enabled(k, Schedule) || AllDone(k))
  {
    hide CarOrIdle;
    hide Measure;
    hide Enabled;
    hide WellFormed;
    hide AllDone;
    hide ThreadsOk;
    hide Conserved;
    hide Balanced;
    hide Sleeping;
    hide LocksOk;
    hide Finished;
    InitialInv(k0);
    ReachesInv(k0, before, k1, SEMS);
    CarsUseSemaphores(k1);
    RunStepsBounded(k1, steps, k);
    ReachesOn(k0, before, k1, steps, k);
    ProgramsKept(k1, steps, k);
    CarsKeepGoing(k0, before + steps, k);
  }

  // ----- Three cars do get in

  lemma StillWellFormed(k: K, k': K, t: Tid)
    requires WellFormed(k) && t < |k.threads| && |k'.sems| == |k.sems| && |k'.locks| == |k.locks|
    requires |k'.threads| == |k.threads| && k'.threads == k.threads[t := k'.threads[t]] && ThreadOk(k, k'.threads[t])
    requires k'.cur.Some? ==> k'.cur.value < |k.threads|
    requires forall u :: u in k'.runq ==> u < |k.threads|
    requires k'.sleepers == k.sleepers && k'.zombies == k.zombies
    ensures WellFormed(k')
  {
    forall u | 0 <= u < |k'.threads| ensures ThreadOk(k', k'.threads[u]) {
      assert ThreadOk(k, k'.threads[u]) by { assert u != t ==> k'.threads[u] == k.threads[u]; }
      forall i | 0 <= i < |k'.threads[u].prog| ensures OpOk(k', k'.threads[u].prog[i]) {
        assert OpOk(k, k'.threads[u].prog[i]);
      }
    }
  }

  /** A car that starts to run gets through the entrance if there is room, and is preempted. */
  lemma CarEnters(k: K, t: Tid, d: Direction, turn: Turn) returns (k': K)
    requires WellFormed(k) && |k.sems| == 5 && k.sems[ENTRANCE] > 0 && k.cur.None?
    requires k.runq != [] && k.runq[0] == t && t < |k.threads|
    requires k.threads[t] == Thread(ApproachIntersection(d, turn), 0, false, false, NullAddr)
    ensures Reaches(k, [Schedule, Run, Preempt], k') && WellFormed(k')
    ensures k'.threads == k.threads[t := k.threads[t].(pc := 1, started := true)]
    ensures k'.sems == k.sems[ENTRANCE := k.sems[ENTRANCE] - 1] && k'.cur.None? && k'.runq == k.runq[1..] + [t]
  {
    var k1 := Next(k, Schedule);
    hide ApproachIntersection;
    assert ThreadOk(k, k.threads[t]);
    assert k.runq == [t] + k1.runq;
    forall u | u in k1.runq ensures u < |k.threads| { assert u in k.runq; }
    StillWellFormed(k, k1, t);
    Routes(d, turn);
    var k2 := Next(k1, Run);
    StillWellFormed(k1, k2, t);
    k' := Next(k2, Preempt);
    StillWellFormed(k2, k', t);
    hide WellFormed;
    hide RunOp;
    assert Reaches(k2, [Preempt], k') by { assert [Preempt][1..] == []; }
    assert Reaches(k1, [Run, Preempt], k') by { assert [Run, Preempt][1..] == [Preempt]; }
    assert [Schedule, Run, Preempt][1..] == [Run, Preempt];
  }

  /** The state after createcars has forked three cars and the forking thread has yielded. */
  function ThreeCars(a: seq<Op>, b: seq<Op>, c: seq<Op>): K {
    K([Thread([], 0, false, true, NullAddr), Thread(a, 0, false, false, NullAddr),
       Thread(b, 0, false, false, NullAddr), Thread(c, 0, false, false, NullAddr)],
      None, [1, 2, 3, 0], [], [], {}, 4, SEMS, [])
  }

  function Start(): K { K([Thread([], 0, false, true, NullAddr)], Some(0), [], [], [], {}, 1, SEMS, []) }

  predicate SemsOnly(prog: seq<Op>) {
    forall i :: 0 <= i < |prog| ==> match prog[i] case P(s) => s < 5 case V(s) => s < 5 case _ => false
  }

  lemma CarOps(prog: seq<Op>)
    requires SemsOnly(prog)
    ensures forall k: K, i :: |k.sems| == 5 && 0 <= i < |prog| ==> OpOk(k, prog[i])
  {
  }

  lemma ThreeForked(a: seq<Op>, b: seq<Op>, c: seq<Op>)
    requires SemsOnly(a) && SemsOnly(b) && SemsOnly(c)
    ensures Initial(Start()) && WellFormed(ThreeCars(a, b, c))
    ensures Reaches(Start(), [Spawn(a), Spawn(b), Spawn(c), Preempt], ThreeCars(a, b, c))
  {
    hide SemsOnly;
    CarOps(a);
    CarOps(b);
    CarOps(c);
    var k0 := Start();
    var k1 := Next(k0, Spawn(a));
    var k2 := Next(k1, Spawn(b));
    var k3 := Next(k2, Spawn(c));
    var k4 := Next(k3, Preempt);
    assert k4 == ThreeCars(a, b, c);
    assert Reaches(k3, [Preempt], k4) by { assert [Preempt][1..] == []; }
    assert Reaches(k2, [Spawn(c), Preempt], k4) by { assert [Spawn(c), Preempt][1..] == [Preempt]; }
    assert Reaches(k1, [Spawn(b), Spawn(c), Preempt], k4) by {
      assert [Spawn(b), Spawn(c), Preempt][1..] == [Spawn(c), Preempt];
    }
    assert [Spawn(a), Spawn(b), Spawn(c), Preempt][1..] == [Spawn(b), Spawn(c), Preempt];
  }

  lemma CarSems(d: Direction, turn: Turn)
    ensures SemsOnly(ApproachIntersection(d, turn))
  {
  }

  lemma EnteredInside(d: Direction, turn: Turn)
    ensures Inside(Thread(ApproachIntersection(d, turn), 1, false, true, NullAddr))
  {
    var prog := ApproachIntersection(d, turn);
    assert prog[..1] == [P(ENTRANCE)];
    assert Net([P(ENTRANCE)], ENTRANCE) == Net([], ENTRANCE) + 1;
  }

  /** The bound of three is reached: any three cars can be inside together. */
  lemma ThreeInside(d1: Direction, t1: Turn, d2: Direction, t2: Turn, d3: Direction, t3: Turn)
    returns (k0: K, steps: seq<Step>, k: K)
    ensures Initial(k0) && k0.sems == SEMS && Reaches(k0, steps, k) && |k.threads| == 4
    ensures k.threads[1].prog == ApproachIntersection(d1, t1) && Inside(k.threads[1])
    ensures k.threads[2].prog == ApproachIntersection(d2, t2) && Inside(k.threads[2])
    ensures k.threads[3].prog == ApproachIntersection(d3, t3) && Inside(k.threads[3])
  {
    hide ApproachIntersection;
    hide WellFormed;
    hide Reaches;
    var a, b, c := ApproachIntersection(d1, t1), ApproachIntersection(d2, t2), ApproachIntersection(d3, t3);
    CarSems(d1, t1);
    CarSems(d2, t2);
    CarSems(d3, t3);
    ThreeForked(a, b, c);
    k0 := Start();
    var k1, go := ThreeCars(a, b, c), [Schedule, Run, Preempt];
    var k2 := CarEnters(k1, 1, d1, t1);
    var k3 := CarEnters(k2, 2, d2, t2);
    k := CarEnters(k3, 3, d3, t3);
    steps := [Spawn(a), Spawn(b), Spawn(c), Preempt];
    ReachesOn(k0, steps, k1, go, k2);
    ReachesOn(k0, steps + go, k2, go, k3);
    ReachesOn(k0, steps + go + go, k3, go, k);
    steps := steps + go + go + go;
    EnteredInside(d1, t1);
    EnteredInside(d2, t2);
    EnteredInside(d3, t3);
  }
}
