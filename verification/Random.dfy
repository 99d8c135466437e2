/** The additive-feedback generators of random.c. */
module Random {

  import opened Arith

  const MAX_TYPES: nat := 5

  function Degree(t: nat): nat
    requires t < MAX_TYPES
  {
    [0, 7, 15, 31, 63][t]
  }

  function Separation(t: nat): nat
    requires t < MAX_TYPES
  {
    [0, 3, 1, 3, 1][t]
  }

  lemma Types(t: nat)
    requires t < MAX_TYPES
    ensures t > 0 ==> 0 < Separation(t) < Degree(t) <= 63
    ensures t == 0 ==> Degree(t) == Separation(t) == 0
  {
  }

  /** The recurrences are those of the trinomials x^7 + x^3 + 1 and so on, of degree 2^k - 1. */
  lemma Trinomials(t: nat)
    requires 0 < t < MAX_TYPES
    ensures Degree(t) == Power(2, t + 2) - 1 && Separation(t) == if t % 2 == 1 then 3 else 1
  {
    assert Power(2, 1) == 2 && Power(2, 2) == 4 && Power(2, 3) == 8 && Power(2, 4) == 16 && Power(2, 5) == 32;
  }

  /** Two words added as unsigned longs. */
  function Add(a: Word, b: Word): Word { (a + b) % 0x1_0000_0000 }

  predicate IsSum(c: int, a: int, b: int) { c == (a + b) % 0x1_0000_0000 }

  lemma AddIs(a: Word, b: Word)
    ensures IsSum(Add(a, b), a, b)
  {
  }

  /** One step of the linear congruential generator. */
  function Scale(x: Word): int { var y: int := x; 1103515245 * y + 12345 }

  // ----- The recurrence

  /** The sequence that starts with w and goes on with the sum of the words |w| and sep steps earlier. */
  function Term(w: seq<Word>, sep: nat, n: nat): Word
    requires 0 < sep <= |w|
  {
    if n < |w| then w[n] else Add(Term(w, sep, n - |w|), Term(w, sep, n - sep))
  }

  /** Terms n to n + |w| of it. */
  function Terms(w: seq<Word>, sep: nat, n: nat): (s: seq<Word>)
    requires 0 < sep <= |w|
    ensures |s| == |w|
  {
    seq<Word>(|w|, k requires 0 <= k < |w| => Term(w, sep, n + k))
  }

  lemma FirstTerms(w: seq<Word>, sep: nat)
    requires 0 < sep <= |w|
    ensures Terms(w, sep, 0) == w
  {
    forall k | 0 <= k < |w| ensures Terms(w, sep, 0)[k] == w[k] {
      assert Term(w, sep, 0 + k) == w[k];
    }
  }

  /** One step of the generator on the words it holds, oldest first. */
  function Shift(w: seq<Word>, sep: nat): seq<Word>
    requires 0 < sep <= |w|
  {
    w[1..] + [Add(w[0], w[|w| - sep])]
  }

  /** The recurrence x[n] = x[n - deg] + x[n - sep] modulo 2^32. */
  lemma Recurrence(w: seq<Word>, sep: nat, n: nat)
    requires 0 < sep <= |w|
    ensures Term(w, sep, n + |w|) == (Term(w, sep, n) + Term(w, sep, n + |w| - sep)) % 0x1_0000_0000
  {
  }

  lemma ShiftTerms(w: seq<Word>, sep: nat, n: nat)
    requires 0 < sep <= |w|
    ensures Shift(Terms(w, sep, n), sep) == Terms(w, sep, n + 1)
  {
    var a, b := Shift(Terms(w, sep, n), sep), Terms(w, sep, n + 1);
    forall k | 0 <= k < |w| ensures a[k] == b[k] {
      if k == |w| - 1 {
        assert Term(w, sep, n + |w|) == Add(Term(w, sep, n), Term(w, sep, n + |w| - sep));
      }
    }
  }

  /** The numbers handed out are words without their lowest bit. They obey the recurrence
      modulo 2^31 up to the carry of the dropped bits. */
  predicate Halves(a: Word, b: Word, c: Word) {
    c == (a + b) % 0x8000_0000 || c == (a + b + 1) % 0x8000_0000
  }

  lemma HalvesAdd(a: Word, b: Word)
    ensures Halves(a / 2, b / 2, (a + b) % 0x1_0000_0000 / 2)
  {
    var p, q, s := a / 2, b / 2, a as int + b;
    var h := if s < 0x1_0000_0000 then s else s - 0x1_0000_0000;
    assert h == s % 0x1_0000_0000;
    var c := h / 2 - (p + q) + if s < 0x1_0000_0000 then 0 else 0x8000_0000;
    assert 0 <= c <= 1;
    assert h / 2 == (p as int + q + c) % 0x8000_0000;
  }

  lemma TermHalves(w: seq<Word>, sep: nat, n: nat)
    requires 0 < sep <= |w| <= n
    ensures Halves(Term(w, sep, n - |w|) / 2, Term(w, sep, n - sep) / 2, Term(w, sep, n) / 2)
  {
    Recurrence(w, sep, n - |w|);
    HalvesAdd(Term(w, sep, n - |w|), Term(w, sep, n - sep));
  }

  /** Each of the numbers is so related to those deg and sep places earlier. */
  predicate Recurs(out: seq<Word>, deg: nat, sep: nat) {
    0 < sep <= deg && forall i :: deg <= i < |out| ==> Halves(out[i - deg], out[i - sep], out[i])
  }

  /** The numbers handed out when the words are w: the terms that follow, halved. */
  predicate Drawn(w: seq<Word>, sep: nat, out: seq<Word>) {
    0 < sep <= |w| && forall i :: 0 <= i < |out| ==> out[i] == Term(w, sep, |w| + i) / 2
  }

  lemma DrawnNone(w: seq<Word>, sep: nat)
    requires 0 < sep <= |w|
    ensures Drawn(w, sep, [])
  {
  }

  lemma DrawnMore(w: seq<Word>, sep: nat, out: seq<Word>, w': seq<Word>)
    requires Drawn(w, sep, out) && w' == Terms(w, sep, |out| + 1)
    ensures Drawn(w, sep, out + [w'[|w| - 1] / 2])
  {
    assert w'[|w| - 1] == Term(w, sep, |out| + 1 + (|w| - 1));
    hide Term;
  }

  lemma DrawnHalves(w: seq<Word>, sep: nat, out: seq<Word>)
    requires Drawn(w, sep, out)
    ensures Recurs(out, |w|, sep)
  {
    hide Halves;
    hide Term;
    forall i | |w| <= i < |out| ensures Halves(out[i - |w|], out[i - sep], out[i]) {
      TermHalves(w, sep, |w| + i);
      assert out[i - sep] == Term(w, sep, |w| + (i - sep)) / 2;
      assert out[i - |w|] == Term(w, sep, |w| + (i - |w|)) / 2;
    }
  }

  // ----- The table

  /** The words of a table, oldest first: the front pointer is at the oldest. */
  function Window(tbl: seq<Word>, deg: nat, f: nat): (w: seq<Word>)
    requires deg < |tbl| && f < deg
    ensures |w| == deg && forall k :: 0 <= k < deg ==> w[k] == tbl[1 + Wrap(f + k, deg)]
  {
    seq<Word>(deg, k requires 0 <= k < deg => tbl[1 + Wrap(f + k, deg)])
  }

  lemma SameWindow(a: seq<Word>, b: seq<Word>, deg: nat, f: nat)
    requires f < deg < |a| == |b| && forall k :: 1 <= k < |a| ==> a[k] == b[k]
    ensures Window(a, deg, f) == Window(b, deg, f)
  {
  }

  /** Adding the word at the rear to the one at the front and moving on is one step. */
  lemma WindowStep(tbl: seq<Word>, deg: nat, sep: nat, f: nat, r: nat)
    requires 0 < sep < deg < |tbl| && r < deg && f == Wrap(r + sep, deg)
    ensures var tbl' := tbl[1 + f := Add(tbl[1 + f], tbl[1 + r])];
            && Window(tbl', deg, Wrap(f + 1, deg)) == Shift(Window(tbl, deg, f), sep)
            && Window(tbl', deg, Wrap(f + 1, deg))[deg - 1] == tbl'[1 + f]
    ensures IsSum(Add(tbl[1 + f], tbl[1 + r]), Window(tbl, deg, f)[0], Window(tbl, deg, f)[deg - sep])
  {
    hide IsSum;
    AddIs(tbl[1 + f], tbl[1 + r]);
    var tbl' := tbl[1 + f := Add(tbl[1 + f], tbl[1 + r])];
    var w := Window(tbl, deg, f);
    Sources(tbl, deg, sep, f, r);
    var a, b := Window(tbl', deg, Wrap(f + 1, deg)), Shift(w, sep);
    forall k | 0 <= k < deg ensures a[k] == b[k] {
      if k == deg - 1 {
        assert Wrap(Wrap(f + 1, deg) + k, deg) == f;
      } else {
        assert Wrap(Wrap(f + 1, deg) + k, deg) == Wrap(f + k + 1, deg) != f;
        assert b[k] == w[k + 1];
      }
    }
  }

  lemma Sources(tbl: seq<Word>, deg: nat, sep: nat, f: nat, r: nat)
    requires 0 < sep < deg < |tbl| && r < deg && f == Wrap(r + sep, deg)
    ensures var w := Window(tbl, deg, f); w[0] == tbl[1 + f] && w[deg - sep] == tbl[1 + r]
  {
  }

  /** The pointers stay sep apart, and never wrap together. */
  lemma Together(deg: nat, sep: nat, f: nat, r: nat)
    requires 0 < sep < deg && r < deg && f == Wrap(r + sep, deg)
    ensures Wrap(f + 1, deg) == Wrap(Wrap(r + 1, deg) + sep, deg) && (f + 1 == deg ==> r + 1 < deg)
  {
  }

  // ----- Seeding

  /** The linear congruential sequence that srandom fills a table with. */
  function Filled(x: Word, n: nat): Word { if n == 0 then x else Scale(Filled(x, n - 1)) % 0x1_0000_0000 }

  /** 1 + a + ... for n powers of the multiplier a. */
  function PowerSum(n: nat): nat { if n == 0 then 0 else 1103515245 * PowerSum(n - 1) + 1 }

  /** n steps of the linear congruential generator modulo m, at once. */
  function Jump(x: nat, n: nat, m: nat): (y: nat)
    requires m > 0
    ensures y < m
  {
    (Power(1103515245, n) * x + 12345 * PowerSum(n)) % m
  }

  lemma JumpStep(x: nat, n: nat, m: nat)
    requires m > 0
    ensures (1103515245 * Jump(x, n, m) + 12345) % m == Jump(x, n + 1, m)
  {
    hide Power;
    hide PowerSum;
    var a, p, g := 1103515245, Power(1103515245, n), PowerSum(n);
    assert Power(a, n + 1) == a * p && PowerSum(n + 1) == a * g + 1 by { PowerSumStep(n); }
    var y: nat := p * x + 12345 * g;
    Reduced(a, y, 12345, m);
    assert a * (p * x) == (a * p) * x;
  }

  lemma PowerSumStep(n: nat)
    ensures Power(1103515245, n + 1) == 1103515245 * Power(1103515245, n)
    ensures PowerSum(n + 1) == 1103515245 * PowerSum(n) + 1
  {
  }

  lemma Reduced(a: nat, y: nat, c: nat, m: nat)
    requires m > 0
    ensures (a * (y % m) + c) % m == (a * y + c) % m
  {
    MulMod(a, y, m);
    ModPlus(a * (y % m), c, m);
    ModPlus(a * y, c, m);
  }

  /** A call of random steps from the seed, of any size, or from an earlier number. */
  lemma JumpNext(x: Word, n: nat, y: Word)
    requires y == if n == 0 then x else Jump(x, n, 0x8000_0000)
    ensures (1103515245 * y + 12345) % 0x8000_0000 == Jump(x, n + 1, 0x8000_0000)
  {
    if n == 0 {
      assert Power(1103515245, 1) == 1103515245 * Power(1103515245, 0) == 1103515245 && PowerSum(1) == 1;
    } else {
      JumpStep(x, n, 0x8000_0000);
    }
  }

  lemma JumpNone(x: nat, m: nat)
    requires x < m
    ensures Jump(x, 0, m) == x
  {
    assert Power(1103515245, 0) == 1 && PowerSum(0) == 0;
    ModIs(x, m, 0, x);
  }

  /** So the table is filled with the powers of the multiplier times the seed, and so on. */
  lemma {:induction false} FilledAt(x: Word, n: nat)
    ensures Filled(x, n) == Jump(x, n, 0x1_0000_0000)
  {
    hide Jump;
    if n == 0 {
      JumpNone(x, 0x1_0000_0000);
    } else {
      FilledAt(x, n - 1);
      JumpStep(x, n - 1, 0x1_0000_0000);
    }
  }

  /** The words of a table just filled, oldest first: the front pointer starts at sep. */
  function FilledWindow(x: Word, deg: nat, sep: nat): (w: seq<Word>)
    requires sep < deg
    ensures |w| == deg
  {
    seq<Word>(deg, k requires 0 <= k < deg => Filled(x, Wrap(sep + k, deg)))
  }

  /** What srandom leaves: the filled table, ten times around. */
  function Seeded(t: nat, x: Word): State
    requires t < MAX_TYPES
  {
    Types(t);
    if t == 0 then Congruential(x)
    else Feedback(t, Terms(FilledWindow(x, Degree(t), Separation(t)), Separation(t), 10 * Degree(t)))
  }

  lemma FilledIs(tbl: seq<Word>, x: Word, deg: nat, sep: nat)
    requires sep < deg < |tbl| && forall j :: 0 <= j < deg ==> tbl[1 + j] == Filled(x, j)
    ensures Window(tbl, deg, sep) == FilledWindow(x, deg, sep)
  {
    hide Filled;
  }

  /** The multiplexed word and what setstate reads from it. */
  lemma Multiplexed(t: nat, rear: nat)
    requires t < MAX_TYPES
    ensures (MAX_TYPES * rear + t) % MAX_TYPES == t && (MAX_TYPES * rear + t) / MAX_TYPES == rear
  {
  }

  lemma Turn(q: nat, deg: nat)
    ensures q * deg + deg == (q + 1) * deg
  {
  }

  /** The 10 * deg steps of srandom go round ten times. */
  lemma TenTurns(deg: nat, q: nat, rear: nat)
    requires rear < deg && 10 * deg == q * deg + rear
    ensures rear == 0
  {
    if q >= 10 {
      assert (q - 10) * deg >= 0;
    }
  }

  /** Moving on once more, around a table of deg words. */
  lemma ModNext(x: nat, deg: nat)
    requires deg > 0
    ensures (x + 1) % deg == Wrap(x % deg + 1, deg)
  {
    var q, r := x / deg, x % deg;
    if r + 1 == deg {
      ModIs(x + 1, deg, q + 1, 0);
    } else {
      ModIs(x + 1, deg, q, r + 1);
    }
  }

  /** What a generator will produce: everything after depends on this only. */
  datatype State = Congruential(x: Word) | Feedback(t: nat, w: seq<Word>)

  /** Both pointers move on. Only one of them can be at the end. */
  method MoveOn(front: nat, rear: nat, deg: nat) returns (f: nat, r: nat)
    requires front < deg && rear < deg && (front + 1 == deg ==> rear + 1 < deg)
    ensures f == Wrap(front + 1, deg) && r == Wrap(rear + 1, deg)
  {
    f, r := front + 1, rear;
    if f >= deg {
      f := 0;
      r := r + 1;
    } else {
      r := r + 1;
      if r >= deg {
        r := 0;
      }
    }
  }

  /** A table whose first word says that type t was left with the rear at p. */
  ghost predicate Left(table: array<Word>, t: nat, p: nat)
    reads table
  {
    && t < MAX_TYPES && 2 <= table.Length && Degree(t) < table.Length
    && (if t > 0 then p < Degree(t) else p == 0)
    && table[0] == MAX_TYPES * p + t
  }

  /** Where the rear is after moving on to x, in a table of type t. */
  function Around(x: nat, t: nat): nat {
    if 0 < t < MAX_TYPES then Types(t); x % Degree(t) else 0
  }

  /** What a generator of type t with its rear at p produces from a table. */
  function TableView(words: seq<Word>, t: nat, p: nat): State
    requires t < MAX_TYPES && 2 <= |words| && Degree(t) < |words| && (t > 0 ==> p < Degree(t))
  {
    Types(t);
    if t == 0 then Congruential(words[1])
    else Feedback(t, Window(words, Degree(t), Wrap(p + Separation(t), Degree(t))))
  }

  lemma SameTable(a: seq<Word>, b: seq<Word>, t: nat, p: nat)
    requires t < MAX_TYPES && 2 <= |a| && Degree(t) < |a| && (t > 0 ==> p < Degree(t))
    requires |a| == |b| && forall k :: 1 <= k < |a| ==> a[k] == b[k]
    ensures TableView(a, t, p) == TableView(b, t, p)
  {
    hide Window;
    Types(t);
    if t > 0 { SameWindow(a, b, Degree(t), Wrap(p + Separation(t), Degree(t))); }
  }

  /** The same words, with the rear at q instead of p. */
  function Rotated(v: State, p: nat, q: nat): State {
    if v.Feedback? && p < |v.w| && q < |v.w| then Feedback(v.t, Rotate(v.w, StepsTo(p, q, |v.w|))) else v
  }

  /** From k words on, and around. */
  function Rotate(w: seq<Word>, k: nat): (r: seq<Word>)
    requires k < |w|
    ensures |r| == |w| && forall i :: 0 <= i < |w| ==> r[i] == w[Wrap(i + k, |w|)]
  {
    seq<Word>(|w|, i requires 0 <= i < |w| => w[Wrap(i + k, |w|)])
  }

  function StepsTo(p: nat, q: nat, deg: nat): (k: nat)
    requires p < deg && q < deg
    ensures k < deg && q == Wrap(p + k, deg)
  {
    if q >= p then q - p else q + deg - p
  }

  lemma Rotation(words: seq<Word>, t: nat, p: nat, q: nat)
    requires t < MAX_TYPES && 2 <= |words| && Degree(t) < |words|
    requires t > 0 ==> p < Degree(t) && q < Degree(t)
    ensures TableView(words, t, q) == Rotated(TableView(words, t, p), p, q)
  {
    hide Degree;
    hide Separation;
    hide Window;
    hide Rotate;
    Types(t);
    if t > 0 {
      var deg, sep := Degree(t), Separation(t);
      var f, k := Wrap(p + sep, deg), StepsTo(p, q, deg);
      assert Wrap(q + sep, deg) == Wrap(f + k, deg);
      RotatedWindow(words, deg, f, k);
    }
  }

  lemma RotatedWindow(words: seq<Word>, deg: nat, f: nat, k: nat)
    requires deg < |words| && f < deg && k < deg
    ensures Window(words, deg, Wrap(f + k, deg)) == Rotate(Window(words, deg, f), k)
  {
    var a, b := Window(words, deg, Wrap(f + k, deg)), Rotate(Window(words, deg, f), k);
    hide Window;
    forall i | 0 <= i < deg ensures a[i] == b[i] { RotatedIndex(deg, f, Wrap(f + k, deg), k, i); }
  }

  lemma RotatedIndex(deg: nat, f: nat, f': nat, k: nat, i: nat)
    requires f < deg && f' < deg && k < deg && i < deg && f' == Wrap(f + k, deg)
    ensures Wrap(f + Wrap(i + k, deg), deg) == Wrap(f' + i, deg)
  {
  }

  /** After n numbers. */
  function Moved(v: State, n: nat): State {
    match v
    case Congruential(x) => if n == 0 then v else Congruential(Jump(x, n, 0x8000_0000))
    case Feedback(t, w) =>
      if 0 < t < MAX_TYPES && |w| == Degree(t) then Types(t); Feedback(t, Terms(w, Separation(t), n)) else v
  }

  /** The numbers that are handed out next. */
  predicate Numbers(v: State, out: seq<Word>) {
    match v
    case Congruential(x) => forall i :: 0 <= i < |out| ==> out[i] == Jump(x, i + 1, 0x8000_0000)
    case Feedback(t, w) => t < MAX_TYPES && Drawn(w, Separation(t), out)
  }

  class Generator {
    var tbl: array<Word>     // &state[-1]
    var rtype: nat
    var deg: nat
    var sep: nat
    var front: nat           // fptr - state
    var rear: nat            // rptr - state

    ghost predicate Valid()
      reads this
    {
      && rtype < MAX_TYPES && deg == Degree(rtype) && sep == Separation(rtype) && 2 <= tbl.Length && deg < tbl.Length
      && (rtype > 0 ==> rear < deg && front == Wrap(rear + sep, deg))
    }

    ghost function View(): State
      requires Valid()
      reads this, tbl
    {
      if rtype == 0 then Congruential(tbl[1]) else Feedback(rtype, Window(tbl[..], deg, front))
    }

    /** A generator of type t, seeded on its table as initstate does. */
    constructor (table: array<Word>, t: nat, seed: Word)
      requires t < MAX_TYPES && 2 <= table.Length && Degree(t) < table.Length
      modifies table
      ensures Valid() && tbl == table && rtype == t && (t > 0 ==> rear == 0) && View() == Seeded(t, seed)
    {
      tbl, rtype, deg, sep, front, rear := table, t, Degree(t), Separation(t), 0, 0;
      new;
      Srandom(seed);
    }

    /** random_unlocked: one step of the recurrence. The two pointers stay in bounds
        and sep apart, and never wrap together. */
    method Random() returns (i: Word)
      requires Valid()
      modifies this, tbl
      ensures Valid() && tbl == old(tbl) && rtype == old(rtype)
      ensures rtype == 0 ==>
        View() == Congruential((1103515245 * old(tbl[1]) as int + 12345) % 0x8000_0000) && i == View().x
      ensures rtype > 0 ==>
        && View() == Feedback(rtype, Shift(old(View()).w, sep)) && i == View().w[deg - 1] / 2
        && rear == Wrap(old(rear) + 1, deg)
      ensures rtype > 0 ==> IsSum(View().w[deg - 1], old(View()).w[0], old(View()).w[deg - sep])
      ensures tbl[0] == old(tbl[0])
    {
      hide Window;
      hide Shift;
      hide Add;
      hide IsSum;
      hide Degree;
      hide Separation;
      Types(rtype);
      if rtype == 0 {
        i := Scale(tbl[1]) % 0x8000_0000;
        tbl[1] := i;
      } else {
        i := Feed();
      }
    }

    /** The additive-feedback branch of random_unlocked. */
    method Feed() returns (i: Word)
      requires Valid() && rtype > 0
      modifies this`front, this`rear, tbl
      ensures Valid() && rear == Wrap(old(rear) + 1, deg) && tbl[0] == old(tbl[0])
      ensures View() == Feedback(rtype, Shift(old(View()).w, sep)) && i == View().w[deg - 1] / 2
      ensures IsSum(View().w[deg - 1], old(View()).w[0], old(View()).w[deg - sep])
    {
      hide IsSum;
      hide Window;
      hide Shift;
      hide Add;
      hide Degree;
      hide Separation;
      Types(rtype);
      ghost var before := tbl[..];
      WindowStep(before, deg, sep, front, rear);
      var f, r := front, rear;
      tbl[1 + f] := Add(tbl[1 + f], tbl[1 + r]);
      assert tbl[..] == before[1 + f := Add(before[1 + f], before[1 + r])];
      Together(deg, sep, f, r);
      i := tbl[1 + f] / 2;
      front, rear := MoveOn(f, r, deg);
    }

    /** n calls: each new word is the sum of those deg and sep steps earlier. */
    method Draw(n: nat) returns (out: seq<Word>)
      requires Valid() && rtype > 0
      modifies this, tbl
      ensures Valid() && tbl == old(tbl) && rtype == old(rtype) && |out| == n
      ensures View() == Feedback(rtype, Terms(old(View()).w, sep, n))
      ensures Drawn(old(View()).w, sep, out)
      ensures Recurs(out, deg, sep)
      ensures tbl[0] == old(tbl[0]) && deg == old(deg) && rear == (old(rear) + n) % deg
    {
      hide Drawn;
      hide Terms;
      hide Add;
      hide IsSum;
      hide Window;
      hide Degree;
      hide Separation;
      hide Term;
      hide Shift;
      hide Recurs;
      Types(rtype);
      ghost var w := View().w;
      FirstTerms(w, sep);
      DrawnNone(w, sep);
      ModIs(rear, deg, 0, rear);
      out := [];
      var i := 0;
      while i < n
        invariant 0 <= i <= n && Valid() && tbl == old(tbl) && rtype == old(rtype) && |out| == i
        invariant View() == Feedback(rtype, Terms(w, sep, i))
        invariant Drawn(w, sep, out)
        invariant tbl[0] == old(tbl[0]) && rear == (old(rear) + i) % deg
      {
        ModNext(old(rear) + i, deg);
        ShiftTerms(w, sep, i);
        var x := Random();
        DrawnMore(w, sep, out, View().w);
        out := out + [x];
        i := i + 1;
      }
      DrawnHalves(w, sep, out);
    }

    /** srandom_unlocked: the rear pointer ends where it began, at 0. */
    method Srandom(x: Word)
      requires rtype < MAX_TYPES && deg == Degree(rtype) && sep == Separation(rtype) && 2 <= tbl.Length
        && deg < tbl.Length
      modifies this, tbl
      ensures Valid() && tbl == old(tbl) && rtype == old(rtype) && (rtype > 0 ==> rear == 0)
      ensures tbl[0] == old(tbl[0]) && View() == Seeded(rtype, x)
    {
      hide Terms;
      hide Window;
      hide Degree;
      hide Separation;
      hide Scale;
      hide Shift;
      Types(rtype);
      tbl[1] := x;
      if rtype > 0 {
        var i := 1;
        while i < deg
          invariant 1 <= i <= deg && unchanged(this) && tbl[0] == old(tbl[0])
          invariant forall j :: 0 <= j < i ==> tbl[1 + j] == Filled(x, j)
        {
          tbl[1 + i] := Scale(tbl[i]) % 0x1_0000_0000;
          i := i + 1;
        }
        front := sep;
        rear := 0;
        FilledIs(tbl[..], x, deg, sep);
        Warmup();
      }
    }

    /** The last loop of srandom_unlocked. */
    method Warmup()
      requires Valid() && rtype > 0 && rear == 0
      modifies this, tbl
      ensures Valid() && tbl == old(tbl) && rtype == old(rtype) && rear == 0 && tbl[0] == old(tbl[0])
      ensures View() == Feedback(rtype, Terms(old(View()).w, sep, 10 * deg))
    {
      hide IsSum;
      hide Window;
      hide Terms;
      hide Shift;
      hide Degree;
      hide Separation;
      Types(rtype);
      ghost var w := View().w;
      FirstTerms(w, sep);
      var i := 0;
      ghost var q, base := 0, 0;
      while i < 10 * deg
        invariant 0 <= i <= 10 * deg && Valid() && tbl == old(tbl) && rtype == old(rtype) && deg == old(deg)
        invariant i == base + rear && base == q * deg && tbl[0] == old(tbl[0])
        invariant View() == Feedback(rtype, Terms(w, sep, i))
      {
        ShiftTerms(w, sep, i);
        var _ := Random();
        if rear == 0 {
          Turn(q, deg);
          q, base := q + 1, base + deg;
        }
        i := i + 1;
      }
      TenTurns(deg, q, rear);
    }

    /** The word that setstate and initstate leave in front of the current table. */
    function Mark(): Word
      requires Valid()
      reads this
    {
      if rtype == 0 then 0 else MAX_TYPES * rear + rtype
    }

    method SaveMark()
      requires Valid()
      modifies tbl
      ensures tbl[0] == Mark() && forall i :: 1 <= i < tbl.Length ==> tbl[i] == old(tbl[i])
    {
      tbl[0] := if rtype == 0 then rtype else MAX_TYPES * rear + rtype;
    }

    /** setstate: the position of the current table is stored, that of the new one restored. */
    method SetState(table: array<Word>, ghost t: nat, ghost p: nat) returns (old_: array<Word>)
      requires Valid() && Left(table, t, p)
      modifies this, tbl
      ensures Valid() && old_ == old(tbl) && tbl == table && rtype == t && (t > 0 ==> rear == p)
      ensures table != old(tbl) ==> tbl[0] == Mark()
      ensures View() == TableView(old(table[..]), t, p)
      ensures old(tbl)[0] == old(Mark()) && forall i :: 1 <= i < old(tbl).Length ==> old(tbl)[i] == old(tbl[i])
    {
      hide Degree;
      hide Separation;
      Types(t);
      Multiplexed(t, p);
      if t > 0 { WrapIsMod(p + Separation(t), Degree(t)); }
      old_ := tbl;
      var rt, re := table[0] % MAX_TYPES, table[0] / MAX_TYPES;
      SaveMark();
      rtype, deg, sep := rt, Degree(rt), Separation(rt);
      tbl := table;
      if rtype != 0 {
        rear := re;
        front := (re + sep) % deg;
      }
      SameTable(tbl[..], old(table[..]), t, p);
    }

    /** The rear's place; the congruential generator has none. */
    function Position(): nat
      reads this
    {
      if rtype == 0 then 0 else rear
    }

    /** The view is that of the table at the rear's place. */
    lemma ViewIs()
      requires Valid()
      ensures rtype > 0 ==> rear < Degree(rtype)
      ensures View() == TableView(tbl[..], rtype, Position())
    {
      hide Window;
    }

    /** Any number of calls, of either kind of generator. */
    method Spin(n: nat) returns (out: seq<Word>)
      requires Valid()
      modifies this, tbl
      ensures Valid() && tbl == old(tbl) && rtype == old(rtype) && tbl[0] == old(tbl[0])
      ensures Position() == Around(old(Position()) + n, rtype)
      ensures View() == Moved(old(View()), n) && |out| == n && Numbers(old(View()), out)
    {
      hide Degree;
      hide Separation;
      hide Terms;
      hide Drawn;
      hide Recurs;
      hide Jump;
      hide Window;
      Types(rtype);
      if rtype > 0 {
        out := Draw(n);
      } else {
        out := Congruents(n);
      }
    }

    /** The same for the congruential generator. */
    method Congruents(n: nat) returns (out: seq<Word>)
      requires Valid() && rtype == 0
      modifies this, tbl
      ensures Valid() && tbl == old(tbl) && rtype == old(rtype) && tbl[0] == old(tbl[0])
      ensures View() == Moved(old(View()), n) && |out| == n && Numbers(old(View()), out)
    {
      hide Window;
      hide Shift;
      hide IsSum;
      hide Jump;
      Types(0);
      ghost var x := tbl[1];
      out := [];
      var i := 0;
      while i < n
        invariant 0 <= i <= n && Valid() && tbl == old(tbl) && rtype == 0 && tbl[0] == old(tbl[0])
        invariant |out| == i && forall j :: 0 <= j < i ==> out[j] == Jump(x, j + 1, 0x8000_0000)
        invariant tbl[1] == if i == 0 then x else Jump(x, i, 0x8000_0000)
      {
        JumpNext(x, i, tbl[1]);
        var y := Random();
        out := out + [y];
        i := i + 1;
      }
    }

    /** initstate with room for n bytes: the largest generator that fits is seeded, with
        the rear at 0; null, and no change but the mark, for fewer than 8 bytes. */
    method InitState(seed: Word, table: array<Word>, n: nat) returns (ok: bool)
      requires Valid() && n <= 4 * table.Length
      modifies this, tbl, table
      ensures Valid() && (ok <==> n >= 8)
      ensures ok ==> tbl == table && rtype == TypeFor(n) && Left(table, rtype, 0) && (rtype > 0 ==> rear == 0)
      ensures ok ==> View() == Seeded(TypeFor(n), seed)
      ensures !ok ==> tbl == old(tbl) && View() == old(View()) && tbl[0] == Mark()
      ensures !ok ==> rtype == old(rtype) && rear == old(rear) && (table != tbl ==> table[..] == old(table[..]))
      ensures old(tbl) != table ==> old(tbl)[0] == old(Mark()) && forall i :: 1 <= i < old(tbl).Length ==>
        old(tbl)[i] == old(tbl[i])
    {
      hide Window;
      hide Seeded;
      hide Degree;
      hide Separation;
      Types(rtype);
      SaveMark();
      if n < 8 {
        if rtype > 0 { SameWindow(tbl[..], old(tbl[..]), deg, front); }
        return false;
      }
      rtype := TypeFor(n);
      deg, sep := Degree(rtype), Separation(rtype);
      tbl := table;
      Srandom(seed);
      ghost var before := tbl[..];
      tbl[0] := if rtype == 0 then rtype else MAX_TYPES * rear + rtype;
      Types(rtype);
      if rtype > 0 { SameWindow(tbl[..], before, deg, front); }
      ok := true;
    }

    /** Switching to another table, drawing from it, and switching back resumes the
        sequence where it was left. */
    method SwitchAndBack(other: array<Word>, ghost t: nat, ghost p: nat, n: nat)
      requires Valid() && other != tbl && Left(other, t, p)
      modifies this, tbl, other
      ensures Valid() && tbl == old(tbl) && View() == old(View())
    {
      hide IsSum;
      hide Window;
      hide Terms;
      hide Jump;
      hide Degree;
      hide Separation;
      Types(rtype);
      ghost var t0, p0, before, f := rtype, Position(), tbl[..], front;
      var mine := SetState(other, t, p);
      var _ := Spin(n);
      var _ := SetState(mine, t0, p0);
      Types(t0);
      if t0 > 0 { SameWindow(before, tbl[..], deg, f); }
    }

    /** Switching to the table that is current already swaps the position and the mark,
        for the mark is read before it is stored. After n draws the position is kept if
        and only if they led to the mark m. */
    method DrawAndSet(n: nat, ghost m: nat) returns (out: seq<Word>)
      requires Valid() && rtype > 0 && Left(tbl, rtype, m)
      modifies this, tbl
      ensures Valid() && tbl == old(tbl) && rtype == old(rtype) && deg == old(deg)
      ensures rear == m && Left(tbl, rtype, (old(rear) + n) % deg)
      ensures rear == (old(rear) + n) % deg ==> View() == Feedback(rtype, Terms(old(View()).w, sep, n))
      ensures |out| == n && Drawn(old(View()).w, sep, out) && Recurs(out, deg, sep)
    {
      hide Drawn;
      hide Recurs;
      hide Window;
      hide Terms;
      hide Term;
      hide Degree;
      hide Separation;
      Types(rtype);
      out := Draw(n);
      ghost var drawn, f := tbl[..], front;
      var _ := SetState(tbl, rtype, m);
      SameWindow(drawn, tbl[..], deg, f);
    }

    /** The mark is up to date after initstate, so the position after n draws is lost
        unless n is a multiple of the degree. */
    method InitDrawSet(seed: Word, table: array<Word>, bytes: nat, n: nat) returns (out: seq<Word>)
      requires Valid() && 32 <= bytes <= 4 * table.Length
      modifies this, tbl, table
      ensures Valid() && tbl == table && rtype == TypeFor(bytes) && rear == 0 && |out| == n
      ensures rear == n % deg <==> n % deg == 0
      ensures n == 1 ==> rear != n % deg
    {
      var _ := InitState(seed, table, bytes);
      out := DrawAndSet(n, 0);
    }
  }

  /** The type initstate chooses for n bytes. */
  function TypeFor(n: nat): (t: nat)
    requires n >= 8
    ensures t < MAX_TYPES && 4 * (Degree(t) + 1) <= n
    ensures forall u :: t < u < MAX_TYPES ==> n < 4 * (Degree(u) + 1)
  {
    if n < 32 then 0 else if n < 64 then 1 else if n < 128 then 2 else if n < 256 then 3 else 4
  }

  // ----- Whole runs over several tables

  /** Calls: n numbers, srandom, setstate to table j, initstate on table j. */
  datatype Event = Draws(n: nat) | Reseed(x: Word) | Switch(j: nat) | Init(j: nat, seed: Word, bytes: nat)

  /** What the first word of a table is known to say. */
  datatype Kept = Unset | At(t: nat, p: nat)

  /** What a caller can count: the current table, its type, the position and the marks. */
  datatype Count = Count(cur: nat, t: nat, pos: nat, marks: seq<Kept>)

  predicate Counted(c: Count) {
    && c.cur < |c.marks| && c.t < MAX_TYPES
    && forall j :: 0 <= j < |c.marks| && c.marks[j].At? ==> c.marks[j].t < MAX_TYPES
  }

  /** setstate needs a table that has been initialised or left, initstate one with room. */
  predicate Possible(c: Count, ev: Event, lengths: seq<nat>) {
    match ev
    case Switch(j) => j < |c.marks| && c.marks[j].At?
    case Init(j, _, bytes) => j < |c.marks| && j < |lengths| && bytes <= 4 * lengths[j]
    case _ => true
  }

  /** The count after a call that is possible. The mark of the current table is stored
      after that of the new one is read. */
  function Next(c: Count, ev: Event): (c': Count)
    ensures Counted(c) ==> Counted(c') && |c'.marks| == |c.marks|
  {
    var left := if c.cur < |c.marks| then c.marks[c.cur := At(c.t, c.pos)] else c.marks;
    match ev
    case Draws(n) => c.(pos := Around(c.pos + n, c.t))
    case Reseed(_) => c.(pos := 0)
    case Switch(j) => if j < |c.marks| && c.marks[j].At? then Count(j, c.marks[j].t, c.marks[j].p, left) else c
    case Init(j, _, bytes) =>
      if j >= |c.marks| || bytes < 8 then c.(marks := left)
      else Count(j, TypeFor(bytes), 0, left[j := At(TypeFor(bytes), 0)])
  }

  /** The generator and the tables are as counted. */
  ghost predicate Tracks(g: Generator, tables: seq<array<Word>>, c: Count)
    reads g, tables
  {
    && g.Valid() && Counted(c) && |tables| == |c.marks|
    && (forall i, j :: 0 <= i < j < |tables| ==> tables[i] != tables[j])
    && g.tbl == tables[c.cur] && g.rtype == c.t && g.Position() == c.pos
    && forall j :: 0 <= j < |tables| && c.marks[j].At? ==> Left(tables[j], c.marks[j].t, c.marks[j].p)
  }

  function Lengths(tables: seq<array<Word>>): seq<nat> {
    seq(|tables|, j requires 0 <= j < |tables| => tables[j].Length)
  }

  /** What each table produces from its mark on, and the current one from its position on. */
  function NextViews(c: Count, vs: seq<State>, ev: Event): (vs': seq<State>)
    ensures |vs'| == |vs|
  {
    if !Counted(c) || |vs| != |c.marks| then vs
    else match ev
      case Draws(n) => vs[c.cur := Moved(vs[c.cur], n)]
      case Reseed(x) => vs[c.cur := Seeded(c.t, x)]
      case Switch(j) =>
        if j == c.cur && c.marks[j].At? then vs[j := Rotated(vs[j], c.pos, c.marks[j].p)] else vs
      case Init(j, seed, bytes) => if j >= |vs| || bytes < 8 then vs else vs[j := Seeded(TypeFor(bytes), seed)]
  }

  /** The generator and the tables hold these. */
  ghost predicate Follows(g: Generator, tables: seq<array<Word>>, c: Count, vs: seq<State>)
    reads g, tables
  {
    && Tracks(g, tables, c) && |vs| == |tables| && g.View() == vs[c.cur]
    && (c.marks[c.cur].At? ==> c.marks[c.cur].t == c.t)
    && forall j :: 0 <= j < |tables| && j != c.cur && c.marks[j].At? ==>
         TableView(tables[j][..], c.marks[j].t, c.marks[j].p) == vs[j]
  }

  method DoSwitch(g: Generator, tables: seq<array<Word>>, j: nat, ghost c: Count, ghost vs: seq<State>)
    requires Follows(g, tables, c, vs) && Possible(c, Switch(j), Lengths(tables))
    modifies g, tables
    ensures Follows(g, tables, Next(c, Switch(j)), NextViews(c, vs, Switch(j)))
  {
    hide Degree;
    hide Separation;
    hide Generator.View;
    hide TableView;
    hide Rotated;
    Types(c.t);
    g.ViewIs();
    if j == c.cur { Rotation(g.tbl[..], c.t, c.pos, c.marks[j].p); }
    ghost var before, cur := g.tbl[..], g.tbl;
    var _ := g.SetState(tables[j], c.marks[j].t, c.marks[j].p);
    if j != c.cur { SameTable(cur[..], before, c.t, c.pos); }
  }

  method DoInit(g: Generator, tables: seq<array<Word>>, j: nat, seed: Word, bytes: nat, ghost c: Count,
                ghost vs: seq<State>)
    requires Follows(g, tables, c, vs) && Possible(c, Init(j, seed, bytes), Lengths(tables))
    modifies g, tables
    ensures Follows(g, tables, Next(c, Init(j, seed, bytes)), NextViews(c, vs, Init(j, seed, bytes)))
  {
    hide Degree;
    hide Separation;
    hide Generator.View;
    hide TableView;
    hide TypeFor;
    hide Seeded;
    Types(c.t);
    g.ViewIs();
    ghost var before, cur := g.tbl[..], g.tbl;
    var _ := g.InitState(seed, tables[j], bytes);
    if j != c.cur { SameTable(cur[..], before, c.t, c.pos); }
  }

  /** One call does to the generator what it does to the count and to what the tables
      produce, and a draw hands out the numbers that the current one produces. */
  method Do(g: Generator, tables: seq<array<Word>>, ev: Event, ghost c: Count, ghost vs: seq<State>)
    returns (out: seq<Word>)
    requires Follows(g, tables, c, vs) && Possible(c, ev, Lengths(tables))
    modifies g, tables
    ensures Follows(g, tables, Next(c, ev), NextViews(c, vs, ev))
    ensures ev.Draws? ==> |out| == ev.n && Numbers(vs[c.cur], out)
  {
    hide Degree;
    hide Separation;
    hide Generator.View;
    hide TableView;
    hide TypeFor;
    hide Moved;
    hide Seeded;
    hide Numbers;
    Types(c.t);
    out := [];
    match ev
    case Draws(n) => out := g.Spin(n);
    case Reseed(x) => g.Srandom(x);
    case Switch(j) => DoSwitch(g, tables, j, c, vs);
    case Init(j, seed, bytes) => DoInit(g, tables, j, seed, bytes, c, vs);
  }

  /** The count after a run of calls, and what the tables then produce. */
  function Afterwards(c: Count, evs: seq<Event>): Count {
    if evs == [] then c else Next(Afterwards(c, evs[..|evs| - 1]), evs[|evs| - 1])
  }

  function ViewsAfter(c: Count, vs: seq<State>, evs: seq<Event>): (vs': seq<State>)
    ensures |vs'| == |vs|
  {
    if evs == [] then vs
    else
      var front := evs[..|evs| - 1];
      NextViews(Afterwards(c, front), ViewsAfter(c, vs, front), evs[|evs| - 1])
  }

  predicate PossibleRun(c: Count, evs: seq<Event>, lengths: seq<nat>) {
    forall i :: 0 <= i < |evs| ==> Possible(Afterwards(c, evs[..i]), evs[i], lengths)
  }

  lemma AfterwardsOne(c: Count, evs: seq<Event>, i: nat)
    requires i < |evs|
    ensures Afterwards(c, evs[..i + 1]) == Next(Afterwards(c, evs[..i]), evs[i])
  {
    assert evs[..i + 1][..i] == evs[..i];
  }

  lemma ViewsOne(c: Count, vs: seq<State>, evs: seq<Event>, i: nat)
    requires i < |evs|
    ensures ViewsAfter(c, vs, evs[..i + 1])
         == NextViews(Afterwards(c, evs[..i]), ViewsAfter(c, vs, evs[..i]), evs[i])
  {
    hide NextViews;
    assert evs[..i + 1][..i] == evs[..i];
  }

  /** The numbers handed out by call i of a run. */
  predicate NumbersOf(c: Count, vs: seq<State>, evs: seq<Event>, i: nat, out: seq<Word>)
    requires i < |evs|
  {
    evs[i].Draws? ==>
      var cur := Afterwards(c, evs[..i]).cur;
      |out| == evs[i].n && cur < |vs| && Numbers(ViewsAfter(c, vs, evs[..i])[cur], out)
  }

  /** Over any run of calls the position, the marks and what each table produces are those
      counted from the calls, and so are all numbers handed out. */
  method Run(g: Generator, tables: seq<array<Word>>, evs: seq<Event>, ghost c: Count, ghost vs: seq<State>)
    returns (outs: seq<seq<Word>>)
    requires Follows(g, tables, c, vs) && PossibleRun(c, evs, Lengths(tables))
    modifies g, tables
    ensures Follows(g, tables, Afterwards(c, evs), ViewsAfter(c, vs, evs))
    ensures |outs| == |evs| && forall i :: 0 <= i < |evs| ==> NumbersOf(c, vs, evs, i, outs[i])
  {
    hide Follows;
    hide Next;
    hide NextViews;
    hide Possible;
    hide Numbers;
    outs := [];
    var i := 0;
    while i < |evs|
      invariant 0 <= i <= |evs| && Follows(g, tables, Afterwards(c, evs[..i]), ViewsAfter(c, vs, evs[..i]))
      invariant |outs| == i && forall k :: 0 <= k < i ==> NumbersOf(c, vs, evs, k, outs[k])
    {
      AfterwardsOne(c, evs, i);
      ViewsOne(c, vs, evs, i);
      FollowsCur(g, tables, Afterwards(c, evs[..i]), ViewsAfter(c, vs, evs[..i]));
      var out := Do(g, tables, evs[i], Afterwards(c, evs[..i]), ViewsAfter(c, vs, evs[..i]));
      assert NumbersOf(c, vs, evs, i, out);
      outs := outs + [out];
      i := i + 1;
    }
    assert evs[..i] == evs;
  }

  lemma FollowsCur(g: Generator, tables: seq<array<Word>>, c: Count, vs: seq<State>)
    requires Follows(g, tables, c, vs)
    ensures c.cur < |vs|
  {
  }

  /** A generator that has just been made on table 0, with no mark in any table. */
  method Begin(tables: seq<array<Word>>, t: nat, seed: Word)
    returns (g: Generator, ghost c: Count, ghost vs: seq<State>)
    requires 0 < |tables| && t < MAX_TYPES && 2 <= tables[0].Length && Degree(t) < tables[0].Length
    requires forall i, j :: 0 <= i < j < |tables| ==> tables[i] != tables[j]
    modifies tables
    ensures fresh(g) && Follows(g, tables, c, vs) && c == Count(0, t, 0, seq(|tables|, _ => Unset))
    ensures vs[0] == Seeded(t, seed)
  {
    hide Seeded;
    hide TableView;
    g := new Generator(tables[0], t, seed);
    c := Count(0, t, 0, seq(|tables|, _ => Unset));
    vs := seq(|tables|, _ => Seeded(t, seed));
  }

  // ----- setstate to the current table, over and over

  /** Draws, each followed by setstate to the current table j. */
  function Rounds(j: nat, ds: seq<nat>): seq<Event> {
    if ds == [] then [] else Rounds(j, ds[..|ds| - 1]) + [Draws(ds[|ds| - 1]), Switch(j)]
  }

  /** Every second of the draws, from the last one back. */
  function Alternate(ds: seq<nat>): nat {
    if ds == [] then 0
    else ds[|ds| - 1] + if |ds| == 1 then 0 else Alternate(ds[..|ds| - 2])
  }

  lemma RoundsOne(c: Count, j: nat, ds: seq<nat>, d: nat)
    ensures Afterwards(c, Rounds(j, ds) + [Draws(d)]) == Next(Afterwards(c, Rounds(j, ds)), Draws(d))
    ensures Afterwards(c, Rounds(j, ds + [d])) == Next(Next(Afterwards(c, Rounds(j, ds)), Draws(d)), Switch(j))
  {
    hide Next;
    var a, b := Rounds(j, ds) + [Draws(d)], Rounds(j, ds + [d]);
    assert (ds + [d])[..|ds|] == ds;
    assert b == a + [Switch(j)];
    AfterwardsOne(c, b, |a| - 1);
    AfterwardsOne(c, b, |a|);
    assert b[..|a| - 1] == Rounds(j, ds) && b[..|a|] == a && b[..|a| + 1] == b;
  }

  /** A count right after initstate or setstate on its current table. */
  predicate Installed(c: Count) {
    Counted(c) && c.t > 0 && c.pos == 0 && c.marks[c.cur] == At(c.t, 0)
  }

  /** Position and mark after such rounds: they hold the two alternating sums. */
  lemma {:induction false} AlternatingSums(c: Count, ds: seq<nat>)
    requires Installed(c)
    ensures var c' := Afterwards(c, Rounds(c.cur, ds));
            && Counted(c') && c'.cur == c.cur && c'.t == c.t && |c'.marks| == |c.marks|
            && c'.pos == (if ds == [] then 0 else Around(Alternate(ds[..|ds| - 1]), c.t))
            && c'.marks[c.cur] == At(c.t, Around(Alternate(ds), c.t))
  {
    hide Degree;
    Types(c.t);
    if ds == [] {
      ModIs(0, Degree(c.t), 0, 0);
    } else {
      var n := |ds| - 1;
      var before, d := ds[..n], ds[n];
      assert before + [d] == ds;
      AlternatingSums(c, before);
      RoundsOne(c, c.cur, before, d);
      if n > 0 {
        assert before[..n - 1] == ds[..n - 1];
        ModPlus(Alternate(ds[..n - 1]), d, Degree(c.t));
      }
    }
  }

  /** So the next of these calls, after d more draws, keeps the position if and only if the
      sum of every second of the draws, from the last one back, and that of the others
      differ by whole turns. */
  lemma SameKeeps(c: Count, ds: seq<nat>, d: nat)
    requires Installed(c)
    ensures Afterwards(c, Rounds(c.cur, ds + [d])).pos == Afterwards(c, Rounds(c.cur, ds) + [Draws(d)]).pos
            <==> Around(Alternate(ds + [d]), c.t) == Around(Alternate(ds), c.t)
  {
    hide Degree;
    Types(c.t);
    AlternatingSums(c, ds);
    AlternatingSums(c, ds + [d]);
    RoundsOne(c, c.cur, ds, d);
    assert (ds + [d])[..|ds|] == ds;
    if |ds| > 0 {
      assert (ds + [d])[..|ds| - 1] == ds[..|ds| - 1];
      ModPlus(Alternate(ds[..|ds| - 1]), d, Degree(c.t));
    }
  }

  /** After initstate with 32 bytes, one draw and setstate to the same table, seven draws and
      setstate move the position to 1, although they go once around the table. */
  lemma SecondTimeExample(c: Count)
    requires Installed(c) && c.t == 1
    ensures Degree(1) == 7 && Afterwards(c, Rounds(c.cur, [1])).pos == 0
    ensures Afterwards(c, Rounds(c.cur, [1]) + [Draws(7)]).pos == 0 && Afterwards(c, Rounds(c.cur, [1, 7])).pos == 1
  {
    hide Afterwards;
    hide Rounds;
    AlternatingSums(c, [1]);
    AlternatingSums(c, [1, 7]);
    RoundsOne(c, c.cur, [1], 7);
    assert [1][..0] == [] && [1, 7][..1] == [1] && [1] + [7] == [1, 7];
    assert Alternate([]) == 0 && Alternate([1]) == 1;
    hide Alternate;
    assert Around(0, 1) == 0 && Around(1, 1) == 1 && Around(7, 1) == 0;
  }

  /** And those calls are possible, so the generator does all this. */
  lemma {:induction false} RoundsPossible(c: Count, ds: seq<nat>, lengths: seq<nat>)
    requires Installed(c)
    ensures PossibleRun(c, Rounds(c.cur, ds), lengths)
  {
    hide Next;
    hide Afterwards;
    hide Alternate;
    if ds != [] {
      var n := |ds| - 1;
      var before, d, b := ds[..n], ds[n], Rounds(c.cur, ds);
      assert before + [d] == ds;
      var a := Rounds(c.cur, before);
      RoundsPossible(c, before, lengths);
      AlternatingSums(c, before);
      RoundsOne(c, c.cur, before, d);
      DrawsKeep(Afterwards(c, a), d);
      forall i | 0 <= i < |b| ensures Possible(Afterwards(c, b[..i]), b[i], lengths) {
        if i < |a| {
          assert b[..i] == a[..i] && b[i] == a[i];
        } else if i == |a| + 1 {
          assert b[..i] == a + [Draws(d)];
        }
      }
    }
  }

  lemma DrawsKeep(c: Count, n: nat)
    ensures Next(c, Draws(n)).marks == c.marks && Next(c, Draws(n)).cur == c.cur
  {
  }
}
