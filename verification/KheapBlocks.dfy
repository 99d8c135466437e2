/** Pages of equal-sized blocks and the lists of kheap.c, as values. */
module KheapBlocks {

  import opened Arith

  const PAGE_SIZE: nat := 4096
  const NSIZES: nat := 8
  const NPAGEREFS: nat := 256
  const INVALID_OFFSET: nat := 0xffff
  const NIL: nat := 256      // a null pointer to a record
  const NULL: nat := 0       // a null address

  function Sizes(): seq<nat> { [16, 32, 64, 128, 256, 512, 1024, 2048] }

  function Size(t: nat): (s: nat)
    requires t < NSIZES
    ensures 16 <= s <= 2048 && s % 8 == 0 && PAGE_SIZE % s == 0
  {
    Sizes()[t]
  }

  /** Sizes double, so that less than half of a block is wasted. */
  lemma SizesDouble(t: nat, sz: nat)
    requires t < NSIZES
    ensures Size(t) == 16 * Power(2, t)
    ensures t > 0 && Size(t - 1) < sz <= Size(t) ==> Size(t) < 2 * sz
  {
    assert Power(2, 0) == 1 && Power(2, 1) == 2 && Power(2, 2) == 4 && Power(2, 3) == 8;
    assert Power(2, 4) == 16 && Power(2, 5) == 32 && Power(2, 6) == 64 && Power(2, 7) == 128;
  }

  function PerPage(t: nat): (n: nat)
    requires t < NSIZES
    ensures n >= 2 && n * Size(t) == PAGE_SIZE
  {
    PAGE_SIZE / Size(t)
  }

  // ----- Packing a page address and a block type into a word

  function MkPab(pa: nat, t: nat): nat { (pa - pa % PAGE_SIZE) + t % PAGE_SIZE }
  function PageAddr(pab: nat): nat { pab - pab % PAGE_SIZE }
  function BlockTypeOf(pab: nat): nat { pab % PAGE_SIZE }

  lemma PackUnpack(pa: nat, t: nat)
    requires pa % PAGE_SIZE == 0 && t < PAGE_SIZE
    ensures PageAddr(MkPab(pa, t)) == pa && BlockTypeOf(MkPab(pa, t)) == t
  {
  }

  // ----- Blocks of a page

  function Addr(page: nat, t: nat, k: nat): nat
    requires t < NSIZES
  {
    page + k * Size(t)
  }

  /** Address a is the start of a block of the page. */
  predicate IsBlock(page: nat, t: nat, a: nat)
    requires t < NSIZES
  {
    page <= a < page + PAGE_SIZE && (a - page) % Size(t) == 0
  }

  function Index(page: nat, t: nat, a: nat): nat
    requires t < NSIZES && page <= a
  {
    (a - page) / Size(t)
  }

  lemma BlockOfIndex(page: nat, t: nat, k: nat)
    requires t < NSIZES && k < PerPage(t)
    ensures IsBlock(page, t, Addr(page, t, k)) && Index(page, t, Addr(page, t, k)) == k
    ensures Addr(page, t, k) + Size(t) <= page + PAGE_SIZE
  {
    var s, n := Size(t), PerPage(t);
    hide Size;
    hide PerPage;
    Room(k, n, s);
    DivisionUnique(s, k, 0, k * s / s, k * s % s);
  }

  lemma IndexOfBlock(page: nat, t: nat, a: nat)
    requires t < NSIZES && IsBlock(page, t, a)
    ensures Index(page, t, a) < PerPage(t) && Addr(page, t, Index(page, t, a)) == a
  {
    var s, n, k := Size(t), PerPage(t), Index(page, t, a);
    hide Size;
    hide PerPage;
    assert a - page == s * k;
    if n <= k { MulMono(n, k, s); }
  }

  lemma BlockFits(page: nat, t: nat, a: nat)
    requires t < NSIZES && IsBlock(page, t, a)
    ensures a + Size(t) <= page + PAGE_SIZE
  {
    IndexOfBlock(page, t, a);
    BlockOfIndex(page, t, Index(page, t, a));
  }

  lemma AlignedBlock(page: nat, t: nat, a: nat)
    requires t < NSIZES && page % PAGE_SIZE == 0 && IsBlock(page, t, a)
    ensures a % 8 == 0
  {
    IndexOfBlock(page, t, a);
    TimesSize(Index(page, t, a), Size(t));
    EightTimes(page / PAGE_SIZE, Index(page, t, a) * Size(t), a);
  }

  lemma TimesSize(k: nat, size: nat)
    requires size % 8 == 0
    ensures k * size % 8 == 0
  {
    var h := size / 8;
    assert k * size == k * (8 * h) == 8 * (k * h);
  }

  lemma EightTimes(p: nat, x: nat, a: nat)
    requires x % 8 == 0 && a == 4096 * p + x
    ensures a % 8 == 0
  {
    assert a == 8 * (512 * p + x / 8);
  }

  lemma PagesApart(p: nat, q: nat)
    requires p % PAGE_SIZE == 0 && q % PAGE_SIZE == 0 && p != q
    ensures p + PAGE_SIZE <= q || q + PAGE_SIZE <= p
  {
  }

  /** Distinct blocks of a page do not overlap. */
  lemma BlocksDisjoint(page: nat, t: nat, a: nat, b: nat)
    requires t < NSIZES && IsBlock(page, t, a) && IsBlock(page, t, b) && a < b
    ensures a + Size(t) <= b
  {
    var s, k, l := Size(t), Index(page, t, a), Index(page, t, b);
    hide Size;
    assert a - page == s * k && b - page == s * l;
    if k < l { Room(k, l, s); } else { MulMono(l, k, s); }
  }

  ghost predicate Distinct(s: seq<nat>) { forall i, j :: 0 <= i < j < |s| ==> s[i] != s[j] }

  /** Distinct numbers below n: there are at most n of them. */
  lemma {:induction false} Pigeonhole(s: seq<nat>, n: nat)
    requires Distinct(s) && forall k :: k in s ==> k < n
    ensures |s| <= n
    decreases n
  {
    if s != [] {
      assert s[0] in s;
      if n - 1 in s {
        var i :| 0 <= i < |s| && s[i] == n - 1;
        var r := s[..i] + s[i + 1..];
        forall k | k in r ensures k < n - 1 {
          var j :| 0 <= j < |r| && r[j] == k;
          var m := if j < i then j else j + 1;
          assert k == s[m] && s[m] in s;
          assert s[m] != s[i];
        }
        Pigeonhole(r, n - 1);
      } else {
        Pigeonhole(s, n - 1);
      }
    }
  }

  // ----- A page

  /** A page, its block type, and the indices of its free blocks in list order. */
  datatype Info = Info(page: nat, t: nat, free: seq<nat>)

  function Load(mem: map<nat, nat>, a: nat): nat { if a in mem then mem[a] else 0 }

  /** The list that starts at address a and runs through the blocks of s. */
  ghost predicate FreeChain(mem: map<nat, nat>, page: nat, t: nat, a: nat, s: seq<nat>)
    requires t < NSIZES
    decreases |s|
  {
    if s == [] then a == NULL
    else a == Addr(page, t, s[0]) && FreeChain(mem, page, t, Load(mem, a), s[1..])
  }

  function Head(page: nat, t: nat, s: seq<nat>): nat
    requires t < NSIZES
  {
    if s == [] then NULL else Addr(page, t, s[0])
  }

  ghost predicate FreeOk(mem: map<nat, nat>, i: Info) {
    && i.t < NSIZES && i.page % PAGE_SIZE == 0 && i.page > 0
    && Distinct(i.free) && (forall k :: k in i.free ==> k < PerPage(i.t))
    && FreeChain(mem, i.page, i.t, Head(i.page, i.t, i.free), i.free)
  }

  /** Only words of the free blocks matter to a free list. */
  lemma {:induction false} ChainFrame(mem: map<nat, nat>, mem': map<nat, nat>, page: nat, t: nat, a: nat, s: seq<nat>)
    requires t < NSIZES && FreeChain(mem, page, t, a, s)
    requires forall k :: k in s ==> Load(mem', Addr(page, t, k)) == Load(mem, Addr(page, t, k))
    ensures FreeChain(mem', page, t, a, s)
    decreases |s|
  {
    if s != [] {
      assert s[0] in s;
      assert forall k :: k in s[1..] ==> k in s;
      ChainFrame(mem, mem', page, t, Load(mem, a), s[1..]);
    }
  }

  /** Block a is allocated. */
  ghost predicate LiveIn(i: Info, a: nat) {
    i.t < NSIZES && IsBlock(i.page, i.t, a) && Index(i.page, i.t, a) !in i.free
  }

  ghost predicate Live(info: map<nat, Info>, a: nat) { exists r :: r in info && LiveIn(info[r], a) }

  /** A page with a free block gives it out. */
  lemma TakeFirst(mem: map<nat, nat>, i: Info, i': Info)
    requires FreeOk(mem, i) && i.free != [] && i' == i.(free := i.free[1..])
    ensures FreeOk(mem, i') && Load(mem, Head(i.page, i.t, i.free)) == Head(i.page, i.t, i'.free)
    ensures var p := Head(i.page, i.t, i.free); IsBlock(i.page, i.t, p) && !LiveIn(i, p)
    ensures forall a :: LiveIn(i', a) <==> LiveIn(i, a) || a == Head(i.page, i.t, i.free)
  {
    var k := i.free[0];
    assert k in i.free;
    assert FreeChain(mem, i.page, i.t, Load(mem, Addr(i.page, i.t, k)), i'.free);
    BlockOfIndex(i.page, i.t, k);
    assert forall x :: x in i.free <==> x == k || x in i.free[1..];
    assert k !in i.free[1..];
    forall a ensures LiveIn(i', a) <==> LiveIn(i, a) || a == Addr(i.page, i.t, k) {
      if IsBlock(i.page, i.t, a) { IndexOfBlock(i.page, i.t, a); }
    }
  }

  /** Nothing outside lo..hi changed. */
  ghost predicate OnlyIn(mem: map<nat, nat>, mem': map<nat, nat>, lo: nat, hi: nat) {
    forall x: nat :: x < lo || x >= hi ==> Load(mem', x) == Load(mem, x)
  }

  /** Free blocks are not touched by writes to a live one. */
  lemma FreeElsewhere(i: Info, a: nat, k: nat)
    requires LiveIn(i, a) && k in i.free && k < PerPage(i.t)
    ensures var b := Addr(i.page, i.t, k); b < a || b >= a + Size(i.t)
  {
    BlockOfIndex(i.page, i.t, k);
    var b := Addr(i.page, i.t, k);
    if b < a { BlocksDisjoint(i.page, i.t, b, a); } else if a < b { BlocksDisjoint(i.page, i.t, a, b); }
  }

  /** What the owner of a live block stores in it does not concern the free list. */
  lemma StoreFree(mem: map<nat, nat>, mem': map<nat, nat>, i: Info, a: nat)
    requires FreeOk(mem, i) && LiveIn(i, a) && OnlyIn(mem, mem', a, a + Size(i.t))
    ensures FreeOk(mem', i)
  {
    hide Size;
    forall j | j in i.free ensures Load(mem', Addr(i.page, i.t, j)) == Load(mem, Addr(i.page, i.t, j)) {
      FreeElsewhere(i, a, j);
    }
    ChainFrame(mem, mem', i.page, i.t, Head(i.page, i.t, i.free), i.free);
  }

  /** A block goes back to its page. There is room for it in the count. */
  lemma PutFirst(mem: map<nat, nat>, mem': map<nat, nat>, i: Info, a: nat, i': Info)
    requires FreeOk(mem, i) && LiveIn(i, a) && OnlyIn(mem, mem', a, a + Size(i.t))
    requires Load(mem', a) == Head(i.page, i.t, i.free)
    requires i' == i.(free := [Index(i.page, i.t, a)] + i.free)
    ensures FreeOk(mem', i') && |i.free| + 1 <= PerPage(i.t)
    ensures forall x :: LiveIn(i', x) <==> LiveIn(i, x) && x != a
  {
    var k := Index(i.page, i.t, a);
    IndexOfBlock(i.page, i.t, a);
    StoreFree(mem, mem', i, a);
    assert i'.free[1..] == i.free;
    Pigeonhole(i'.free, PerPage(i.t));
    forall x ensures LiveIn(i', x) <==> LiveIn(i, x) && x != a {
      if IsBlock(i.page, i.t, x) { IndexOfBlock(i.page, i.t, x); }
    }
  }

  /** A page all of whose blocks are free has no live block. */
  lemma AllFree(i: Info, a: nat)
    requires i.t < NSIZES && Distinct(i.free) && (forall k :: k in i.free ==> k < PerPage(i.t))
      && |i.free| == PerPage(i.t)
    ensures !LiveIn(i, a)
  {
    if LiveIn(i, a) {
      IndexOfBlock(i.page, i.t, a);
      Pigeonhole([Index(i.page, i.t, a)] + i.free, PerPage(i.t));
    }
  }

  /** A page with fewer free blocks than blocks has a live one. */
  lemma {:induction false} SomeLive(i: Info) returns (a: nat)
    requires i.t < NSIZES && |i.free| < PerPage(i.t)
    ensures LiveIn(i, a)
  {
    var k := Missing(i.free, PerPage(i.t));
    BlockOfIndex(i.page, i.t, k);
    a := Addr(i.page, i.t, k);
  }

  lemma {:induction false} Missing(s: seq<nat>, n: nat) returns (k: nat)
    requires |s| < n
    ensures k < n && k !in s
    decreases n
  {
    if n - 1 !in s {
      k := n - 1;
    } else {
      var i :| 0 <= i < |s| && s[i] == n - 1;
      var r := s[..i] + s[i + 1..];
      k := Missing(r, n - 1);
      assert forall x :: x in s ==> x == n - 1 || x in r by {
        assert s == s[..i] + [s[i]] + s[i + 1..];
      }
    }
  }

  // ----- A fresh page

  /** Its blocks, from the last to the first. */
  function Down(n: nat): (s: seq<nat>)
    ensures |s| == n && forall i :: 0 <= i < n ==> s[i] == n - 1 - i
  {
    if n == 0 then [] else [n - 1] + Down(n - 1)
  }

  /** One more block on the list of a fresh page. */
  lemma FreshStep(mem: map<nat, nat>, page: nat, t: nat, n: nat)
    requires t < NSIZES && 0 < n < PerPage(t) && FreeChain(mem, page, t, Addr(page, t, n - 1), Down(n))
    ensures FreeChain(mem[Addr(page, t, n) := Addr(page, t, n - 1)], page, t, Addr(page, t, n), Down(n + 1))
  {
    var mem' := mem[Addr(page, t, n) := Addr(page, t, n - 1)];
    forall k | k in Down(n) ensures Load(mem', Addr(page, t, k)) == Load(mem, Addr(page, t, k)) {
      BlockOfIndex(page, t, k);
      BlockOfIndex(page, t, n);
    }
    ChainFrame(mem, mem', page, t, Addr(page, t, n - 1), Down(n));
    assert Down(n + 1)[1..] == Down(n);
  }

  lemma FreshOk(mem: map<nat, nat>, page: nat, t: nat)
    requires t < NSIZES && page % PAGE_SIZE == 0 && page > 0
    requires FreeChain(mem, page, t, Addr(page, t, PerPage(t) - 1), Down(PerPage(t)))
    ensures FreeOk(mem, Info(page, t, Down(PerPage(t))))
  {
  }

  // ----- Linked lists of records

  /** The list that starts at record `head` and runs through s. */
  ghost predicate Chain(next: seq<nat>, head: nat, s: seq<nat>)
    decreases |s|
  {
    if s == [] then head == NIL
    else head == s[0] && s[0] < |next| && Chain(next, next[s[0]], s[1..])
  }

  lemma {:induction false} ChainSame(next: seq<nat>, next': seq<nat>, head: nat, s: seq<nat>)
    requires Chain(next, head, s) && |next'| == |next|
    requires forall r :: r in s && r < |next| ==> next'[r] == next[r]
    ensures Chain(next', head, s)
    decreases |s|
  {
    if s != [] {
      assert s[0] in s;
      assert forall r :: r in s[1..] ==> r in s;
      ChainSame(next, next', next[s[0]], s[1..]);
    }
  }

  lemma ChainPush(next: seq<nat>, head: nat, s: seq<nat>, r: nat)
    requires Chain(next, head, s) && r < |next| && r !in s
    ensures Chain(next[r := head], r, [r] + s)
  {
    ChainSame(next, next[r := head], head, s);
    assert ([r] + s)[1..] == s;
  }

  /** The tail of a list from position i on. */
  lemma {:induction false} ChainTail(next: seq<nat>, head: nat, s: seq<nat>, i: nat)
    requires Chain(next, head, s) && i <= |s|
    ensures i < |s| ==> s[i] < |next|
    ensures Chain(next, if i == 0 then head else if s[i - 1] < |next| then next[s[i - 1]] else NIL, s[i..])
    decreases i
  {
    if i > 0 {
      ChainTail(next, next[s[0]], s[1..], i - 1);
      assert s[1..][i - 1..] == s[i..];
      if i > 1 { assert s[1..][i - 2] == s[i - 1]; }
    } else {
      assert s[0..] == s;
    }
  }

  function Removed(s: seq<nat>, i: nat): seq<nat>
    requires i < |s|
  {
    s[..i] + s[i + 1..]
  }

  lemma RemovedTail(s: seq<nat>, i: nat)
    requires 0 < i < |s|
    ensures Removed(s, i)[1..] == Removed(s[1..], i - 1)
  {
    assert s[..i][1..] == s[1..][..i - 1];
    assert s[i + 1..] == s[1..][i..];
  }

  /** Unlinking element i > 0 through the link of its predecessor. */
  lemma {:induction false} ChainUnlink(next: seq<nat>, head: nat, s: seq<nat>, i: nat)
    requires Chain(next, head, s) && Distinct(s) && 0 < i < |s| && s[i - 1] < |next| && s[i] < |next|
    ensures Chain(next[s[i - 1] := next[s[i]]], head, Removed(s, i))
    decreases |s|
  {
    var next' := next[s[i - 1] := next[s[i]]];
    if i == 1 {
      ChainTail(next, head, s, 2);
      ChainSame(next, next', next[s[1]], s[2..]);
      assert Removed(s, i)[1..] == s[2..];
    } else {
      ChainUnlink(next, next[s[0]], s[1..], i - 1);
      RemovedTail(s, i);
    }
  }
}
