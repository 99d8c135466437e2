/** The kernel's subpage allocator (kheap.c). */
module Kheap {
  import opened KheapBlocks

  const DEADBEEF: nat := 0xdead_beef

  // ----- The invariants

  /** A record describes its page. */
  ghost predicate RecordOk(pab: nat, offset: nat, nfree: nat, i: Info) {
    && i.t < NSIZES && pab == MkPab(i.page, i.t) && nfree == |i.free| <= PerPage(i.t)
    && offset == if i.free == [] then INVALID_OFFSET else i.free[0] * Size(i.t)
  }

  ghost predicate RecordsOk(pab: seq<nat>, offset: seq<nat>, nfree: seq<nat>, info: map<nat, Info>) {
    && |pab| == |offset| == |nfree| == NPAGEREFS
    && forall r :: r in info ==> r < NPAGEREFS && RecordOk(pab[r], offset[r], nfree[r], info[r])
  }

  /** Free lists are good, and no two records have the same page. */
  ghost predicate PagesOk(mem: map<nat, nat>, info: map<nat, Info>) {
    && (forall r :: r in info ==> FreeOk(mem, info[r]))
    && (forall r, q :: r in info && q in info && r != q ==> info[r].page != info[q].page)
  }

  /** The list of all pages. */
  ghost predicate AllOk(next: seq<nat>, base: nat, all: seq<nat>, info: map<nat, Info>) {
    |next| == NPAGEREFS && Chain(next, base, all) && Distinct(all) && forall r :: r in all <==> r in info
  }

  /** The list of pages of type t. */
  ghost predicate SizeOk(next: seq<nat>, base: nat, s: seq<nat>, info: map<nat, Info>, t: nat) {
    |next| == NPAGEREFS && Chain(next, base, s) && Distinct(s) && forall r :: r in s <==> r in info && info[r].t == t
  }

  ghost predicate SizesOk(next: seq<nat>, bases: seq<nat>, same: seq<seq<nat>>, info: map<nat, Info>) {
    |next| == NPAGEREFS && |bases| == |same| == NSIZES && forall t :: 0 <= t < NSIZES ==>
      SizeOk(next, bases[t], same[t], info, t)
  }

  /** The bits say which records are in use. */
  ghost predicate BitsOk(inuse: seq<bool>, info: map<nat, Info>) {
    |inuse| == NPAGEREFS && forall r :: 0 <= r < NPAGEREFS ==> (inuse[r] <==> r in info)
  }

  /** Every page but x has a live block. */
  ghost predicate Busy(info: map<nat, Info>, x: nat) {
    forall r :: r in info && r != x ==> info[r].t < NSIZES && |info[r].free| < PerPage(info[r].t)
  }

  // ----- How they change

  /** The free list of page r changed; the lists of pages are not concerned. */
  lemma InfoUpdated(nextAll: seq<nat>, allbase: nat, all: seq<nat>, nextSame: seq<nat>, bases: seq<nat>,
                    same: seq<seq<nat>>,
                    inuse: seq<bool>, info: map<nat, Info>, r: nat, i: Info)
    requires AllOk(nextAll, allbase, all, info) && SizesOk(nextSame, bases, same, info) && BitsOk(inuse, info)
    requires r in info && i.page == info[r].page && i.t == info[r].t
    ensures AllOk(nextAll, allbase, all, info[r := i]) && SizesOk(nextSame, bases, same, info[r := i])
      && BitsOk(inuse, info[r := i])
  {
    forall t | 0 <= t < NSIZES ensures SizeOk(nextSame, bases[t], same[t], info[r := i], t) {
      assert SizeOk(nextSame, bases[t], same[t], info, t);
    }
  }

  lemma RecordUpdated(pab: seq<nat>, offset: seq<nat>, nfree: seq<nat>, info: map<nat, Info>, r: nat, off: nat,
                      n: nat, i: Info)
    requires RecordsOk(pab, offset, nfree, info) && r < NPAGEREFS && RecordOk(pab[r], off, n, i)
    ensures RecordsOk(pab, offset[r := off], nfree[r := n], info[r := i])
  {
  }

  /** Pages are aligned, so writes to one leave the others alone. */
  lemma {:induction false} PagesFrame(mem: map<nat, nat>, mem': map<nat, nat>, i: Info, page: nat, lo: nat, hi: nat)
    requires FreeOk(mem, i) && i.page != page && page % PAGE_SIZE == 0 && page <= lo <= hi <= page + PAGE_SIZE
      && OnlyIn(mem, mem', lo, hi)
    ensures FreeOk(mem', i)
  {
    forall k | k in i.free ensures Load(mem', Addr(i.page, i.t, k)) == Load(mem, Addr(i.page, i.t, k)) {
      BlockOfIndex(i.page, i.t, k);
    }
    ChainFrame(mem, mem', i.page, i.t, Head(i.page, i.t, i.free), i.free);
  }

  lemma PageUpdated(mem: map<nat, nat>, mem': map<nat, nat>, info: map<nat, Info>, r: nat, i: Info, lo: nat, hi: nat)
    requires PagesOk(mem, info) && FreeOk(mem', i) && i.page <= lo <= hi <= i.page + PAGE_SIZE
      && OnlyIn(mem, mem', lo, hi)
    requires forall q :: q in info && q != r ==> info[q].page != i.page
    ensures PagesOk(mem', info[r := i])
  {
    forall q | q in info && q != r ensures FreeOk(mem', info[q]) {
      PagesFrame(mem, mem', info[q], i.page, lo, hi);
    }
  }

  /** A live block is live in one page only, and overlaps no other. */
  lemma LiveDisjoint(mem: map<nat, nat>, info: map<nat, Info>, r: nat, q: nat, a: nat, b: nat)
    requires PagesOk(mem, info) && r in info && q in info && LiveIn(info[r], a) && LiveIn(info[q], b) && a < b
    ensures a + Size(info[r].t) <= b
  {
    hide Size;
    hide FreeChain;
    if r == q {
      BlocksDisjoint(info[r].page, info[r].t, a, b);
    } else {
      assert FreeOk(mem, info[r]) && FreeOk(mem, info[q]);
      PagesApart(info[r].page, info[q].page);
      BlockFits(info[r].page, info[r].t, a);
    }
  }

  lemma LiveOwner(mem: map<nat, nat>, info: map<nat, Info>, r: nat, q: nat, a: nat)
    requires PagesOk(mem, info) && r in info && q in info && LiveIn(info[r], a)
    requires info[q].page <= a < info[q].page + PAGE_SIZE
    ensures q == r
  {
    hide Size;
    hide FreeChain;
    assert FreeOk(mem, info[r]) && FreeOk(mem, info[q]);
    if r != q { PagesApart(info[r].page, info[q].page); }
  }

  /** Adding a page in front of the list of all pages, and of those of its size. */
  lemma PagePushed(nextAll: seq<nat>, allbase: nat, all: seq<nat>, nextSame: seq<nat>, bases: seq<nat>,
                   same: seq<seq<nat>>,
                   inuse: seq<bool>, info: map<nat, Info>, r: nat, i: Info)
    requires AllOk(nextAll, allbase, all, info) && SizesOk(nextSame, bases, same, info) && BitsOk(inuse, info)
    requires r !in info && r < NPAGEREFS && i.t < NSIZES
    ensures AllOk(nextAll[r := allbase], r, [r] + all, info[r := i])
    ensures SizesOk(nextSame[r := bases[i.t]], bases[i.t := r], same[i.t := [r] + same[i.t]], info[r := i])
    ensures BitsOk(inuse[r := true], info[r := i])
  {
    ChainPush(nextAll, allbase, all, r);
    var next', bases', same' := nextSame[r := bases[i.t]], bases[i.t := r], same[i.t := [r] + same[i.t]];
    forall t | 0 <= t < NSIZES ensures SizeOk(next', bases'[t], same'[t], info[r := i], t) {
      assert SizeOk(nextSame, bases[t], same[t], info, t);
      if t == i.t {
        ChainPush(nextSame, bases[t], same[t], r);
      } else {
        ChainSame(nextSame, next', bases[t], same[t]);
      }
    }
  }

  /** Element i leaves a list: the head moves on, or its predecessor's link does. */
  ghost predicate Unlinked(next: seq<nat>, base: nat, s: seq<nat>, r: nat, next': seq<nat>, base': nat, s': seq<nat>) {
    && |next'| == |next| && Chain(next', base', s') && Distinct(s') && (forall q :: q in s' <==> q in s && q != r)
    && (forall q :: 0 <= q < |next| && q !in s ==> next'[q] == next[q])
  }

  lemma RemovedFacts(s: seq<nat>, i: nat)
    requires Distinct(s) && i < |s|
    ensures Distinct(Removed(s, i)) && forall q :: q in Removed(s, i) <==> q in s && q != s[i]
  {
    var r := Removed(s, i);
    assert s == s[..i] + [s[i]] + s[i + 1..];
    forall q ensures q in r <==> q in s && q != s[i] {
      if q in r {
        var j :| 0 <= j < |r| && r[j] == q;
        assert q == if j < i then s[j] else s[j + 1];
      }
    }
  }

  /** One of the two loops of remove_lists: r is unlinked through the pointer that leads to it. */
  method RemoveFrom(next: seq<nat>, base: nat, ghost s: seq<nat>, r: nat)
    returns (next': seq<nat>, base': nat, ghost s': seq<nat>)
    requires |next| == NPAGEREFS && Chain(next, base, s) && Distinct(s) && r in s
    ensures Unlinked(next, base, s, r, next', base', s')
  {
    hide Chain;
    next', base', s' := next, base, s;
    var prev, cur := NIL, base;
    ghost var i := 0;
    ChainTail(next, base, s, 0);
    while cur != NIL
      invariant 0 <= i <= |s| && r in s[i..] && (i == 0 ==> cur == base && prev == NIL)
      invariant i > 0 ==> prev == s[i - 1] < NPAGEREFS && cur == next[prev]
      invariant Chain(next, cur, s[i..]) && Chain(next, base, s)
      invariant next' == next && base' == base && s' == s
      decreases |s| - i
    {
      ChainStep(next, cur, s[i..]);
      if cur == r {
        RemovedFacts(s, i);
        s' := Removed(s, i);
        if prev == NIL {
          base' := next[r];
          assert s' == s[1..];
          return;
        }
        next' := next[prev := next[r]];
        ChainUnlink(next, base, s, i);
        return;
      }
      prev, cur := cur, next[cur];
      assert s[i..][1..] == s[i + 1..];
      i := i + 1;
    }
    EmptyChain(next, s[i..]);
    assert false;
  }

  lemma ChainStep(next: seq<nat>, head: nat, s: seq<nat>)
    requires Chain(next, head, s) && |next| == NPAGEREFS && head != NIL
    ensures s != [] && head == s[0] < |next| && Chain(next, next[head], s[1..])
  {
  }

  lemma EmptyChain(next: seq<nat>, s: seq<nat>)
    requires Chain(next, NIL, s) && |next| == NPAGEREFS
    ensures s == []
  {
  }

  /** remove_lists on the invariants. */
  lemma PageRemoved(nextAll: seq<nat>, allbase: nat, all: seq<nat>, nextAll': seq<nat>, allbase': nat, all': seq<nat>,
                    nextSame: seq<nat>, bases: seq<nat>, same: seq<seq<nat>>, nextSame': seq<nat>, base': nat,
                      s': seq<nat>,
                    inuse: seq<bool>, info: map<nat, Info>, r: nat)
    requires AllOk(nextAll, allbase, all, info) && SizesOk(nextSame, bases, same, info) && BitsOk(inuse, info)
    requires r in info && info[r].t < NSIZES && r < NPAGEREFS
    requires Unlinked(nextAll, allbase, all, r, nextAll', allbase', all')
    requires Unlinked(nextSame, bases[info[r].t], same[info[r].t], r, nextSame', base', s')
    ensures AllOk(nextAll', allbase', all', info - {r})
    ensures SizesOk(nextSame', bases[info[r].t := base'], same[info[r].t := s'], info - {r})
    ensures BitsOk(inuse[r := false], info - {r})
  {
    var bases', same' := bases[info[r].t := base'], same[info[r].t := s'];
    forall t | 0 <= t < NSIZES ensures SizeOk(nextSame', bases'[t], same'[t], info - {r}, t) {
      assert SizeOk(nextSame, bases[t], same[t], info, t);
      if t != info[r].t {
        assert SizeOk(nextSame, bases[info[r].t], same[info[r].t], info, info[r].t);
        ChainSame(nextSame, nextSame', bases[t], same[t]);
      }
    }
  }

  /** The record of a page before and after its first free block is taken. */
  lemma TakeRecord(mem: map<nat, nat>, i: Info, pab: nat, offset: nat, nfree: nat)
    requires FreeOk(mem, i) && RecordOk(pab, offset, nfree, i) && i.free != []
    ensures offset < PAGE_SIZE && PageAddr(pab) + offset == Head(i.page, i.t, i.free) && 0 < nfree
    ensures i.t < NSIZES && |i.free| <= PerPage(i.t)
    ensures var i', fl := i.(free := i.free[1..]), Load(mem, PageAddr(pab) + offset);
            && FreeOk(mem, i')
            && (fl != NULL ==>
                  && nfree > 1 && 0 <= fl - PageAddr(pab) < PAGE_SIZE
                  && RecordOk(pab, fl - PageAddr(pab), nfree - 1, i'))
            && (fl == NULL ==> nfree == 1 && RecordOk(pab, INVALID_OFFSET, nfree - 1, i'))
  {
    hide FreeChain;
    var i' := i.(free := i.free[1..]);
    TakeFirst(mem, i, i');
    PackUnpack(i.page, i.t);
    assert i.free[0] in i.free;
    BlockOfIndex(i.page, i.t, i.free[0]);
    if i'.free != [] {
      assert i'.free[0] in i'.free;
      BlockOfIndex(i.page, i.t, i'.free[0]);
    }
  }

  /** The live blocks after the first free block of page r is taken. */
  lemma TakeLive(mem: map<nat, nat>, info: map<nat, Info>, r: nat)
    requires PagesOk(mem, info) && r in info && info[r].free != []
    ensures var i := info[r];
            var p, info' := Head(i.page, i.t, i.free), info[r := i.(free := i.free[1..])];
            && LiveIn(info'[r], p) && !Live(info, p) && forall a :: Live(info', a) <==> Live(info, a) || a == p
  {
    var i := info[r];
    var i' := i.(free := i.free[1..]);
    assert FreeOk(mem, i);
    TakeFirst(mem, i, i');
    hide FreeOk;
    hide LiveIn;
    var p, info' := Head(i.page, i.t, i.free), info[r := i'];
    forall q | q in info && LiveIn(info[q], p) ensures false { LiveOwner(mem, info, q, r, p); }
    forall a ensures Live(info', a) <==> Live(info, a) || a == p {
      if Live(info, a) {
        var q :| q in info && LiveIn(info[q], a);
        assert LiveIn(info'[q], a);
      }
      if Live(info', a) {
        var q :| q in info' && LiveIn(info'[q], a);
        assert q != r ==> LiveIn(info[q], a);
      }
      assert LiveIn(info'[r], p);
    }
  }

  /** A page whose blocks are all free adds no live block. */
  lemma FreshLive(info: map<nat, Info>, r: nat, i: Info)
    requires r !in info && i.t < NSIZES && i.free == Down(PerPage(i.t))
    ensures forall a :: Live(info[r := i], a) <==> Live(info, a)
  {
    forall a ensures !LiveIn(i, a) { AllFree(i, a); }
    hide LiveIn;
    forall a ensures Live(info[r := i], a) <==> Live(info, a) {
      if Live(info, a) {
        var q :| q in info && LiveIn(info[q], a);
        assert LiveIn(info[r := i][q], a);
      }
    }
  }

  /** t is the smallest block type for a request. */
  predicate Fits(t: nat, sz: nat) {
    t < NSIZES && sz <= Size(t) && (t > 0 ==> sz > Size(t - 1))
  }

  /** No free block of the size, and no page or no record for a new one. */
  ghost predicate Exhausted(info: map<nat, Info>, sz: nat, newpage: nat) {
    && (forall r :: r in info && Fits(info[r].t, sz) ==> info[r].free == [])
    && (newpage == NULL || forall r :: 0 <= r < NPAGEREFS ==> r in info)
  }

  /** blocktype. */
  method BlockType(sz: nat) returns (t: nat)
    requires sz <= 2048
    ensures Fits(t, sz)
  {
    t := 0;
    while t < NSIZES
      invariant 0 <= t <= NSIZES
      invariant t > 0 ==> sz > Size(t - 1)
    {
      if sz <= Size(t) {
        return;
      }
      t := t + 1;
    }
    assert false;  // panic: subpage allocator cannot handle this size
  }

  lemma OnlyInWord(m: map<nat, nat>, m': map<nat, nat>, a: nat, len: nat, w: nat)
    requires OnlyIn(m, m', a, a + len) && len > 0
    ensures OnlyIn(m, m'[a := w], a, a + len)
  {
  }

  /** The record of a page before and after block a is put back. */
  lemma PutRecord(mem: map<nat, nat>, mem': map<nat, nat>, i: Info, pab: nat, offset: nat, nfree: nat, a: nat)
    requires FreeOk(mem, i) && RecordOk(pab, offset, nfree, i) && LiveIn(i, a) && OnlyIn(mem, mem', a, a + Size(i.t))
    requires Load(mem', a) == if offset == INVALID_OFFSET then NULL else i.page + offset
    ensures var i' := i.(free := [Index(i.page, i.t, a)] + i.free);
            FreeOk(mem', i') && RecordOk(pab, a - i.page, nfree + 1, i')
  {
    IndexOfBlock(i.page, i.t, a);
    if i.free != [] {
      assert i.free[0] in i.free;
      BlockOfIndex(i.page, i.t, i.free[0]);
    }
    hide OnlyIn;
    hide Size;
    PutFirst(mem, mem', i, a, i.(free := [Index(i.page, i.t, a)] + i.free));
  }

  /** Block a of page r was freed: only its words changed, and the page is given back
      when that was its last live block. No other page is concerned. */
  ghost predicate KfreeDone(info: map<nat, Info>, info': map<nat, Info>, mem: map<nat, nat>, mem': map<nat, nat>,
                            r: nat, a: nat, freed: nat)
    requires r in info
  {
    && LiveIn(info[r], a) && OnlyIn(mem, mem', a, a + Size(info[r].t))
    && (freed != NULL <==> r !in info') && (freed != NULL ==> freed == info[r].page)
    && info' - {r} == info - {r}
  }

  lemma PutLive(mem: map<nat, nat>, info: map<nat, Info>, r: nat, a: nat)
    requires PagesOk(mem, info) && r in info && LiveIn(info[r], a)
    ensures var i := info[r];
            var info' := info[r := i.(free := [Index(i.page, i.t, a)] + i.free)];
            forall x :: Live(info', x) <==> Live(info, x) && x != a
  {
    var i := info[r];
    var i' := i.(free := [Index(i.page, i.t, a)] + i.free);
    forall x ensures LiveIn(i', x) <==> LiveIn(i, x) && x != a {
      IndexOfBlock(i.page, i.t, a);
      if LiveIn(i, x) { IndexOfBlock(i.page, i.t, x); }
    }
    var info' := info[r := i'];
    forall q | q in info && LiveIn(info[q], a) ensures q == r {
      assert info[r].page <= a < info[r].page + PAGE_SIZE;
      LiveOwner(mem, info, q, r, a);
    }
    hide LiveIn;
    forall x ensures Live(info', x) <==> Live(info, x) && x != a {
      if Live(info, x) && x != a {
        var q :| q in info && LiveIn(info[q], x);
        assert LiveIn(info'[q], x);
      }
      if Live(info', x) {
        var q :| q in info' && LiveIn(info'[q], x);
        assert LiveIn(info[q], x);
      }
    }
  }

  /** Giving back a page whose blocks are all free loses no live block. */
  lemma GoneLive(mem: map<nat, nat>, info: map<nat, Info>, r: nat)
    requires PagesOk(mem, info) && r in info && info[r].t < NSIZES && |info[r].free| == PerPage(info[r].t)
    ensures forall x :: Live(info - {r}, x) <==> Live(info, x)
  {
    assert FreeOk(mem, info[r]);
    forall x ensures !LiveIn(info[r], x) { AllFree(info[r], x); }
    hide LiveIn;
    hide FreeOk;
    forall x ensures Live(info - {r}, x) <==> Live(info, x) {
      if Live(info, x) {
        var q :| q in info && LiveIn(info[q], x);
        assert LiveIn((info - {r})[q], x);
      }
    }
  }

  lemma Forgotten(pab: seq<nat>, offset: seq<nat>, nfree: seq<nat>, mem: map<nat, nat>, info: map<nat, Info>, r: nat)
    requires RecordsOk(pab, offset, nfree, info) && PagesOk(mem, info) && Busy(info, r)
    ensures RecordsOk(pab, offset, nfree, info - {r}) && PagesOk(mem, info - {r}) && Busy(info - {r}, NIL)
  {
    hide FreeOk;
    hide RecordOk;
  }

  // ----- What checksubpages checks

  ghost function Elements(s: seq<nat>): set<nat> { set x | x in s }

  lemma {:induction false} DistinctCount(s: seq<nat>)
    requires Distinct(s)
    ensures |Elements(s)| == |s|
  {
    if s != [] {
      DistinctCount(s[1..]);
      assert Elements(s) == {s[0]} + Elements(s[1..]);
    }
  }

  /** The first n lists, one after the other. */
  ghost function Joined(same: seq<seq<nat>>, n: nat): seq<nat>
    requires n <= |same|
  {
    if n == 0 then [] else Joined(same, n - 1) + same[n - 1]
  }

  ghost function Total(same: seq<seq<nat>>, n: nat): nat
    requires n <= |same|
  {
    if n == 0 then 0 else Total(same, n - 1) + |same[n - 1]|
  }

  lemma {:induction false} JoinedFacts(next: seq<nat>, bases: seq<nat>, same: seq<seq<nat>>, info: map<nat, Info>,
                                       n: nat)
    requires SizesOk(next, bases, same, info) && n <= NSIZES
    ensures |Joined(same, n)| == Total(same, n) && Distinct(Joined(same, n))
    ensures forall r :: r in Joined(same, n) <==> r in info && info[r].t < n
  {
    hide Chain;
    if n > 0 {
      JoinedFacts(next, bases, same, info, n - 1);
      var a, b := Joined(same, n - 1), same[n - 1];
      assert SizeOk(next, bases[n - 1], b, info, n - 1);
      forall i, j | 0 <= i < j < |a + b| ensures (a + b)[i] != (a + b)[j] {
        if i < |a| <= j { assert a[i] in a && b[j - |a|] in b; }
      }
    }
  }

  /** The lists by size partition the list of all pages, which has no more pages than there
      are records. */
  lemma ListsAgree(nextAll: seq<nat>, allbase: nat, all: seq<nat>, nextSame: seq<nat>, bases: seq<nat>,
                   same: seq<seq<nat>>,
                   mem: map<nat, nat>, info: map<nat, Info>, inuse: seq<bool>)
    requires AllOk(nextAll, allbase, all, info) && SizesOk(nextSame, bases, same, info) && PagesOk(mem, info)
    requires BitsOk(inuse, info) && forall r :: r in info ==> r < NPAGEREFS
    ensures Total(same, NSIZES) == |all| <= NPAGEREFS
    ensures |same| == NSIZES && forall r :: r in all <==> exists t :: 0 <= t < NSIZES && r in same[t]
    ensures forall r, t, u :: 0 <= t < u < NSIZES ==> !(r in same[t] && r in same[u])
  {
    hide Chain;
    hide FreeChain;
    forall r ensures r in all <==> exists t :: 0 <= t < NSIZES && r in same[t] {
      if r in all {
        var t := info[r].t;
        assert FreeOk(mem, info[r]) && SizeOk(nextSame, bases[t], same[t], info, t);
        assert r in same[t];
      }
      if t :| 0 <= t < NSIZES && r in same[t] { assert SizeOk(nextSame, bases[t], same[t], info, t); }
    }
    forall r, t, u | 0 <= t < u < NSIZES ensures !(r in same[t] && r in same[u]) {
      assert SizeOk(nextSame, bases[t], same[t], info, t) && SizeOk(nextSame, bases[u], same[u], info, u);
    }
    JoinedFacts(nextSame, bases, same, info, NSIZES);
    var j := Joined(same, NSIZES);
    forall r ensures r in j <==> r in all {
      if r in info { assert FreeOk(mem, info[r]); }
    }
    DistinctCount(j);
    DistinctCount(all);
    assert Elements(j) == Elements(all);
    Pigeonhole(all, NPAGEREFS);
  }

  lemma BusyAgain(info: map<nat, Info>, r: nat)
    requires Busy(info, r) && r in info && info[r].t < NSIZES && |info[r].free| < PerPage(info[r].t)
    ensures Busy(info, NIL)
  {
  }

  // ----- The allocator

  class Kheap {
    // pagerefs_inuse, one boolean a bit
    var inuse: seq<bool>
    // the fields of pagerefs[]
    var nextSame: seq<nat>
    var nextAll: seq<nat>
    var pab: seq<nat>
    var offset: seq<nat>
    var nfree: seq<nat>
    var sizebases: seq<nat>
    var allbase: nat
    // kernel memory, by address of a word
    var mem: map<nat, nat>
    ghost var all: seq<nat>
    ghost var same: seq<seq<nat>>
    ghost var info: map<nat, Info>    // the pages, by record

    /** Valid, except that page x may have no live block. */
    ghost predicate ValidBut(x: nat)
      reads this
    {
      && RecordsOk(pab, offset, nfree, info) && PagesOk(mem, info)
      && AllOk(nextAll, allbase, all, info) && SizesOk(nextSame, sizebases, same, info)
      && BitsOk(inuse, info) && Busy(info, x)
    }

    ghost predicate Valid()
      reads this
    {
      ValidBut(NIL)
    }

    /** Address p lies on one of the pages. */
    ghost predicate OnPage(p: nat)
      reads this
    {
      exists r :: r in info && info[r].page <= p < info[r].page + PAGE_SIZE
    }

    constructor ()
      ensures Valid() && info == map[]
    {
      inuse := seq(NPAGEREFS, _ => false);
      nextSame, nextAll, pab, offset, nfree :=
        seq(NPAGEREFS, _ => NIL), seq(NPAGEREFS, _ => NIL), seq(NPAGEREFS, _ => 0), seq(NPAGEREFS, _ => 0),
          seq(NPAGEREFS, _ => 0);
      sizebases, allbase, mem := seq(NSIZES, _ => NIL), NIL, map[];
      all, same, info := [], seq(NSIZES, _ => []), map[];
    }

    /** allocpageref: the first record not in use, or NIL if there is none. */
    method AllocPageref() returns (r: nat)
      requires |inuse| == NPAGEREFS
      modifies this`inuse
      ensures r == NIL ==> inuse == old(inuse) && forall q :: 0 <= q < NPAGEREFS ==> inuse[q]
      ensures r != NIL ==> r < NPAGEREFS && !old(inuse)[r] && inuse == old(inuse)[r := true]
                           && forall q :: 0 <= q < r ==> old(inuse)[q]
    {
      var i := 0;
      while i < NPAGEREFS / 32
        invariant 0 <= i <= NPAGEREFS / 32 && inuse == old(inuse)
        invariant forall q :: 0 <= q < 32 * i ==> inuse[q]
      {
        if false !in inuse[32 * i..32 * i + 32] {
          assert forall q :: 32 * i <= q < 32 * i + 32 ==> inuse[q] == inuse[32 * i..32 * i + 32][q - 32 * i];
        } else {
          var j := 0;
          while j < 32
            invariant 0 <= j <= 32 && inuse == old(inuse)
            invariant forall q :: 0 <= q < 32 * i + j ==> inuse[q]
          {
            if !inuse[32 * i + j] {
              inuse := inuse[32 * i + j := true];
              return 32 * i + j;
            }
            j := j + 1;
          }
          assert false;  // the word was not full
        }
        i := i + 1;
      }
      r := NIL;
    }

    /** freepageref. */
    method FreePageref(r: nat)
      requires |inuse| == NPAGEREFS && r < NPAGEREFS && inuse[r]
      modifies this`inuse
      ensures inuse == old(inuse)[r := false]
    {
      inuse := inuse[r := false];
    }

    /** The first page of type t on its list with a free block, or NIL if there is none. */
    method FindPage(t: nat) returns (pr: nat)
      requires Valid() && t < NSIZES
      ensures pr == NIL ==> forall r :: r in info && info[r].t == t ==> info[r].free == []
      ensures pr != NIL ==> pr in info && info[pr].t == t && info[pr].free != []
      ensures pr != NIL ==>
        exists i :: 0 <= i < |same[t]| && same[t][i] == pr
                    && forall j :: 0 <= j < i ==> same[t][j] in info && info[same[t][j]].free == []
    {
      hide Chain;
      ghost var s := same[t];
      assert SizeOk(nextSame, sizebases[t], s, info, t);
      pr := sizebases[t];
      ghost var i := 0;
      assert s[0..] == s;
      while pr != NIL
        invariant 0 <= i <= |s| && Chain(nextSame, pr, s[i..])
        invariant forall j :: 0 <= j < i ==> s[j] in info && info[s[j]].free == []
        decreases |s| - i
      {
        ChainStep(nextSame, pr, s[i..]);
        assert s[i] in s;
        PackUnpack(info[pr].page, info[pr].t);
        assert BlockTypeOf(pab[pr]) == t;
        if nfree[pr] > 0 {
          return;
        }
        pr := nextSame[pr];
        assert s[i..][1..] == s[i + 1..];
        i := i + 1;
      }
      EmptyChain(nextSame, s[i..]);
    }

    lemma OtherPages(r: nat)
      requires ValidBut(r) && r in info
      ensures NIL !in info && forall q :: q in info && q != r ==> info[q].page != info[r].page
      ensures r < NPAGEREFS == |pab| == |offset| == |nfree| && FreeOk(mem, info[r])
        && RecordOk(pab[r], offset[r], nfree[r], info[r])
    {
    }

    /** doalloc: the first free block of page pr. */
    method TakeBlock(pr: nat) returns (ptr: nat)
      requires ValidBut(pr) && pr in info && info[pr].free != []
      modifies this`offset, this`nfree, this`info
      ensures Valid() && ptr == Head(info[pr].page, info[pr].t, old(info)[pr].free)
      ensures pr in info && info == old(info)[pr := old(info)[pr].(free := old(info)[pr].free[1..])]
    {
      hide FreeOk;
      hide RecordOk;
      hide AllOk;
      hide SizesOk;
      hide BitsOk;
      hide Head;
      hide PageAddr;
      hide PagesOk;
      hide RecordsOk;
      hide Busy;
      ghost var i := info[pr];
      ghost var i' := i.(free := i.free[1..]);
      OtherPages(pr);
      TakeRecord(mem, i, pab[pr], offset[pr], nfree[pr]);
      assert offset[pr] < PAGE_SIZE;
      var prpage := PageAddr(pab[pr]);
      ptr := prpage + offset[pr];
      var fl := Load(mem, ptr);
      nfree := nfree[pr := nfree[pr] - 1];
      if fl != NULL {
        assert nfree[pr] > 0 && fl - prpage < PAGE_SIZE;
        offset := offset[pr := fl - prpage];
      } else {
        assert nfree[pr] == 0;
        offset := offset[pr := INVALID_OFFSET];
      }
      InfoUpdated(nextAll, allbase, all, nextSame, sizebases, same, inuse, info, pr, i');
      PageUpdated(mem, mem, info, pr, i', i.page, i.page);
      RecordUpdated(old(pab), old(offset), old(nfree), info, pr, offset[pr], nfree[pr], i');
      BusyTaken(info, pr, i');
      info := info[pr := i'];
    }

    /** Thread the blocks of a new page into a list, the last one first. */
    method BuildPage(prpage: nat, t: nat) returns (head: nat)
      requires t < NSIZES && prpage > 0
      modifies this`mem
      ensures head == Addr(prpage, t, PerPage(t) - 1) && FreeChain(mem, prpage, t, head, Down(PerPage(t)))
      ensures OnlyIn(old(mem), mem, prpage, prpage + PAGE_SIZE)
    {
      hide FreeChain;
      hide Size;
      hide PerPage;
      hide Down;
      head := prpage;
      mem := mem[head := NULL];
      FirstOfPage(mem, prpage, t);
      var i := 1;
      while i < PerPage(t)
        invariant 1 <= i <= PerPage(t) && head == Addr(prpage, t, i - 1)
        invariant FreeChain(mem, prpage, t, head, Down(i)) && OnlyIn(old(mem), mem, prpage, prpage + PAGE_SIZE)
      {
        FreshStep(mem, prpage, t, i);
        BlockOfIndex(prpage, t, i);
        head := prpage + i * Size(t);
        mem := mem[head := prpage + (i - 1) * Size(t)];
        i := i + 1;
      }
    }

    lemma FirstOfPage(m: map<nat, nat>, page: nat, t: nat)
      requires t < NSIZES && page > 0 && Load(m, page) == NULL
      ensures FreeChain(m, page, t, page, Down(1))
    {
      assert Down(1) == [0];
    }

    /** Set up record r, just allocated, for a new page. */
    method FillPage(r: nat, prpage: nat, t: nat)
      requires RecordsOk(pab, offset, nfree, info) && PagesOk(mem, info)
      requires r < NPAGEREFS && r !in info && t < NSIZES && prpage % PAGE_SIZE == 0 && prpage > 0 && !OnPage(prpage)
      modifies this`pab, this`offset, this`nfree, this`mem
      ensures var info' := info[r := Info(prpage, t, Down(PerPage(t)))];
              RecordsOk(pab, offset, nfree, info') && PagesOk(mem, info')
      ensures OnlyIn(old(mem), mem, prpage, prpage + PAGE_SIZE)
    {
      hide FreeOk;
      hide FreeChain;
      hide OnlyIn;
      hide MkPab;
      hide Size;
      hide PerPage;
      hide Down;
      hide PagesOk;
      hide Addr;
      ghost var i := Info(prpage, t, Down(PerPage(t)));
      NotOnPage(prpage);
      pab := pab[r := MkPab(prpage, t)];
      nfree := nfree[r := PerPage(t)];
      var head := BuildPage(prpage, t);
      LastBlock(prpage, t);
      FreshOk(mem, prpage, t);
      PageUpdated(old(mem), mem, info, r, i, prpage, prpage + PAGE_SIZE);
      offset := offset[r := head - prpage];
      assert offset[r] == (nfree[r] - 1) * Size(t);
      RecordAdded(old(pab), old(offset), old(nfree), info, r, prpage, t);
    }

    /** Set up record r and put it on the two lists. */
    method AddPage(r: nat, prpage: nat, t: nat, ghost bits: seq<bool>)
      requires RecordsOk(pab, offset, nfree, info) && PagesOk(mem, info) && Busy(info, NIL)
      requires AllOk(nextAll, allbase, all, info) && SizesOk(nextSame, sizebases, same, info) && BitsOk(bits, info)
      requires r < NPAGEREFS && r !in info && inuse == bits[r := true]
      requires t < NSIZES && prpage % PAGE_SIZE == 0 && prpage > 0 && !OnPage(prpage)
      modifies this
      ensures ValidBut(r) && info == old(info)[r := Info(prpage, t, Down(PerPage(t)))]
      ensures OnlyIn(old(mem), mem, prpage, prpage + PAGE_SIZE)
    {
      hide AllOk;
      hide SizesOk;
      hide BitsOk;
      hide OnlyIn;
      hide RecordsOk;
      hide PerPage;
      hide Down;
      hide PagesOk;
      hide Busy;
      ghost var i := Info(prpage, t, Down(PerPage(t)));
      ListLengths();
      BusyAdded(info, r, i);
      FillPage(r, prpage, t);
      PagePushed(nextAll, allbase, all, nextSame, sizebases, same, bits, info, r, i);
      nextSame := nextSame[r := sizebases[t]];
      sizebases := sizebases[t := r];
      nextAll := nextAll[r := allbase];
      allbase := r;
      all, same, info := [r] + all, same[t := [r] + same[t]], info[r := i];
    }

    lemma ListLengths()
      requires AllOk(nextAll, allbase, all, info) && SizesOk(nextSame, sizebases, same, info)
        && RecordsOk(pab, offset, nfree, info)
      ensures |sizebases| == |same| == NSIZES && |nextSame| == |nextAll| == NPAGEREFS
      ensures |pab| == |offset| == |nfree| == NPAGEREFS && NIL !in info
    {
    }

    /** subpage_kmalloc; newpage is what alloc_kpages gives if it is asked, or 0. The
        result is a block of the smallest size that fits, which was not live before;
        no word of a live block changes. It fails exactly if no block of that size is
        free and there is no page, or no record for it, to be had. */
    method SubpageKmalloc(sz: nat, newpage: nat) returns (ptr: nat)
      requires Valid() && sz <= 2048
      requires newpage == NULL || (newpage % PAGE_SIZE == 0 && !OnPage(newpage))
      modifies this
      ensures Valid()
      ensures ptr == NULL <==> Exhausted(old(info), sz, newpage)
      ensures ptr == NULL ==> info == old(info) && mem == old(mem)
      ensures ptr != NULL ==>
        && (exists r :: r in info && Fits(info[r].t, sz) && LiveIn(info[r], ptr))
        && ptr % 8 == 0 && !Live(old(info), ptr) && (forall a :: Live(info, a) <==> Live(old(info), a) || a == ptr)
        && (mem == old(mem) || (newpage != NULL && OnlyIn(old(mem), mem, newpage, newpage + PAGE_SIZE)))
    {
      hide AllOk;
      hide SizesOk;
      hide RecordsOk;
      hide FreeOk;
      hide Live;
      hide LiveIn;
      hide OnlyIn;
      hide Head;
      var t := BlockType(sz);
      OneType(sz);
      var pr := FindPage(t);
      if pr == NIL {
        ghost var bits := inuse;
        pr := AllocPageref();
        if pr == NIL {
          return NULL;
        }
        if newpage == NULL {
          FreePageref(pr);
          assert inuse == bits;
          return NULL;
        }
        AddPage(pr, newpage, t, bits);
        FreshLive(old(info), pr, info[pr]);
      } else {
        Weaken(pr);
      }
      ghost var mid := info;
      TakeLive(mem, mid, pr);
      ptr := TakeBlock(pr);
      BlockAligned(mem, info, pr, ptr);
    }

    /** The search loop of subpage_kfree. */
    method FindOwner(ptr: nat) returns (pr: nat)
      requires Valid()
      ensures pr == NIL <==> !OnPage(ptr)
      ensures pr != NIL ==> pr in info && info[pr].page <= ptr < info[pr].page + PAGE_SIZE
    {
      hide Chain;
      hide FreeOk;
      pr := allbase;
      ghost var i := 0;
      assert all[0..] == all;
      while pr != NIL
        invariant 0 <= i <= |all| && Chain(nextAll, pr, all[i..])
        invariant forall j :: 0 <= j < i ==> !(info[all[j]].page <= ptr < info[all[j]].page + PAGE_SIZE)
        decreases |all| - i
      {
        ChainStep(nextAll, pr, all[i..]);
        assert all[i] in all;
        PageFacts(pr);
        assert BlockTypeOf(pab[pr]) < NSIZES;
        var prpage := PageAddr(pab[pr]);
        if prpage <= ptr < prpage + PAGE_SIZE {
          return;
        }
        pr := nextAll[pr];
        assert all[i..][1..] == all[i + 1..];
        i := i + 1;
      }
      EmptyChain(nextAll, all[i..]);
      forall r | r in info ensures !(info[r].page <= ptr < info[r].page + PAGE_SIZE) {
        assert r in all;
      }
    }

    lemma PageFacts(r: nat)
      requires Valid() && r in info
      ensures r < NPAGEREFS == |pab| == |offset| == |nfree| && FreeOk(mem, info[r])
        && RecordOk(pab[r], offset[r], nfree[r], info[r])
      ensures info[r].t < NSIZES && PageAddr(pab[r]) == info[r].page && BlockTypeOf(pab[r]) == info[r].t
    {
      PackUnpack(info[r].page, info[r].t);
    }

    /** fill_deadbeef. */
    method FillDeadbeef(ptr: nat, len: nat)
      modifies this`mem
      ensures OnlyIn(old(mem), mem, ptr, ptr + len)
    {
      var i := 0;
      while i < len / 4
        invariant 0 <= i <= len / 4 && OnlyIn(old(mem), mem, ptr, ptr + len)
      {
        mem := mem[ptr + 4 * i := DEADBEEF];
        i := i + 1;
      }
    }

    /** Put live block ptr of page pr in front of its free list. */
    method PutBlock(pr: nat, ptr: nat)
      requires Valid() && pr in info && LiveIn(info[pr], ptr)
      modifies this`mem, this`offset, this`nfree, this`info
      ensures ValidBut(pr) && pr in info && LiveIn(old(info)[pr], ptr)
      ensures var i := old(info)[pr];
              info == old(info)[pr := i.(free := [Index(i.page, i.t, ptr)] + i.free)]
      ensures OnlyIn(old(mem), mem, ptr, ptr + Size(old(info)[pr].t))
      ensures nfree[pr] <= PerPage(info[pr].t)
    {
      hide FreeOk;
      hide RecordOk;
      hide AllOk;
      hide SizesOk;
      hide BitsOk;
      hide OnlyIn;
      hide PageAddr;
      hide PagesOk;
      hide RecordsOk;
      hide Busy;
      hide Size;
      ghost var i := info[pr];
      Weaken(pr);
      PageFacts(pr);
      OtherPages(pr);
      var prpage, t := PageAddr(pab[pr]), BlockTypeOf(pab[pr]);
      FillDeadbeef(ptr, Size(t));
      ghost var filled := mem;
      mem := mem[ptr := if offset[pr] == INVALID_OFFSET then NULL else prpage + offset[pr]];
      OnlyInWord(old(mem), filled, ptr, Size(t), mem[ptr]);
      ghost var i' := i.(free := [Index(i.page, i.t, ptr)] + i.free);
      PutRecord(old(mem), mem, i, pab[pr], offset[pr], nfree[pr], ptr);
      offset := offset[pr := ptr - prpage];
      nfree := nfree[pr := nfree[pr] + 1];
      InfoUpdated(nextAll, allbase, all, nextSame, sizebases, same, inuse, info, pr, i');
      BlockFits(i.page, i.t, ptr);
      PageUpdated(old(mem), mem, info, pr, i', ptr, ptr + Size(t));
      RecordUpdated(old(pab), old(offset), old(nfree), info, pr, offset[pr], nfree[pr], i');
      BusyAdded(info, pr, i');
      info := info[pr := i'];
      RecordCount(pr);
    }

    /** remove_lists and freepageref. */
    method DropPage(pr: nat)
      requires ValidBut(pr) && pr in info
      modifies this
      ensures Valid() && info == old(info) - {pr} && mem == old(mem)
    {
      hide Chain;
      hide Unlinked;
      hide AllOk;
      hide SizesOk;
      hide BitsOk;
      hide RecordsOk;
      hide PagesOk;
      hide Busy;
      PageLists(pr);
      Forgotten(pab, offset, nfree, mem, info, pr);
      var blktype := BlockTypeOf(pab[pr]);
      var next, base;
      ghost var s;
      next, base, s := RemoveFrom(nextSame, sizebases[blktype], same[blktype], pr);
      var next2, base2;
      ghost var s2;
      next2, base2, s2 := RemoveFrom(nextAll, allbase, all, pr);
      PageRemoved(nextAll, allbase, all, next2, base2, s2, nextSame, sizebases, same, next, base, s, inuse, info, pr);
      nextSame, sizebases, same := next, sizebases[blktype := base], same[blktype := s];
      nextAll, allbase, all := next2, base2, s2;
      FreePageref(pr);
      info := info - {pr};
    }

    lemma PageLists(r: nat)
      requires ValidBut(r) && r in info
      ensures r < NPAGEREFS == |pab| == |inuse| == |nextSame| == |nextAll| && inuse[r]
      ensures info[r].t < NSIZES == |sizebases| == |same| && BlockTypeOf(pab[r]) == info[r].t
      ensures Chain(nextAll, allbase, all) && Distinct(all) && r in all
      ensures Chain(nextSame, sizebases[info[r].t], same[info[r].t]) && Distinct(same[info[r].t])
        && r in same[info[r].t]
    {
      hide Chain;
      hide FreeChain;
      assert FreeOk(mem, info[r]);
      PackUnpack(info[r].page, info[r].t);
      assert SizeOk(nextSame, sizebases[info[r].t], same[info[r].t], info, info[r].t);
    }

    /** subpage_kfree of a live block, or of an address on none of the pages (false).
        Only words of the block change. A page without live blocks is given back. */
    method SubpageKfree(ptr: nat) returns (ok: bool, freed: nat)
      requires Valid() && (OnPage(ptr) ==> Live(info, ptr))
      modifies this
      ensures Valid()
      ensures ok <==> old(OnPage(ptr))
      ensures !ok ==> info == old(info) && mem == old(mem) && freed == NULL
      ensures ok ==> forall a :: Live(info, a) <==> Live(old(info), a) && a != ptr
      ensures ok ==> exists r :: r in old(info) && KfreeDone(old(info), info, old(mem), mem, r, ptr, freed)
    {
      hide AllOk;
      hide SizesOk;
      hide RecordsOk;
      hide FreeOk;
      hide Live;
      hide LiveIn;
      hide OnlyIn;
      hide BitsOk;
      var pr := FindOwner(ptr);
      if pr == NIL {
        return false, NULL;
      }
      ghost var r := OwnerOf(ptr, pr);
      ghost var info0 := info;
      PageFacts(pr);
      var prpage, t := PageAddr(pab[pr]), BlockTypeOf(pab[pr]);
      BlockFacts(pr, ptr);
      var off := ptr - prpage;
      if off >= PAGE_SIZE || off % Size(t) != 0 {
        assert false;  // panic: subpage free of invalid addr
      }
      PutLive(mem, info, pr, ptr);
      PutBlock(pr, ptr);
      ghost var info1 := info;
      freed := NULL;
      RecordCount(pr);
      if nfree[pr] == PerPage(t) {
        GoneLive(mem, info, pr);
        DropPage(pr);
        freed := prpage;
      } else {
        BusyAgain(info, pr);
      }
      ok := true;
      assert KfreeDone(old(info), info, old(mem), mem, pr, ptr, freed);
    }

    /** The owner of a live block stores a word in it: the allocator's state and every
        word outside are as they were. */
    method ClientStore(a: nat, x: nat, w: nat)
      requires Valid() && x % 4 == 0
      requires exists r :: r in info && LiveIn(info[r], a) && a <= x && x + 4 <= a + Size(info[r].t)
      modifies this`mem
      ensures Valid() && Load(mem, x) == w && OnlyIn(old(mem), mem, x, x + 4)
    {
      hide AllOk;
      hide SizesOk;
      hide RecordsOk;
      hide BitsOk;
      hide FreeOk;
      ghost var r :| r in info && LiveIn(info[r], a) && a <= x && x + 4 <= a + Size(info[r].t);
      PageFacts(r);
      BlockFacts(r, a);
      BlockFits(info[r].page, info[r].t, a);
      mem := mem[x := w];
      StoreFree(old(mem), mem, info[r], a);
      PageUpdated(old(mem), mem, info, r, info[r], a, a + Size(info[r].t));
      assert info[r := info[r]] == info;
    }

    lemma BlockFacts(r: nat, a: nat)
      requires r in info && LiveIn(info[r], a)
      ensures info[r].t < NSIZES && IsBlock(info[r].page, info[r].t, a)
    {
    }

    lemma OwnerOf(ptr: nat, pr: nat) returns (r: nat)
      requires Valid() && Live(info, ptr) && pr in info && info[pr].page <= ptr < info[pr].page + PAGE_SIZE
      ensures r == pr && LiveIn(info[pr], ptr)
    {
      r :| r in info && LiveIn(info[r], ptr);
      LiveOwner(mem, info, r, pr, ptr);
    }

    lemma RecordCount(r: nat)
      requires ValidBut(r) && r in info
      ensures r < |nfree| && nfree[r] == |info[r].free| && info[r].t < NSIZES && nfree[r] <= PerPage(info[r].t)
    {
    }

    /** Between calls the consistency checks of kheap.c hold: the two kinds of lists
        agree, and every page on them has a live block. */
    lemma Checked(r: nat)
      requires Valid()
      ensures Total(same, NSIZES) == |all| <= NPAGEREFS
      ensures r in info ==> exists a :: LiveIn(info[r], a)
    {
      hide FreeOk;
      hide Chain;
      ListsAgree(nextAll, allbase, all, nextSame, sizebases, same, mem, info, inuse);
      if r in info {
        var a := SomeLive(info[r]);
      }
    }

    lemma NotOnPage(p: nat)
      requires !OnPage(p)
      ensures forall q :: q in info ==> info[q].page != p
    {
    }

    lemma Weaken(x: nat)
      requires Valid()
      ensures ValidBut(x)
    {
    }

    lemma OneType(sz: nat)
      ensures forall t, u :: Fits(t, sz) && Fits(u, sz) ==> t == u
    {
    }

    /** Blocks are 8-aligned, and not at address 0. */
    lemma BlockAligned(m: map<nat, nat>, inf: map<nat, Info>, r: nat, a: nat)
      requires PagesOk(m, inf) && r in inf && LiveIn(inf[r], a)
      ensures a % 8 == 0 && a != NULL
    {
      assert FreeOk(m, inf[r]);
      hide FreeOk;
      AlignedBlock(inf[r].page, inf[r].t, a);
    }
  }

  lemma LastBlock(page: nat, t: nat)
    requires t < NSIZES
    ensures Addr(page, t, PerPage(t) - 1) - page == (PerPage(t) - 1) * Size(t)
  {
  }

  lemma BusyTaken(info: map<nat, Info>, r: nat, i: Info)
    requires Busy(info, r) && i.t < NSIZES && |i.free| < PerPage(i.t)
    ensures Busy(info[r := i], NIL)
  {
  }

  lemma BusyAdded(info: map<nat, Info>, r: nat, i: Info)
    requires Busy(info, NIL) && NIL !in info
    ensures Busy(info[r := i], r)
  {
  }

  lemma RecordAdded(pab: seq<nat>, offset: seq<nat>, nfree: seq<nat>, info: map<nat, Info>, r: nat, page: nat, t: nat)
    requires RecordsOk(pab, offset, nfree, info) && r < NPAGEREFS && r !in info && t < NSIZES
    ensures RecordsOk(pab[r := MkPab(page, t)], offset[r := Addr(page, t, PerPage(t) - 1) - page],
      nfree[r := PerPage(t)],
                      info[r := Info(page, t, Down(PerPage(t)))])
  {
  }
}
