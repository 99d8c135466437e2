/** Page faults (fault_handler and pmalloc in vm.c): two-level page tables and the
    coremap, against a flat map from pages to frames. */
module PageTable {

  const PAGE_SIZE: nat := 4096
  const ENTRIES: nat := 1024
  const KSEG0: nat := 0x8000_0000

  type Byte = b: int | 0 <= b < 256
  type AddrSpace = nat

  /** struct coremap entry: in use or not, for the kernel or a user, and for whom; pa never changes. */
  datatype Frame = Frame(used: bool, york: char, owner: AddrSpace, pa: nat)

  /** What a frame holds: a page of bytes, or a second-level table of 1024 kernel
      addresses (0 for none). */
  datatype Contents = Bytes(b: seq<Byte>) | Entries(e: seq<nat>)

  /** An entry of PT1: a null pointer or a pointer to the frame with the second-level table. */
  datatype Table = Null | Second(frame: nat)

  /** A page: its address space and number. */
  datatype Page = Page(space: AddrSpace, vpn: nat)

  function ToKernel(pa: nat): nat { pa + KSEG0 }

  /** KVADDR_TO_PADDR, modulo 2^32. */
  function ToPhysical(v: nat): nat { if v >= KSEG0 then v - KSEG0 else v + KSEG0 }

  function FirstIndex(addr: nat): nat { addr / 0x40_0000 }
  function SecondIndex(addr: nat): nat { addr / PAGE_SIZE % ENTRIES }
  function PageNumber(addr: nat): nat { addr / PAGE_SIZE }

  /** The two indices make up the page number. */
  lemma IndexSplit(addr: nat)
    requires addr < 0x1_0000_0000
    ensures FirstIndex(addr) < ENTRIES && SecondIndex(addr) < ENTRIES
    ensures FirstIndex(addr) == PageNumber(addr) / ENTRIES && SecondIndex(addr) == PageNumber(addr) % ENTRIES
  {
  }

  /** The tables of all address spaces: the frames, and PT1 of each. */
  datatype Tables = Tables(mem: seq<Contents>, spaces: map<AddrSpace, seq<Table>>)

  /** The second-level table with index i of a space is in frame k. */
  predicate TableAt(t: Tables, a: AddrSpace, i: nat, k: nat) {
    a in t.spaces && i < |t.spaces[a]| && t.spaces[a][i] == Second(k)
  }

  /** The flat map: the kernel address of the frame of a page, or 0. */
  function Lookup(t: Tables, p: Page): nat {
    if p.space !in t.spaces then 0
    else
      var pt1 := t.spaces[p.space];
      if p.vpn / ENTRIES >= |pt1| || pt1[p.vpn / ENTRIES].Null? then 0
      else
        var k := pt1[p.vpn / ENTRIES].frame;
        if k >= |t.mem| || t.mem[k].Bytes? || p.vpn % ENTRIES >= |t.mem[k].e| then 0
        else t.mem[k].e[p.vpn % ENTRIES]
  }

  /** Every second-level table is in a frame of its own. */
  ghost predicate Shaped(t: Tables) {
    && (forall a :: a in t.spaces ==> |t.spaces[a]| == ENTRIES)
    && (forall a: AddrSpace, i: nat, k: nat :: TableAt(t, a, i, k) ==>
          k < |t.mem| && t.mem[k].Entries? && |t.mem[k].e| == ENTRIES)
    && (forall a: AddrSpace, i: nat, b: AddrSpace, j: nat, k: nat :: TableAt(t, a, i, k) && TableAt(t, b, j, k) ==>
          a == b && i == j)
  }

  /** Frames have distinct addresses in the memory that KSEG0 maps, and each that is free
      holds a page of bytes. */
  ghost predicate FramesOk(coremap: seq<Frame>, mem: seq<Contents>) {
    && |mem| == |coremap|
    && (forall k :: 0 <= k < |coremap| ==> 0 < coremap[k].pa < 0x2000_0000)
    && (forall k :: 0 <= k < |coremap| && !coremap[k].used ==> mem[k].Bytes? && |mem[k].b| == PAGE_SIZE)
    && (forall j, k :: 0 <= j < k < |coremap| ==> coremap[j].pa != coremap[k].pa)
  }

  /** Who has a frame: a user page or a second-level table. */
  datatype Use = UserPage(p: Page) | TableFrame(space: AddrSpace, index: nat)

  /** Page p is in frame k. */
  predicate PageIn(coremap: seq<Frame>, t: Tables, p: Page, k: nat) {
    k < |coremap| && Lookup(t, p) == ToKernel(coremap[k].pa)
  }

  /** Frame k is in use for u, and marked so. */
  predicate Serves(coremap: seq<Frame>, t: Tables, k: nat, u: Use) {
    && k < |coremap| && coremap[k].used
    && match u
       case UserPage(p) => PageIn(coremap, t, p, k) && coremap[k].york == 'u' && coremap[k].owner == p.space
       case TableFrame(a, i) => TableAt(t, a, i, k) && coremap[k].york == 'k' && coremap[k].owner == a
  }

  /** Every mapped page and every table has its own frame, which is in use for it. */
  ghost predicate Mapped(coremap: seq<Frame>, t: Tables, home: map<nat, Use>) {
    && (forall k :: k in home ==> Serves(coremap, t, k, home[k]))
    && (forall p: Page :: Lookup(t, p) != 0 ==> exists k ::
          k in home && home[k] == UserPage(p) && PageIn(coremap, t, p, k))
    && (forall a: AddrSpace, i: nat, k: nat :: TableAt(t, a, i, k) ==> k in home && home[k] == TableFrame(a, i))
  }

  function Zeros(): Contents { Bytes(seq(4096, _ => 0)) }
  /** A table in which nothing is mapped. */
  function EmptyTable(): Contents { Entries(seq(1024, _ => 0)) }

  /** A frame that is no table may be used for anything else. */
  lemma FrameChanged(t: Tables, k: nat, c: Contents)
    requires Shaped(t) && k < |t.mem| && forall a: AddrSpace, i: nat :: !TableAt(t, a, i, k)
    ensures var t' := t.(mem := t.mem[k := c]);
            && Shaped(t') && (forall p: Page :: Lookup(t', p) == Lookup(t, p))
            && forall a: AddrSpace, i: nat, j: nat :: TableAt(t', a, i, j) <==> TableAt(t, a, i, j)
  {
    var t' := t.(mem := t.mem[k := c]);
    assert forall a: AddrSpace, i: nat, j: nat :: TableAt(t', a, i, j) <==> TableAt(t, a, i, j);
    forall p: Page ensures Lookup(t', p) == Lookup(t, p) {
      if p.space in t.spaces && p.vpn / ENTRIES < ENTRIES && t.spaces[p.space][p.vpn / ENTRIES].Second? {
        assert TableAt(t, p.space, p.vpn / ENTRIES, t.spaces[p.space][p.vpn / ENTRIES].frame);
      }
    }
  }

  /** Space a gets an empty second-level table in frame k. */
  function WithTable(t: Tables, a: AddrSpace, i: nat, k: nat): Tables
    requires a in t.spaces && i < |t.spaces[a]| && k < |t.mem|
  {
    Tables(t.mem[k := EmptyTable()], t.spaces[a := t.spaces[a][i := Second(k)]])
  }

  /** An empty second-level table maps nothing. */
  lemma TableAdded(t: Tables, a: AddrSpace, i: nat, k: nat)
    requires Shaped(t) && a in t.spaces && i < ENTRIES && t.spaces[a][i].Null?
    requires k < |t.mem| && forall b: AddrSpace, j: nat :: !TableAt(t, b, j, k)
    ensures var t' := WithTable(t, a, i, k);
            && Shaped(t') && (forall p: Page :: Lookup(t', p) == Lookup(t, p))
            && forall b: AddrSpace, j: nat, m: nat :: TableAt(t', b, j, m) <==>
                  TableAt(t, b, j, m) || (b == a && j == i && m == k)
  {
    var t' := WithTable(t, a, i, k);
    FrameChanged(t, k, EmptyTable());
    hide Shaped;
    var m := t.(mem := t'.mem);
    assert forall b: AddrSpace, j: nat, x: nat :: TableAt(t', b, j, x) <==>
      TableAt(m, b, j, x) || (b == a && j == i && x == k);
    forall p: Page ensures Lookup(t', p) == Lookup(m, p) {
      assert p.space == a && p.vpn / ENTRIES == i ==> Lookup(m, p) == 0 && Lookup(t', p) == 0;
    }
    TableShaped(m, t', a, i, k);
  }

  lemma TableShaped(t: Tables, t': Tables, a: AddrSpace, i: nat, k: nat)
    requires Shaped(t) && t'.mem == t.mem && k < |t.mem| && t.mem[k] == EmptyTable()
    requires forall b :: b in t'.spaces ==> b in t.spaces && |t'.spaces[b]| == |t.spaces[b]|
    requires forall b: AddrSpace, j: nat :: !TableAt(t, b, j, k)
    requires forall b: AddrSpace, j: nat, m: nat :: TableAt(t', b, j, m) <==>
      TableAt(t, b, j, m) || (b == a && j == i && m == k)
    ensures Shaped(t')
  {
    hide TableAt;
  }

  /** The table for page p with v as the entry for p. */
  function WithEntry(t: Tables, p: Page, v: nat): Tables
    requires p.space in t.spaces && p.vpn / ENTRIES < |t.spaces[p.space]| && t.spaces[p.space][p.vpn / ENTRIES].Second?
    requires var k := t.spaces[p.space][p.vpn / ENTRIES].frame;
      k < |t.mem| && t.mem[k].Entries? && |t.mem[k].e| == ENTRIES
  {
    var k := t.spaces[p.space][p.vpn / ENTRIES].frame;
    t.(mem := t.mem[k := Entries(t.mem[k].e[p.vpn % ENTRIES := v])])
  }

  lemma TableThere(t: Tables, p: Page)
    requires Shaped(t) && p.space in t.spaces && p.vpn / ENTRIES < ENTRIES && t.spaces[p.space][p.vpn / ENTRIES].Second?
    ensures var k := t.spaces[p.space][p.vpn / ENTRIES].frame;
            && TableAt(t, p.space, p.vpn / ENTRIES, k) && k < |t.mem| && t.mem[k].Entries? && |t.mem[k].e| == ENTRIES
            && Lookup(t, p) == t.mem[k].e[p.vpn % ENTRIES]
  {
    assert TableAt(t, p.space, p.vpn / ENTRIES, t.spaces[p.space][p.vpn / ENTRIES].frame);
  }

  /** Setting an entry maps that page and no other. */
  lemma EntrySet(t: Tables, p: Page, v: nat)
    requires Shaped(t) && p.space in t.spaces && p.vpn / ENTRIES < ENTRIES && t.spaces[p.space][p.vpn / ENTRIES].Second?
    requires var k := t.spaces[p.space][p.vpn / ENTRIES].frame;
      k < |t.mem| && t.mem[k].Entries? && |t.mem[k].e| == ENTRIES
    ensures var t' := WithEntry(t, p, v);
            && Shaped(t') && (forall q: Page :: Lookup(t', q) == if q == p then v else Lookup(t, q))
            && forall a: AddrSpace, i: nat, k: nat :: TableAt(t', a, i, k) <==> TableAt(t, a, i, k)
  {
    var t', k := WithEntry(t, p, v), t.spaces[p.space][p.vpn / ENTRIES].frame;
    assert TableAt(t, p.space, p.vpn / ENTRIES, k);
    assert forall a: AddrSpace, i: nat, m: nat :: TableAt(t', a, i, m) <==> TableAt(t, a, i, m);
    forall q: Page ensures Lookup(t', q) == if q == p then v else Lookup(t, q) { EntryOf(t, p, v, q, k); }
  }

  lemma EntryOf(t: Tables, p: Page, v: nat, q: Page, k: nat)
    requires Shaped(t) && TableAt(t, p.space, p.vpn / ENTRIES, k) && k < |t.mem| && t.mem[k].Entries?
      && |t.mem[k].e| == ENTRIES
    ensures Lookup(WithEntry(t, p, v), q) == if q == p then v else Lookup(t, q)
  {
    if q.space in t.spaces && q.vpn / ENTRIES < |t.spaces[q.space]| && t.spaces[q.space][q.vpn / ENTRIES].Second? {
      var m := t.spaces[q.space][q.vpn / ENTRIES].frame;
      assert TableAt(t, q.space, q.vpn / ENTRIES, m);
      if m == k { assert q.space == p.space && q.vpn / ENTRIES == p.vpn / ENTRIES; }
    }
  }

  /** A page gets a frame that was free. */
  lemma MappedMore(coremap: seq<Frame>, coremap': seq<Frame>, t: Tables, t': Tables, home: map<nat, Use>, p: Page,
                   k: nat)
    requires Mapped(coremap, t, home) && Taken(coremap, coremap', k, 'u', p.space) && Lookup(t, p) == 0
    requires forall q: Page :: Lookup(t', q) == if q == p then ToKernel(coremap[k].pa) else Lookup(t, q)
    requires forall a: AddrSpace, i: nat, j: nat :: TableAt(t', a, i, j) <==> TableAt(t, a, i, j)
    ensures Mapped(coremap', t', home[k := UserPage(p)]) && k !in home
  {
    hide Lookup;
    hide TableAt;
    var home' := home[k := UserPage(p)];
    TakenOne(coremap, coremap', k, 'u', p.space);
    forall j | j in home' ensures Serves(coremap', t', j, home'[j]) {
      if j != k { ServesStill(coremap, coremap', t, t', j, home[j]); }
    }
    forall q: Page | Lookup(t', q) != 0
      ensures exists j :: j in home' && home'[j] == UserPage(q) && PageIn(coremap', t', q, j)
    {
      if q == p {
        assert k in home' && home'[k] == UserPage(q) && PageIn(coremap', t', q, k);
      } else {
        assert Lookup(t, q) != 0;
        var j :| j in home && home[j] == UserPage(q) && PageIn(coremap, t, q, j);
        assert j in home' && home'[j] == UserPage(q) && PageIn(coremap', t', q, j);
      }
    }
  }

  /** No frame moves, and those in use stay as they are. */
  predicate SameFrames(coremap: seq<Frame>, coremap': seq<Frame>) {
    && |coremap'| == |coremap|
    && forall k :: 0 <= k < |coremap| ==>
         coremap'[k].pa == coremap[k].pa && (coremap[k].used ==> coremap'[k] == coremap[k])
  }

  /** The frames not in use. */
  function FreeFrames(coremap: seq<Frame>): set<nat> { set k: nat | k < |coremap| && !coremap[k].used }

  /** Frame k, free before, is taken for an address space, and no other. */
  predicate Taken(coremap: seq<Frame>, coremap': seq<Frame>, k: nat, york: char, owner: AddrSpace) {
    k < |coremap| && !coremap[k].used && coremap' == coremap[k := Frame(true, york, owner, coremap[k].pa)]
  }

  lemma TakenOne(coremap: seq<Frame>, coremap': seq<Frame>, k: nat, york: char, owner: AddrSpace)
    requires Taken(coremap, coremap', k, york, owner)
    ensures SameFrames(coremap, coremap')
    ensures k in FreeFrames(coremap) && FreeFrames(coremap') == FreeFrames(coremap) - {k}
    ensures |FreeFrames(coremap')| == |FreeFrames(coremap)| - 1
  {
  }

  /** It is for one of these pages, or for the table of one of them. */
  ghost predicate For(u: Use, pages: set<Page>) {
    match u
    case UserPage(p) => p in pages
    case TableFrame(a, i) => exists p :: p in pages && p.space == a && p.vpn / ENTRIES == i
  }

  /** Frames keep what they are for, and those newly in use, and no others, are for these
      pages or their tables. */
  ghost predicate Kept(coremap: seq<Frame>, home: map<nat, Use>, coremap': seq<Frame>, home': map<nat, Use>,
                       pages: set<Page>)
  {
    && SameFrames(coremap, coremap') && (forall k :: k in home ==> k in home' && home'[k] == home[k])
    && (forall k: nat :: k < |coremap| ==> (k in home' && k !in home <==> coremap'[k].used && !coremap[k].used))
    && forall k :: k in home' && k !in home ==> k < |coremap| && For(home'[k], pages)
  }

  lemma KeptSame(coremap: seq<Frame>, home: map<nat, Use>, pages: set<Page>)
    ensures Kept(coremap, home, coremap, home, pages)
  {
  }

  lemma KeptTwice(core0: seq<Frame>, home0: map<nat, Use>, core1: seq<Frame>, home1: map<nat, Use>,
                  core2: seq<Frame>, home2: map<nat, Use>, pages: set<Page>, more: set<Page>)
    requires Kept(core0, home0, core1, home1, pages) && Kept(core1, home1, core2, home2, more)
    ensures Kept(core0, home0, core2, home2, pages + more)
  {
    forall k | k in home2 && k !in home0 ensures k < |core0| && For(home2[k], pages + more) {
      ForMore(home2[k], if k in home1 then pages else more, pages + more);
    }
  }

  lemma ForMore(u: Use, pages: set<Page>, more: set<Page>)
    requires For(u, pages) && pages <= more
    ensures For(u, more)
  {
    if u.TableFrame? {
      var p :| p in pages && p.space == u.space && p.vpn / ENTRIES == u.index;
      assert p in more;
    }
  }

  lemma NoneFree(coremap: seq<Frame>)
    ensures NoFree(coremap) <==> |FreeFrames(coremap)| == 0
  {
    if |FreeFrames(coremap)| == 0 {
      forall k | 0 <= k < |coremap| ensures coremap[k].used { assert k !in FreeFrames(coremap); }
    } else {
      var k :| k in FreeFrames(coremap);
    }
  }

  lemma ServesStill(coremap: seq<Frame>, coremap': seq<Frame>, t: Tables, t': Tables, k: nat, u: Use)
    requires Serves(coremap, t, k, u) && SameFrames(coremap, coremap')
    requires u.UserPage? ==> (Lookup(t, u.p) != 0 ==> Lookup(t', u.p) == Lookup(t, u.p))
    requires u.TableFrame? ==> TableAt(t', u.space, u.index, k)
    ensures Serves(coremap', t', k, u)
  {
    hide Lookup;
    hide TableAt;
  }

  lemma PagesStill(coremap: seq<Frame>, coremap': seq<Frame>, t: Tables, t': Tables, home: map<nat, Use>,
                   home': map<nat, Use>)
    requires Mapped(coremap, t, home) && SameFrames(coremap, coremap')
    requires forall q: Page :: Lookup(t', q) == Lookup(t, q)
    requires forall k :: k in home ==> k in home' && home'[k] == home[k]
    ensures forall p: Page :: Lookup(t', p) != 0 ==>
              exists k :: k in home' && home'[k] == UserPage(p) && PageIn(coremap', t', p, k)
  {
    hide Lookup;
    hide TableAt;
    forall q: Page | Lookup(t', q) != 0
      ensures exists j :: j in home' && home'[j] == UserPage(q) && PageIn(coremap', t', q, j)
    {
      assert Lookup(t, q) != 0;
      var j :| j in home && home[j] == UserPage(q) && PageIn(coremap, t, q, j);
      assert j in home' && home'[j] == UserPage(q) && PageIn(coremap', t', q, j);
    }
  }

  /** A second-level table gets a frame that was free. */
  lemma MappedTable(coremap: seq<Frame>, coremap': seq<Frame>, t: Tables, t': Tables, home: map<nat, Use>,
                    a: AddrSpace, i: nat, k: nat)
    requires Mapped(coremap, t, home) && Taken(coremap, coremap', k, 'k', a)
    requires forall q: Page :: Lookup(t', q) == Lookup(t, q)
    requires forall b: AddrSpace, j: nat, m: nat :: TableAt(t', b, j, m) <==>
      TableAt(t, b, j, m) || (b == a && j == i && m == k)
    ensures Mapped(coremap', t', home[k := TableFrame(a, i)]) && k !in home
  {
    hide Lookup;
    hide TableAt;
    var home' := home[k := TableFrame(a, i)];
    TakenOne(coremap, coremap', k, 'k', a);
    forall j | j in home' ensures Serves(coremap', t', j, home'[j]) {
      if j != k { ServesStill(coremap, coremap', t, t', j, home[j]); }
    }
    PagesStill(coremap, coremap', t, t', home, home');
  }

  /** Distinct pages, of whatever address spaces, have distinct frames. */
  lemma FramesDistinct(coremap: seq<Frame>, t: Tables, home: map<nat, Use>, p: Page, q: Page)
    requires FramesOk(coremap, t.mem) && Mapped(coremap, t, home) && p != q && Lookup(t, p) != 0
    ensures Lookup(t, p) != Lookup(t, q)
  {
    hide Lookup;
    hide TableAt;
    if Lookup(t, q) != 0 {
      var j :| j in home && home[j] == UserPage(p) && PageIn(coremap, t, p, j);
      var k :| k in home && home[k] == UserPage(q) && PageIn(coremap, t, q, k);
      assert j != k;
    }
  }

  /** No page is in the frame of a second-level table. */
  lemma TablesApart(coremap: seq<Frame>, t: Tables, home: map<nat, Use>, p: Page, a: AddrSpace, i: nat, k: nat)
    requires FramesOk(coremap, t.mem) && Mapped(coremap, t, home) && TableAt(t, a, i, k)
    ensures !PageIn(coremap, t, p, k)
  {
    hide Lookup;
    hide TableAt;
    if PageIn(coremap, t, p, k) {
      var j :| j in home && home[j] == UserPage(p) && PageIn(coremap, t, p, j);
    }
  }

  lemma TableUsed(coremap: seq<Frame>, t: Tables, home: map<nat, Use>, a: AddrSpace, i: nat, k: nat)
    requires Mapped(coremap, t, home) && TableAt(t, a, i, k)
    ensures k < |coremap| && coremap[k].used
  {
    hide Lookup;
  }

  /** A free frame is no table. */
  lemma FreeNoTable(coremap: seq<Frame>, t: Tables, home: map<nat, Use>, k: nat)
    requires Mapped(coremap, t, home) && k < |coremap| && !coremap[k].used
    ensures forall a: AddrSpace, i: nat :: !TableAt(t, a, i, k)
  {
    hide Lookup;
    hide TableAt;
  }

  predicate NoFree(coremap: seq<Frame>) { forall k :: 0 <= k < |coremap| ==> coremap[k].used }

  /** The space has a second-level table for the page. */
  predicate HasTable(t: Tables, p: Page) {
    p.space in t.spaces && p.vpn / ENTRIES < |t.spaces[p.space]| && t.spaces[p.space][p.vpn / ENTRIES].Second?
  }

  /** The frames that a fault has to take: one for a missing table, one for a page that is not mapped. */
  function Need(t: Tables, p: Page): nat {
    (if HasTable(t, p) then 0 else 1) + if Lookup(t, p) == 0 then 1 else 0
  }

  /** What a fault does: it maps its page to a frame that was free and is now zero, unless
      the page is mapped or too few frames are free. It takes no frame but this one and
      the one for the table, and frames that were in use keep what they hold, but for the
      entry of the page in its table. */
  ghost predicate Faulted(coremap: seq<Frame>, t: Tables, coremap': seq<Frame>, t': Tables, p: Page, pa: nat,
                          fresh_: bool, oom: bool)
  {
    && |coremap'| == |coremap| == |t.mem| == |t'.mem| && t'.spaces.Keys == t.spaces.Keys
    && pa == ToPhysical(Lookup(t', p)) && (oom <==> Lookup(t', p) == 0) && (fresh_ <==> Lookup(t, p) == 0)
    && (forall q: Page :: q != p ==> Lookup(t', q) == Lookup(t, q))
    && (Lookup(t, p) != 0 ==> t' == t && coremap' == coremap)
    && (forall k :: 0 <= k < |coremap| && coremap[k].used ==>
          coremap'[k] == coremap[k] && (t'.mem[k] == t.mem[k] || TableAt(t, p.space, p.vpn / ENTRIES, k)))
    && (forall k :: 0 <= k < |coremap| && !coremap[k].used && coremap'[k] != coremap[k] ==>
          || (TableAt(t', p.space, p.vpn / ENTRIES, k) && coremap'[k] == Frame(true, 'k', p.space, coremap[k].pa))
          || (PageIn(coremap, t', p, k) && coremap'[k] == Frame(true, 'u', p.space, coremap[k].pa)))
    && (fresh_ && !oom ==> exists k ::
          0 <= k < |coremap| && !coremap[k].used && PageIn(coremap, t', p, k) && t'.mem[k] == Zeros()
          && coremap'[k] == Frame(true, 'u', p.space, coremap[k].pa))
    && (oom <==> |FreeFrames(coremap)| < Need(t, p))
    && |FreeFrames(coremap')| == if oom then 0 else |FreeFrames(coremap)| - Need(t, p)
  }

  /** Page p, not mapped before, got an entry in the table in `frame`, if a frame was free. */
  ghost predicate PageMapped(coremap: seq<Frame>, t: Tables, coremap': seq<Frame>, t': Tables, p: Page, frame: nat) {
    && |coremap'| == |coremap| == |t.mem| == |t'.mem| && t'.spaces == t.spaces && SameFrames(coremap, coremap')
    && (forall q: Page :: q != p ==> Lookup(t', q) == Lookup(t, q))
    && (forall k :: 0 <= k < |coremap| && coremap[k].used ==> k == frame || t'.mem[k] == t.mem[k])
    && (Lookup(t', p) == 0 <==> NoFree(coremap))
    && (Lookup(t', p) == 0 ==> coremap' == coremap && t' == t)
    && (Lookup(t', p) != 0 ==> exists k: nat ::
          Taken(coremap, coremap', k, 'u', p.space) && PageIn(coremap, t', p, k) && t'.mem[k] == Zeros())
  }

  /** The table for p, if it was missing, has got frame k. */
  ghost predicate TableMade(coremap: seq<Frame>, t: Tables, coremap': seq<Frame>, t': Tables, p: Page, k: nat) {
    && |coremap'| == |coremap| == |t.mem| == |t'.mem| && t'.spaces.Keys == t.spaces.Keys
    && SameFrames(coremap, coremap')
    && (forall q: Page :: Lookup(t', q) == Lookup(t, q)) && TableAt(t', p.space, p.vpn / ENTRIES, k)
    && (forall j :: 0 <= j < |coremap| && coremap[j].used ==> t'.mem[j] == t.mem[j])
    && (if HasTable(t, p) then t' == t && coremap' == coremap
        else Lookup(t, p) == 0 && Taken(coremap, coremap', k, 'k', p.space))
  }

  /** Making the table, if need be, and then mapping the page, if need be. */
  lemma FaultDone(core0: seq<Frame>, t0: Tables, core1: seq<Frame>, t1: Tables, core2: seq<Frame>, t2: Tables,
                  p: Page, frame: nat)
    requires TableMade(core0, t0, core1, t1, p, frame)
    requires if Lookup(t1, p) != 0 then t2 == t1 && core2 == core1 else PageMapped(core1, t1, core2, t2, p, frame)
    ensures Faulted(core0, t0, core2, t2, p, ToPhysical(Lookup(t2, p)), Lookup(t1, p) == 0, Lookup(t2, p) == 0)
  {
    hide Lookup;
    hide TableAt;
    FaultCounts(core0, t0, core1, t1, core2, t2, p, frame);
    hide FreeFrames;
    assert TableAt(t2, p.space, p.vpn / ENTRIES, frame) by { SameTables(t1, t2, p.space, p.vpn / ENTRIES, frame); }
    if Lookup(t1, p) == 0 && Lookup(t2, p) != 0 {
      var k: nat :| Taken(core1, core2, k, 'u', p.space) && PageIn(core1, t2, p, k) && t2.mem[k] == Zeros();
      assert !core0[k].used && PageIn(core0, t2, p, k) && core2[k] == Frame(true, 'u', p.space, core0[k].pa);
    }
  }

  lemma SameTables(t: Tables, t': Tables, a: AddrSpace, i: nat, k: nat)
    requires t'.spaces == t.spaces
    ensures TableAt(t', a, i, k) <==> TableAt(t, a, i, k)
  {
  }

  lemma FaultCounts(core0: seq<Frame>, t0: Tables, core1: seq<Frame>, t1: Tables, core2: seq<Frame>, t2: Tables,
                    p: Page, frame: nat)
    requires TableMade(core0, t0, core1, t1, p, frame)
    requires if Lookup(t1, p) != 0 then t2 == t1 && core2 == core1 else PageMapped(core1, t1, core2, t2, p, frame)
    ensures Lookup(t2, p) == 0 <==> |FreeFrames(core0)| < Need(t0, p)
    ensures |FreeFrames(core2)| == if Lookup(t2, p) == 0 then 0 else |FreeFrames(core0)| - Need(t0, p)
  {
    hide Lookup;
    hide TableAt;
    hide FreeFrames;
    hide HasTable;
    hide NoFree;
    if !HasTable(t0, p) { TakenOne(core0, core1, frame, 'k', p.space); }
    NoneFree(core1);
    if Lookup(t1, p) == 0 && Lookup(t2, p) != 0 {
      var k: nat :| Taken(core1, core2, k, 'u', p.space) && PageIn(core1, t2, p, k) && t2.mem[k] == Zeros();
      TakenOne(core1, core2, k, 'u', p.space);
    }
  }

  /** Frame k, taken for the table of a page, becomes that table. */
  lemma TableStep(core: seq<Frame>, t: Tables, home: map<nat, Use>, core': seq<Frame>, p: Page, k: nat)
    requires Shaped(t) && Mapped(core, t, home) && |core| == |t.mem|
    requires p.space in t.spaces && p.vpn / ENTRIES < ENTRIES && |t.spaces[p.space]| == ENTRIES && !HasTable(t, p)
    requires Taken(core, core', k, 'k', p.space)
    ensures var t', home' := WithTable(t, p.space, p.vpn / ENTRIES, k), home[k := TableFrame(p.space, p.vpn / ENTRIES)];
            && Shaped(t') && Mapped(core', t', home') && TableMade(core, t, core', t', p, k)
            && Kept(core, home, core', home', {p})
  {
    hide Lookup;
    hide Shaped;
    hide Mapped;
    hide TableAt;
    var i := p.vpn / ENTRIES;
    FreeNoTable(core, t, home, k);
    TableAdded(t, p.space, i, k);
    MappedTable(core, core', t, WithTable(t, p.space, i, k), home, p.space, i, k);
    TakenOne(core, core', k, 'k', p.space);
    NoTable(t, p);
    assert For(TableFrame(p.space, i), {p});
  }

  /** Frame k, taken for a page and cleared, gets into its table. */
  lemma MapStep(core: seq<Frame>, t: Tables, home: map<nat, Use>, core': seq<Frame>, p: Page, frame: nat, k: nat)
    requires Shaped(t) && Mapped(core, t, home) && |core| == |t.mem| && Lookup(t, p) == 0
    requires HasTable(t, p) && p.vpn / ENTRIES < ENTRIES && frame == t.spaces[p.space][p.vpn / ENTRIES].frame
    requires Taken(core, core', k, 'u', p.space) && !NoFree(core)
    requires frame != k && frame < |t.mem| && t.mem[frame].Entries? && |t.mem[frame].e| == ENTRIES
    ensures var m := t.(mem := t.mem[k := Zeros()]);
            var t', home' := WithEntry(m, p, ToKernel(core[k].pa)), home[k := UserPage(p)];
            && Shaped(t') && Mapped(core', t', home') && PageMapped(core, t, core', t', p, frame)
            && Kept(core, home, core', home', {p})
  {
    hide Lookup;
    hide Shaped;
    hide Mapped;
    var m, v := t.(mem := t.mem[k := Zeros()]), ToKernel(core[k].pa);
    FreeNoTable(core, t, home, k);
    FrameChanged(t, k, Zeros());
    EntrySet(m, p, v);
    var t' := WithEntry(m, p, v);
    hide TableAt;
    MappedMore(core, core', t, t', home, p, k);
    TakenOne(core, core', k, 'u', p.space);
    assert PageIn(core, t', p, k);
  }

  /** Mapped pages stay where they are. Without a free frame before, there is none
      afterwards, and no page gets mapped. */
  lemma FaultFacts(core: seq<Frame>, t: Tables, core': seq<Frame>, t': Tables, p: Page, pa: nat, fresh_: bool,
                   oom: bool)
    requires Faulted(core, t, core', t', p, pa, fresh_, oom)
    ensures t'.spaces.Keys == t.spaces.Keys
    ensures forall q: Page :: Lookup(t, q) != 0 ==> Lookup(t', q) == Lookup(t, q)
    ensures NoFree(core) ==> NoFree(core') && forall q: Page :: Lookup(t', q) == Lookup(t, q)
    ensures if oom then NoFree(core') && Lookup(t', p) == 0 else Lookup(t', p) != 0 && pa == ToPhysical(Lookup(t', p))
  {
    hide Lookup;
    hide HasTable;
    hide FreeFrames;
    hide NoFree;
    NoneFree(core);
    NoneFree(core');
  }

  class Vm {
    var coremap: seq<Frame>
    var mem: seq<Contents>                         // the contents of each frame
    var spaces: map<AddrSpace, seq<Table>>         // PT1 of each address space
    ghost var home: map<nat, Use>                  // what each frame in use is for

    function All(): Tables
      reads this
    {
      Tables(mem, spaces)
    }

    ghost predicate Valid()
      reads this
    {
      FramesOk(coremap, mem) && Shaped(All()) && Mapped(coremap, All(), home)
    }

    /** At the start every frame is free and no page is mapped. */
    constructor (pas: seq<nat>, ids: set<AddrSpace>)
      requires forall k :: 0 <= k < |pas| ==> 0 < pas[k] < 0x2000_0000
      requires forall j, k :: 0 <= j < k < |pas| ==> pas[j] != pas[k]
      ensures Valid() && |coremap| == |pas| && spaces.Keys == ids
      ensures (forall k :: 0 <= k < |coremap| ==> !coremap[k].used) && forall p :: Lookup(All(), p) == 0
    {
      coremap := seq(|pas|, k requires 0 <= k < |pas| => Frame(false, 'u', 0, pas[k]));
      mem := seq(|pas|, _ => Zeros());
      spaces := map a | a in ids :: seq(1024, _ => Null);
      home := map[];
    }

    /** The search and clearing of pmalloc, and of alloc_kpages for one page: the first
        free frame is taken and filled with zeros; 0 exactly if there is none. */
    method TakeFrame(york: char, owner: AddrSpace) returns (v: nat, k: nat)
      requires FramesOk(coremap, mem)
      modifies this`coremap, this`mem
      ensures FramesOk(coremap, mem) && |coremap| == old(|coremap|)
      ensures v == 0 <==> NoFree(old(coremap))
      ensures v == 0 ==> coremap == old(coremap) && mem == old(mem)
      ensures v != 0 ==>
        && Taken(old(coremap), coremap, k, york, owner) && v == ToKernel(coremap[k].pa)
        && mem == old(mem)[k := Zeros()]
        && forall j :: 0 <= j < k ==> old(coremap)[j].used
    {
      var i := 0;
      k := 0;
      while i < |coremap|
        invariant 0 <= i <= |coremap| && coremap == old(coremap) && mem == old(mem)
        invariant forall j :: 0 <= j < i ==> coremap[j].used
      {
        if !coremap[i].used {
          ClearFrame(i);
          coremap := coremap[i := Frame(true, york, owner, coremap[i].pa)];
          return ToKernel(coremap[i].pa), i;
        }
        i := i + 1;
      }
      v := 0;
    }

    /** The loop that clears a frame byte by byte. */
    method ClearFrame(i: nat)
      requires i < |mem| && mem[i].Bytes? && |mem[i].b| == PAGE_SIZE
      modifies this`mem
      ensures mem == old(mem)[i := Zeros()]
    {
      var k := 0;
      while k < PAGE_SIZE
        invariant 0 <= k <= PAGE_SIZE && |mem| == old(|mem|) && mem[i].Bytes? && |mem[i].b| == PAGE_SIZE
        invariant mem == old(mem)[i := mem[i]]
        invariant forall j :: 0 <= j < k ==> mem[i].b[j] == 0
      {
        mem := mem[i := Bytes(mem[i].b[k := 0])];
        k := k + 1;
      }
      assert mem[i].b == Zeros().b;
    }

    /** The second-level table for the page is created if there is none. The result of
        kmalloc is not looked at: !ok is a store through a null pointer. */
    method EnsureTable(as_: AddrSpace, addr: nat) returns (ok: bool)
      requires Valid() && as_ in spaces && addr < 0x1_0000_0000
      modifies this
      ensures Valid() && as_ in spaces && spaces.Keys == old(spaces).Keys
      ensures FirstIndex(addr) < |spaces[as_]| && FirstIndex(addr) < |old(spaces)[as_]|
      ensures ok <==> old(spaces)[as_][FirstIndex(addr)].Second? || !NoFree(old(coremap))
      ensures ok ==> spaces[as_][FirstIndex(addr)].Second?
      ensures !ok ==> coremap == old(coremap) && All() == old(All()) && home == old(home)
      ensures ok ==>
        && TableMade(old(coremap), old(All()), coremap, All(), Page(as_, PageNumber(addr)),
                     spaces[as_][FirstIndex(addr)].frame)
        && Kept(old(coremap), old(home), coremap, home, {Page(as_, PageNumber(addr))})
    {
      hide Lookup;
      hide FirstIndex;
      hide Shaped;
      hide Mapped;
      hide TableAt;
      hide Kept;
      hide PageNumber;
      IndexSplit(addr);
      SpaceSize(All(), as_);
      ghost var p := Page(as_, PageNumber(addr));
      var i := FirstIndex(addr);
      if spaces[as_][i].Null? {
        ghost var t := All();
        var v, k := TakeFrame('k', as_);
        if v == 0 {
          return false;
        }
        mem := mem[k := EmptyTable()];
        spaces := spaces[as_ := spaces[as_][i := Second(k)]];
        assert All() == WithTable(t, as_, i, k);
        TableStep(old(coremap), t, home, coremap, p, k);
        home := home[k := TableFrame(as_, i)];
      } else {
        KeptSame(coremap, home, {p});
      }
      TableThere(All(), p);
      ok := true;
    }

    lemma SpaceSize(t: Tables, a: AddrSpace)
      requires Shaped(t) && a in t.spaces
      ensures |t.spaces[a]| == ENTRIES
    {
    }

    /** An entry that is 0 is given what pmalloc returns. */
    method MapPage(as_: AddrSpace, ghost p: Page, frame: nat, j: nat)
      requires Valid() && p.space == as_ && p.vpn / ENTRIES < ENTRIES && j == p.vpn % ENTRIES && Lookup(All(), p) == 0
      requires TableAt(All(), as_, p.vpn / ENTRIES, frame)
      modifies this
      ensures Valid() && PageMapped(old(coremap), old(All()), coremap, All(), p, frame)
      ensures Kept(old(coremap), old(home), coremap, home, {p})
    {
      hide Lookup;
      hide Shaped;
      hide Mapped;
      hide Kept;
      hide NoFree;
      ghost var t, core := All(), coremap;
      TableThere(t, p);
      TableUsed(core, t, home, as_, p.vpn / ENTRIES, frame);
      var v, k := TakeFrame('u', as_);
      if v == 0 {
        assert mem[frame].e[j := 0] == mem[frame].e;
        mem := mem[frame := Entries(mem[frame].e[j := v])];
        assert All() == t;
        KeptSame(core, home, {p});
        return;
      }
      MapStep(core, t, home, coremap, p, frame, k);
      mem := mem[frame := Entries(mem[frame].e[j := v])];
      home := home[k := UserPage(p)];
    }

    /** fault_handler in address space as_. A table that has to be made needs a frame, too;
        without one the handler does not survive (!ok). */
    method FaultHandler(as_: AddrSpace, addr: nat) returns (ok: bool, pa: nat, indicator: bool, oom: bool)
      requires Valid() && as_ in spaces && addr < 0x1_0000_0000
      modifies this
      ensures Valid() && FirstIndex(addr) < |old(spaces)[as_]|
      ensures ok <==> old(spaces)[as_][FirstIndex(addr)].Second? || !NoFree(old(coremap))
      ensures !ok ==> coremap == old(coremap) && All() == old(All()) && home == old(home)
      ensures ok ==> Faulted(old(coremap), old(All()), coremap, All(), Page(as_, PageNumber(addr)), pa, indicator, oom)
      ensures Kept(old(coremap), old(home), coremap, home, {Page(as_, PageNumber(addr))})
    {
      hide Lookup;
      hide FramesOk;
      hide Mapped;
      hide Shaped;
      IndexSplit(addr);
      ghost var p, t0 := Page(as_, PageNumber(addr)), All();
      SpaceSize(t0, as_);
      if spaces[as_][FirstIndex(addr)].Null? { NoTable(t0, p); }
      ok := EnsureTable(as_, addr);
      pa, indicator, oom := 0, false, false;
      if !ok {
        return;
      }
      ghost var t, core, h := All(), coremap, home;
      TableThere(t, p);
      var i, j := FirstIndex(addr), SecondIndex(addr);
      var frame := spaces[as_][i].frame;
      if mem[frame].e[j] == 0 {
        indicator := true;
        MapPage(as_, p, frame, j);
        KeptTwice(old(coremap), old(home), core, h, coremap, home, {p}, {p});
        assert {p} + {p} == {p};
      }
      TableThere(All(), p);
      if mem[frame].e[j] == 0 {
        oom := true;
      }
      pa := ToPhysical(mem[frame].e[j]);
      FaultDone(old(coremap), t0, core, t, coremap, All(), p, frame);
    }

    /** Any sequence of faults, in any address spaces, up to one that finds no memory
        for a second-level table: two faults are given the same frame exactly if they
        are for the same page. */
    method Run(faults: seq<Fault>) returns (res: seq<Outcome>)
      requires Valid() && forall f :: f in faults ==> f.space in spaces && f.addr < 0x1_0000_0000
      modifies this
      ensures Valid() && spaces.Keys == old(spaces).Keys && |res| <= |faults|
      // it stops short, and a fault fails, only without a free frame
      ensures |res| < |faults| ==>
        && NoFree(coremap)
        && var f := faults[|res|];
              f.space in spaces && FirstIndex(f.addr) < |spaces[f.space]| && spaces[f.space][FirstIndex(f.addr)].Null?
      ensures AllAnswered(coremap, All(), faults, res)
      ensures forall i, j :: 0 <= i < j < |res| && res[i].Got? && res[j].Got? ==>
                (res[i].pa == res[j].pa <==> PageOf(faults[i]) == PageOf(faults[j]))
      // the frames that were taken are those of pages that faulted, and of their tables
      ensures Kept(old(coremap), old(home), coremap, home, set f | f in faults :: PageOf(f))
    {
      hide Lookup;
      hide FramesOk;
      hide Mapped;
      hide PageNumber;
      hide Kept;
      hide NoFree;
      hide Faulted;
      hide AllAnswered;
      ghost var pages := set f | f in faults :: PageOf(f);
      KeptSame(coremap, home, pages);
      res := [];
      NoneAnswered(coremap, All(), faults);
      var i := 0;
      while i < |faults|
        invariant 0 <= i <= |faults| && |res| == i && Valid() && spaces.Keys == old(spaces).Keys
        invariant AllAnswered(coremap, All(), faults, res)
        invariant Kept(old(coremap), old(home), coremap, home, pages)
      {
        var f := faults[i];
        assert f in faults;
        ghost var core, t, h := coremap, All(), home;
        var ok, pa, fresh_, oom := FaultHandler(f.space, f.addr);
        if !ok {
          assert f == faults[|res|];
          break;
        }
        KeptTwice(old(coremap), old(home), core, h, coremap, home, pages, {PageOf(f)});
        assert pages + {PageOf(f)} == pages;
        AnswerStep(core, t, faults, res, coremap, All(), home, pa, fresh_, oom);
        res := res + [if oom then Failed else Got(pa)];
        i := i + 1;
      }
      AnswersDistinct(coremap, All(), home, faults, res);
    }
  }

  datatype Fault = Fault(space: AddrSpace, addr: nat)
  datatype Outcome = Got(pa: nat) | Failed

  function PageOf(f: Fault): Page { Page(f.space, PageNumber(f.addr)) }

  /** The answers still hold: a page that got a frame has it, one that got none is unmapped
      and no frame is free. */
  ghost predicate AllAnswered(coremap: seq<Frame>, t: Tables, faults: seq<Fault>, res: seq<Outcome>) {
    && |res| <= |faults|
    && (forall i :: 0 <= i < |res| && res[i].Got? ==> Lookup(t, PageOf(faults[i])) == ToKernel(res[i].pa))
    && (forall i :: 0 <= i < |res| && res[i].Failed? ==> Lookup(t, PageOf(faults[i])) == 0 && NoFree(coremap))
  }

  lemma NoneAnswered(coremap: seq<Frame>, t: Tables, faults: seq<Fault>)
    ensures AllAnswered(coremap, t, faults, [])
  {
  }

  lemma AnswerStep(core: seq<Frame>, t: Tables, faults: seq<Fault>, res: seq<Outcome>, core': seq<Frame>, t': Tables,
                   home: map<nat, Use>, pa: nat, fresh_: bool, oom: bool)
    requires AllAnswered(core, t, faults, res) && |res| < |faults|
    requires Faulted(core, t, core', t', PageOf(faults[|res|]), pa, fresh_, oom)
    requires FramesOk(core', t'.mem) && Mapped(core', t', home)
    ensures AllAnswered(core', t', faults, res + [if oom then Failed else Got(pa)]) && t'.spaces.Keys == t.spaces.Keys
  {
    hide Lookup;
    hide FramesOk;
    hide Mapped;
    hide PageOf;
    hide NoFree;
    FaultFacts(core, t, core', t', PageOf(faults[|res|]), pa, fresh_, oom);
    hide Faulted;
    if !oom { MappedKernel(core', t', home, PageOf(faults[|res|])); }
  }

  lemma AnswersDistinct(core: seq<Frame>, t: Tables, home: map<nat, Use>, faults: seq<Fault>, res: seq<Outcome>)
    requires AllAnswered(core, t, faults, res) && FramesOk(core, t.mem) && Mapped(core, t, home)
    ensures forall i, j :: 0 <= i < j < |res| && res[i].Got? && res[j].Got? ==>
              (res[i].pa == res[j].pa <==> PageOf(faults[i]) == PageOf(faults[j]))
  {
    hide Lookup;
    hide FramesOk;
    hide Mapped;
    hide PageOf;
    forall a, b | 0 <= a < b < |res| && res[a].Got? && res[b].Got?
      ensures res[a].pa == res[b].pa <==> PageOf(faults[a]) == PageOf(faults[b])
    {
      if PageOf(faults[a]) != PageOf(faults[b]) {
        FramesDistinct(core, t, home, PageOf(faults[a]), PageOf(faults[b]));
      }
    }
  }

  /** Entries are kernel addresses, so converting back and forth loses nothing. */
  lemma MappedKernel(coremap: seq<Frame>, t: Tables, home: map<nat, Use>, p: Page)
    requires FramesOk(coremap, t.mem) && Mapped(coremap, t, home) && Lookup(t, p) != 0
    ensures ToKernel(ToPhysical(Lookup(t, p))) == Lookup(t, p)
  {
    hide Lookup;
    hide TableAt;
    var k :| k in home && home[k] == UserPage(p) && PageIn(coremap, t, p, k);
  }

  lemma NoTable(t: Tables, p: Page)
    requires Shaped(t) && p.space in t.spaces && p.vpn / ENTRIES < ENTRIES && t.spaces[p.space][p.vpn / ENTRIES].Null?
    ensures Lookup(t, p) == 0
  {
  }
}
