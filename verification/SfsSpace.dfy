/** How many blocks files need: which blocks of a file exist, and which of them a
    write has to allocate. */
module SfsSpace {
  import opened Arith
  import opened SfsFormat
  import opened SfsBlocks

  /** The blocks that can be allocated. */
  function Free(fs: Fs): set<nat> { set b | 0 <= b < |fs.disk| && b !in fs.used }

  /** The slot of block k of file n; MAXBLOCKS stands for the indirect block. */
  function At(n: nat, k: nat): Slot { if k == MAXBLOCKS then IndirectSlot(n) else DataSlot(n, k) }

  /** The blocks of file n that exist. */
  ghost function Mapped(fs: Fs, n: nat): set<nat> { set k | 0 <= k <= MAXBLOCKS && BlockIn(fs, At(n, k)) != 0 }

  // ----- What a range of a file needs

  /** Block k belongs to the blocks lo to hi of a file, or leads to some of them. */
  predicate Needed(k: nat, lo: nat, hi: nat) {
    if k == MAXBLOCKS then lo < hi && lo < MAXBLOCKS && NDIRECT < hi else lo <= k < hi
  }

  /** The blocks needed for lo to hi, with b there already. */
  function Lacking(b: set<nat>, lo: nat, hi: nat): set<nat> {
    set k | 0 <= k <= MAXBLOCKS && Needed(k, lo, hi) && k !in b
  }

  /** The end of the blocks that I/O of len bytes at off touches. With nothing to move it
      still looks at the block in which it starts, unless it starts at a boundary. */
  function BlockEnd(off: nat, len: nat): nat { (off + len + BLOCKSIZE - 1) / BLOCKSIZE }

  lemma LackingNone(b: set<nat>, lo: nat)
    ensures Lacking(b, lo, lo) == {}
  {
  }

  lemma LackingMore(b: set<nat>, lo: nat, m: nat, hi: nat)
    requires lo <= m <= hi
    ensures Lacking(b, lo, m) <= Lacking(b, lo, hi) && |Lacking(b, lo, m)| <= |Lacking(b, lo, hi)|
  {
    SubsetSize(Lacking(b, lo, m), Lacking(b, lo, hi));
  }

  lemma SubsetSize(a: set<nat>, b: set<nat>)
    requires a <= b
    ensures |a| <= |b|
  {
    assert b == a + (b - a);
  }

  /** There are no blocks past the largest file. */
  lemma LackingPast(b: set<nat>, lo: nat, m: nat, hi: nat)
    requires lo <= m <= hi && MAXBLOCKS <= m
    ensures Lacking(b, lo, hi) == Lacking(b, lo, m) && Lacking(b, m, m + 1) == {}
  {
  }

  /** What is lacking from m on, when what lacks up to m has been allocated. */
  lemma LackingSplit(b: set<nat>, lo: nat, m: nat, hi: nat)
    requires lo <= m <= hi
    ensures var got, more := Lacking(b, lo, m), Lacking(b + Lacking(b, lo, m), m, hi);
            Lacking(b, lo, hi) == got + more && got !! more && |Lacking(b, lo, hi)| == |got| + |more|
  {
    var got, more, all := Lacking(b, lo, m), Lacking(b + Lacking(b, lo, m), m, hi), Lacking(b, lo, hi);
    forall k ensures k in all <==> k in got + more {}
    assert got !! more;
  }

  /** What a single block lacks: nothing, itself, or the indirect block as well. */
  lemma LackingOne(b: set<nat>, fb: nat)
    ensures fb < NDIRECT ==> Lacking(b, fb, fb + 1) == {fb} - b
    ensures NDIRECT <= fb < MAXBLOCKS ==> Lacking(b, fb, fb + 1) == {fb, MAXBLOCKS} - b
    ensures fb >= MAXBLOCKS ==> Lacking(b, fb, fb + 1) == {}
  {
  }

  // ----- Allocation

  /** File n has got the blocks s, and nothing else changed hands. */
  ghost predicate Grew(fs: Fs, fs': Fs, n: nat, s: set<nat>) {
    && s !! Mapped(fs, n) && Mapped(fs', n) == Mapped(fs, n) + s
    && (forall m: nat :: m != n ==> Mapped(fs', m) == Mapped(fs, m))
    && Free(fs') <= Free(fs) && |Free(fs')| + |s| == |Free(fs)|
  }

  /** No block changed hands. */
  ghost predicate SameSpace(fs: Fs, fs': Fs) {
    Free(fs') == Free(fs) && forall m: nat :: Mapped(fs', m) == Mapped(fs, m)
  }

  lemma SameGrew(fs: Fs, fs': Fs, n: nat)
    requires SameSpace(fs, fs')
    ensures Grew(fs, fs', n, {})
  {
    hide Mapped;
    hide Free;
  }

  lemma GrewNothing(fs: Fs, fs': Fs, n: nat)
    requires Grew(fs, fs', n, {})
    ensures SameSpace(fs, fs')
  {
    hide Mapped;
    hide Free;
    assert Free(fs) == Free(fs') + (Free(fs) - Free(fs'));
  }

  lemma SameSpaceRefl(fs: Fs)
    ensures SameSpace(fs, fs)
  {
  }

  lemma SlotsSame(fs: Fs, fs': Fs)
    requires (forall s :: BlockIn(fs', s) == BlockIn(fs, s)) && fs'.used == fs.used && |fs'.disk| == |fs.disk|
    ensures SameSpace(fs, fs')
  {
    hide BlockIn;
  }

  lemma GrewTwice(a: Fs, b: Fs, c: Fs, n: nat, s: set<nat>, t: set<nat>)
    requires Grew(a, b, n, s) && Grew(b, c, n, t)
    ensures s !! t && |s + t| == |s| + |t| && Grew(a, c, n, s + t)
  {
    hide Mapped;
    hide Free;
    assert s !! t;
  }

  /** A block that was free becomes block k of file n. */
  lemma GainGrew(fs: Fs, fs': Fs, n: nat, k: nat, b: nat)
    requires Gains(fs, fs', At(n, k), b) && k <= MAXBLOCKS
    ensures Grew(fs, fs', n, {k})
  {
    hide BlockIn;
    forall j: nat | j <= MAXBLOCKS ensures BlockIn(fs', At(n, j)) == if j == k then b else BlockIn(fs, At(n, j)) {}
    forall m: nat | m != n ensures Mapped(fs', m) == Mapped(fs, m) {
      forall j: nat | j <= MAXBLOCKS ensures BlockIn(fs', At(m, j)) == BlockIn(fs, At(m, j)) {}
    }
    assert Free(fs') == Free(fs) - {b};
  }

  lemma GrewSame(a: Fs, b: Fs, c: Fs, n: nat, s: set<nat>)
    requires (Grew(a, b, n, s) && SameSpace(b, c)) || (SameSpace(a, b) && Grew(b, c, n, s))
    ensures Grew(a, c, n, s)
  {
    hide Mapped;
    hide Free;
  }

  lemma SameSpaceTwice(a: Fs, b: Fs, c: Fs)
    requires SameSpace(a, b) && SameSpace(b, c)
    ensures SameSpace(a, c)
  {
    hide Mapped;
    hide Free;
  }

  // ----- Freeing

  /** File n has given its blocks back. */
  ghost predicate Cleared(a: Fs, b: Fs, n: nat) {
    && Mapped(b, n) == {} && (forall m: nat :: m != n ==> Mapped(b, m) == Mapped(a, m))
    && Free(a) <= Free(b) && |Free(b)| == |Free(a)| + |Mapped(a, n)|
  }

  /** And its inode. */
  ghost predicate Erased(a: Fs, b: Fs, n: nat) {
    && Mapped(b, n) == {} && (forall m: nat :: m != n ==> Mapped(b, m) == Mapped(a, m))
    && Free(a) + {n} <= Free(b) && |Free(b)| == |Free(a)| + |Mapped(a, n)| + 1
  }

  /** File n came into being, with no blocks. */
  ghost predicate Born(a: Fs, b: Fs, n: nat) {
    n in Free(a) && Free(b) == Free(a) - {n} && forall m: nat :: Mapped(b, m) == Mapped(a, m)
  }

  lemma BornSpace(a: Fs, b: Fs, n: nat)
    requires n < |b.disk| == |a.disk| && n !in a.used && b.used == a.used + {n}
    requires n !in a.inodes && n in b.inodes && NoBlocks(b.inodes[n])
    requires forall s: Slot :: s.n != n ==> BlockIn(b, s) == BlockIn(a, s)
    ensures Born(a, b, n) && Mapped(a, n) == {}
  {
    MappedNone(a, n);
    EmptyMapped(b, n);
    hide BlockIn;
    hide Mapped;
    forall m: nat ensures Mapped(b, m) == Mapped(a, m) {
      if m != n { MappedSame(a, b, m); }
    }
  }

  lemma EmptyMapped(b: Fs, n: nat)
    requires n in b.inodes && NoBlocks(b.inodes[n])
    ensures Mapped(b, n) == {}
  {
    hide Words;
    MappedNone(b, n);
  }

  ghost function MappedBelow(fs: Fs, n: nat, k: nat): set<nat> {
    set j | 0 <= j < k && BlockIn(fs, DataSlot(n, j)) != 0
  }

  /** The data blocks of file n below block k. */
  ghost function BlocksBelow(fs: Fs, n: nat, k: nat): set<nat> {
    set fb | 0 <= fb < k && BlockIn(fs, DataSlot(n, fb)) != 0 :: BlockIn(fs, DataSlot(n, fb))
  }

  lemma BlocksBelowStep(fs: Fs, owner: map<nat, Slot>, reserved: set<nat>, n: nat, k: nat)
    requires Ownership(fs, owner, reserved)
    ensures var b := BlockIn(fs, DataSlot(n, k));
            && BlocksBelow(fs, n, k + 1) == (if b == 0 then BlocksBelow(fs, n, k) else BlocksBelow(fs, n, k) + {b})
            && (b != 0 ==> 0 < b < |fs.disk| && b in fs.used && b !in BlocksBelow(fs, n, k))
  {
    hide BlockIn;
    var b := BlockIn(fs, DataSlot(n, k));
    if b != 0 {
      OneOwner(fs, owner, reserved, DataSlot(n, k), DataSlot(n, k));
      hide Ownership;
      forall fb | 0 <= fb < k ensures BlockIn(fs, DataSlot(n, fb)) != b {
        OneOwner(fs, owner, reserved, DataSlot(n, k), DataSlot(n, fb));
      }
    }
    hide Ownership;
    forall x ensures x in BlocksBelow(fs, n, k + 1) <==> x in BlocksBelow(fs, n, k) || (x == b && b != 0) {
      if x in BlocksBelow(fs, n, k + 1) {
        var fb :| 0 <= fb < k + 1 && BlockIn(fs, DataSlot(n, fb)) != 0 && BlockIn(fs, DataSlot(n, fb)) == x;
      }
    }
  }

  lemma AllBlocksBelow(fs: Fs, owner: map<nat, Slot>, reserved: set<nat>, n: nat)
    requires Ownership(fs, owner, reserved)
    ensures var ind := BlockIn(fs, IndirectSlot(n));
            && FileBlocks(fs, n) == BlocksBelow(fs, n, MAXBLOCKS) + (if ind != 0 then {ind} else {})
            && (ind != 0 ==> 0 < ind < |fs.disk| && ind in fs.used && ind !in BlocksBelow(fs, n, MAXBLOCKS))
  {
    hide BlockIn;
    if BlockIn(fs, IndirectSlot(n)) != 0 {
      OneOwner(fs, owner, reserved, IndirectSlot(n), IndirectSlot(n));
      hide Ownership;
      forall fb | 0 <= fb < MAXBLOCKS ensures BlockIn(fs, DataSlot(n, fb)) != BlockIn(fs, IndirectSlot(n)) {
        OneOwner(fs, owner, reserved, IndirectSlot(n), DataSlot(n, fb));
      }
    }
  }

  lemma {:induction false} BelowCount(fs: Fs, owner: map<nat, Slot>, reserved: set<nat>, n: nat, k: nat)
    requires Ownership(fs, owner, reserved)
    ensures |BlocksBelow(fs, n, k)| == |MappedBelow(fs, n, k)|
  {
    hide BlockIn;
    hide Ownership;
    hide BlocksBelow;
    hide MappedBelow;
    if k == 0 {
      NoneBelow(fs, n);
    } else {
      BelowCount(fs, owner, reserved, n, k - 1);
      BlocksBelowStep(fs, owner, reserved, n, k - 1);
      MappedBelowStep(fs, n, k - 1);
    }
  }

  lemma NoneBelow(fs: Fs, n: nat)
    ensures BlocksBelow(fs, n, 0) == {} && MappedBelow(fs, n, 0) == {}
  {
  }

  lemma MappedBelowStep(fs: Fs, n: nat, k: nat)
    ensures var below := MappedBelow(fs, n, k);
            && MappedBelow(fs, n, k + 1) == (if BlockIn(fs, DataSlot(n, k)) == 0 then below else below + {k})
            && k !in below
  {
    hide BlockIn;
  }

  /** A file has as many blocks on the disk as blocks that exist. */
  lemma FileBlocksCount(fs: Fs, owner: map<nat, Slot>, reserved: set<nat>, n: nat)
    requires Ownership(fs, owner, reserved)
    ensures |FileBlocks(fs, n)| == |Mapped(fs, n)|
  {
    hide BlockIn;
    BelowCount(fs, owner, reserved, n, MAXBLOCKS);
    AllBlocksBelow(fs, owner, reserved, n);
    hide Ownership;
    hide FileBlocks;
    hide BlocksBelow;
    var ind := BlockIn(fs, IndirectSlot(n));
    MappedSplit(fs, n);
    hide Mapped;
    assert MAXBLOCKS !in MappedBelow(fs, n, MAXBLOCKS);
  }

  lemma MappedSplit(fs: Fs, n: nat)
    ensures Mapped(fs, n)
         == MappedBelow(fs, n, MAXBLOCKS) + if BlockIn(fs, IndirectSlot(n)) == 0 then {} else {MAXBLOCKS}
  {
    hide BlockIn;
    forall k: nat ensures k in Mapped(fs, n) <==>
      k in MappedBelow(fs, n, MAXBLOCKS) || (k == MAXBLOCKS && BlockIn(fs, IndirectSlot(n)) != 0)
    {
      assert k < MAXBLOCKS ==> At(n, k) == DataSlot(n, k);
    }
  }

  lemma MappedSame(a: Fs, b: Fs, n: nat)
    requires forall s: Slot :: s.n == n && !s.InodeSlot? ==> BlockIn(b, s) == BlockIn(a, s)
    ensures Mapped(b, n) == Mapped(a, n)
  {
    hide BlockIn;
  }

  lemma MappedNone(a: Fs, n: nat)
    requires forall s: Slot :: s.n == n && !s.InodeSlot? ==> BlockIn(a, s) == 0
    ensures Mapped(a, n) == {}
  {
    hide BlockIn;
  }

  lemma FreeFileSpace(a: Fs, owner: map<nat, Slot>, reserved: set<nat>, n: nat, i: Inode)
    requires Ownership(a, owner, reserved) && n in a.inodes && n != 0 && InodeOk(i) && NoBlocks(i)
    ensures Cleared(a, FreeFile(a, n, i), n)
  {
    hide BlockIn;
    hide FileBlocks;
    hide Mapped;
    var b := FreeFile(a, n, i);
    FreeFileOk(a, owner, reserved, n, i);
    FileBlocksCount(a, owner, reserved, n);
    FileInRange(a, owner, reserved, n);
    FileBlocksUsed(a, owner, reserved, n);
    hide Ownership;
    MappedNone(b, n);
    forall m: nat | m != n ensures Mapped(b, m) == Mapped(a, m) { MappedSame(a, b, m); }
    assert Free(b) == Free(a) + FileBlocks(a, n) && Free(a) !! FileBlocks(a, n);
  }

  lemma FileBlocksUsed(a: Fs, owner: map<nat, Slot>, reserved: set<nat>, n: nat)
    requires Ownership(a, owner, reserved)
    ensures FileBlocks(a, n) <= a.used && (n in a.inodes && n != 0 ==> n in a.used && n !in FileBlocks(a, n))
  {
    if n in a.inodes && n != 0 { OneOwner(a, owner, reserved, InodeSlot(n), InodeSlot(n)); }
    forall x ensures x in FileBlocks(a, n) <==> x in owner && SlotOf(owner[x], n) {
      FileBlocksOwned(a, owner, reserved, n, x);
    }
    assert OwnsBlock(a, owner, InodeSlot(n));
    hide FileBlocks;
  }

  /** A file is erased with its inode. */
  lemma ErasedSpace(a: Fs, b: Fs, owner: map<nat, Slot>, reserved: set<nat>, n: nat)
    requires Ownership(a, owner, reserved) && n in a.inodes && n != 0 && |b.disk| == |a.disk| && n !in b.inodes
    requires b.used == a.used - FileBlocks(a, n) - {n}
    requires forall s: Slot :: s.n != n ==> BlockIn(b, s) == BlockIn(a, s)
    ensures Erased(a, b, n)
  {
    hide FileBlocks;
    hide Mapped;
    FileBlocksCount(a, owner, reserved, n);
    FileInRange(a, owner, reserved, n);
    FileBlocksUsed(a, owner, reserved, n);
    hide Ownership;
    NotThere(b, n);
    hide BlockIn;
    forall m: nat | m != n ensures Mapped(b, m) == Mapped(a, m) { MappedSame(a, b, m); }
    ErasedFree(Free(a), Free(b), FileBlocks(a, n), n);
  }

  lemma ErasedFree(f: set<nat>, f': set<nat>, s: set<nat>, n: nat)
    requires f' == f + s + {n} && f !! s && n !in f && n !in s
    ensures |f'| == |f| + |s| + 1
  {
    assert |f + s| == |f| + |s|;
  }

  lemma NotThere(a: Fs, n: nat)
    requires n !in a.inodes
    ensures Mapped(a, n) == {}
  {
    MappedNone(a, n);
  }

  /** Out of space for a block that needs two, with one left: the indirect block has got it. */
  function Scrap(left: nat): set<nat> { if left == 0 then {} else {MAXBLOCKS} }

  /** I/O of block fb of file n: it has got the blocks it lacked, or there were too few. */
  ghost predicate ChunkSpace(fs: Fs, fs': Fs, n: nat, fb: nat, full: bool) {
    var need := Lacking(Mapped(fs, n), fb, fb + 1);
    if full then |Free(fs)| < |need| && Grew(fs, fs', n, Scrap(|Free(fs)|)) else Grew(fs, fs', n, need)
  }

  /** Exactly if there are too few. */
  lemma ChunkFull(fs: Fs, fs': Fs, n: nat, fb: nat, full: bool)
    requires ChunkSpace(fs, fs', n, fb, full)
    ensures full <==> |Free(fs)| < |Lacking(Mapped(fs, n), fb, fb + 1)|
  {
    hide Mapped;
    hide Free;
    hide Lacking;
  }

  /** Where nothing is lacking, nothing changes hands. */
  lemma ChunkExact(fs: Fs, fs': Fs, n: nat, fb: nat, full: bool)
    requires ChunkSpace(fs, fs, n, fb, false) && ChunkSpace(fs, fs', n, fb, full)
    ensures !full && SameSpace(fs, fs')
  {
    hide Mapped;
    hide Lacking;
    var need := Lacking(Mapped(fs, n), fb, fb + 1);
    assert need == {};
    hide Free;
    assert |Free(fs)| == |Free(fs')| + |Free(fs) - Free(fs')|;
  }

  lemma ChunkSame(fs: Fs, mid: Fs, fs': Fs, n: nat, fb: nat, full: bool)
    requires ChunkSpace(fs, mid, n, fb, full) && SameSpace(mid, fs')
    ensures ChunkSpace(fs, fs', n, fb, full)
  {
    hide Mapped;
    hide Free;
    hide Lacking;
  }

  /** The block is there. */
  lemma ChunkThere(fs: Fs, n: nat, fb: nat)
    requires BlockIn(fs, DataSlot(n, fb)) != 0 || fb >= MAXBLOCKS
    ensures ChunkSpace(fs, fs, n, fb, false)
  {
    LackingOne(Mapped(fs, n), fb);
    if NDIRECT <= fb < MAXBLOCKS { EntryThere(fs, n, fb); }
    hide BlockIn;
    assert fb < MAXBLOCKS ==> BlockIn(fs, At(n, fb)) != 0 && fb in Mapped(fs, n);
    assert NDIRECT <= fb < MAXBLOCKS ==> BlockIn(fs, At(n, MAXBLOCKS)) != 0 && MAXBLOCKS in Mapped(fs, n);
    SameSpaceRefl(fs);
    SameGrew(fs, fs, n);
    hide Lacking;
    hide Grew;
    hide Mapped;
  }

  lemma EntryThere(fs: Fs, n: nat, fb: nat)
    requires NDIRECT <= fb && BlockIn(fs, DataSlot(n, fb)) != 0
    ensures BlockIn(fs, IndirectSlot(n)) != 0
  {
  }

  lemma NotMapped(fs: Fs, n: nat, fb: nat)
    requires fb < MAXBLOCKS
    ensures fb in Mapped(fs, n) <==> BlockIn(fs, DataSlot(n, fb)) != 0
  {
    hide BlockIn;
    assert At(n, fb) == DataSlot(n, fb);
  }

  /** A direct block is missing. */
  lemma ChunkDirect(fs: Fs, fs': Fs, n: nat, fb: nat, full: bool)
    requires fb < NDIRECT && BlockIn(fs, DataSlot(n, fb)) == 0
    requires if full then fs' == fs && Free(fs) == {} else Grew(fs, fs', n, {fb})
    ensures ChunkSpace(fs, fs', n, fb, full)
  {
    hide BlockIn;
    hide Lacking;
    hide Grew;
    hide Mapped;
    LackingOne(Mapped(fs, n), fb);
    NotMapped(fs, n, fb);
    assert {fb} - Mapped(fs, n) == {fb};
    SameSpaceRefl(fs);
    SameGrew(fs, fs, n);
  }

  /** A block past the direct ones is missing, perhaps with the indirect block. */
  lemma ChunkEntry(fs: Fs, mid: Fs, fs': Fs, n: nat, fb: nat, full: bool)
    requires NDIRECT <= fb < MAXBLOCKS && BlockIn(fs, DataSlot(n, fb)) == 0
    requires Grew(fs, mid, n, {MAXBLOCKS} - Mapped(fs, n))
    requires if full then fs' == mid && Free(mid) == {} else Grew(mid, fs', n, {fb})
    ensures ChunkSpace(fs, fs', n, fb, full)
  {
    hide BlockIn;
    hide Lacking;
    hide Mapped;
    var b := Mapped(fs, n);
    LackingOne(b, fb);
    NotMapped(fs, n, fb);
    var ind := {MAXBLOCKS} - b;
    assert {fb, MAXBLOCKS} - b == ind + {fb} && |ind + {fb}| == |ind| + 1;
    hide Free;
    hide Grew;
    GrewFacts(fs, mid, n, ind);
    if full {
      assert |Free(fs)| == |ind|;
      assert Scrap(|Free(fs)|) == ind;
    } else {
      GrewTwice(fs, mid, fs', n, ind, {fb});
    }
  }

  /** The indirect block is missing, and there is no space for it. */
  lemma ChunkNoIndirect(fs: Fs, n: nat, fb: nat)
    requires NDIRECT <= fb < MAXBLOCKS && BlockIn(fs, DataSlot(n, fb)) == 0 && Free(fs) == {}
    ensures ChunkSpace(fs, fs, n, fb, true)
  {
    hide BlockIn;
    hide Lacking;
    hide Grew;
    hide Mapped;
    LackingOne(Mapped(fs, n), fb);
    NotMapped(fs, n, fb);
    assert fb in {fb, MAXBLOCKS} - Mapped(fs, n);
    SameSpaceRefl(fs);
    SameGrew(fs, fs, n);
  }

  /** I/O of the blocks lo to m, and of block m for which there were too few if full. */
  ghost predicate RangeSpace(fs: Fs, fs': Fs, n: nat, lo: nat, m: nat, full: bool) {
    var b := Mapped(fs, n);
    var need := Lacking(b, lo, m);
    && lo <= m && |need| <= |Free(fs)|
    && if full then |Free(fs)| < |Lacking(b, lo, m + 1)| && Grew(fs, fs', n, need + Scrap(|Free(fs)| - |need|))
       else Grew(fs, fs', n, need)
  }

  lemma RangeNone(fs: Fs, fs': Fs, n: nat, lo: nat)
    requires SameSpace(fs, fs')
    ensures RangeSpace(fs, fs', n, lo, lo, false)
  {
    hide Mapped;
    hide Free;
    hide Lacking;
    LackingNone(Mapped(fs, n), lo);
    SameGrew(fs, fs', n);
  }

  lemma RangeTwice(fs: Fs, mid: Fs, fs': Fs, n: nat, lo: nat, m: nat, m': nat, full: bool)
    requires RangeSpace(fs, mid, n, lo, m, false) && RangeSpace(mid, fs', n, m, m', full)
    ensures RangeSpace(fs, fs', n, lo, m', full)
  {
    hide Mapped;
    hide Free;
    hide Lacking;
    hide Grew;
    var b := Mapped(fs, n);
    var got := Lacking(b, lo, m);
    var more := Lacking(b + got, m, m');
    GrewFacts(fs, mid, n, got);
    LackingSplit(b, lo, m, m');
    LackingSplit(b, lo, m, m' + 1);
    var s := if full then more + Scrap(|Free(mid)| - |more|) else more;
    GrewTwice(fs, mid, fs', n, got, s);
    assert got + s == got + more + if full then Scrap(|Free(mid)| - |more|) else {};
  }

  /** One block. */
  lemma ChunkRange(fs: Fs, fs': Fs, n: nat, fb: nat, full: bool)
    requires ChunkSpace(fs, fs', n, fb, full)
    ensures RangeSpace(fs, fs', n, fb, if full then fb else fb + 1, full)
  {
    hide Mapped;
    hide Free;
    hide Lacking;
    LackingNone(Mapped(fs, n), fb);
  }

  /** And back. */
  lemma RangeChunk(fs: Fs, fs': Fs, n: nat, fb: nat, m: nat, full: bool)
    requires RangeSpace(fs, fs', n, fb, m, full)
    requires if full then m == fb else m == fb + 1 || (m == fb && fb >= MAXBLOCKS)
    ensures ChunkSpace(fs, fs', n, fb, full)
  {
    hide Mapped;
    hide Free;
    hide Grew;
    LackingNone(Mapped(fs, n), fb);
    LackingOne(Mapped(fs, n), fb);
    hide Lacking;
  }

  lemma RangeSame(fs: Fs, mid: Fs, fs': Fs, n: nat, lo: nat, m: nat, full: bool)
    requires RangeSpace(fs, mid, n, lo, m, full) && SameSpace(mid, fs')
    ensures RangeSpace(fs, fs', n, lo, m, full)
  {
    hide Mapped;
    hide Free;
    hide Lacking;
  }

  /** A block past the largest file takes nothing. */
  lemma RangePast(fs: Fs, fs': Fs, n: nat, lo: nat, m: nat)
    requires RangeSpace(fs, fs', n, lo, m + 1, false) && lo <= m && MAXBLOCKS <= m
    ensures RangeSpace(fs, fs', n, lo, m, false)
  {
    hide Mapped;
    hide Free;
    hide Lacking;
    hide Grew;
    LackingPast(Mapped(fs, n), lo, m, m + 1);
  }

  lemma RangeStep(fs: Fs, mid: Fs, fs': Fs, n: nat, lo: nat, m: nat, full: bool)
    requires RangeSpace(fs, mid, n, lo, m, false) && ChunkSpace(mid, fs', n, m, full)
    ensures RangeSpace(fs, fs', n, lo, if full then m else m + 1, full)
  {
    hide RangeSpace;
    hide ChunkSpace;
    ChunkRange(mid, fs', n, m, full);
    RangeTwice(fs, mid, fs', n, lo, m, if full then m else m + 1, full);
  }

  lemma GrewFacts(fs: Fs, fs': Fs, n: nat, s: set<nat>)
    requires Grew(fs, fs', n, s)
    ensures Mapped(fs', n) == Mapped(fs, n) + s && |Free(fs')| + |s| == |Free(fs)|
  {
  }

  /** When there is too little space, all of it has been taken. */
  lemma RangeFull(fs: Fs, fs': Fs, n: nat, lo: nat, m: nat)
    requires RangeSpace(fs, fs', n, lo, m, true)
    ensures Free(fs') == {}
  {
    hide Mapped;
    hide Free;
    hide Lacking;
    hide Grew;
    var b, f := Mapped(fs, n), |Free(fs)|;
    var got := Lacking(b, lo, m);
    ScrapSize(b, lo, m, f);
    GrewFacts(fs, fs', n, got + Scrap(f - |got|));
  }

  lemma ScrapSize(b: set<nat>, lo: nat, m: nat, f: nat)
    requires lo <= m && |Lacking(b, lo, m)| <= f < |Lacking(b, lo, m + 1)|
    ensures |Lacking(b, lo, m) + Scrap(f - |Lacking(b, lo, m)|)| == f
  {
    var got := Lacking(b, lo, m);
    var more := Lacking(b + got, m, m + 1);
    LackingSplit(b, lo, m, m + 1);
    LackingOne(b + got, m);
    hide Lacking;
    if f == |got| {
      assert got + {} == got;
    } else {
      TwoOf(more, m, MAXBLOCKS);
      assert MAXBLOCKS !in got;
    }
  }

  lemma TwoOf(s: set<nat>, a: nat, b: nat)
    requires s <= {a, b} && |s| > 1
    ensures a in s && b in s && |s| == 2
  {
    if a !in s { SubsetSize(s, {b}); }
    if b !in s { SubsetSize(s, {a}); }
    SubsetSize(s, {a, b});
  }
}
