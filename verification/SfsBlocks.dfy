/** Block ownership in SFS: which inode, through which pointer, owns each block of
    the disk, and how allocating, writing and freeing blocks changes that.

    `inodes` is the table of inodes as the kernel sees them: the loaded copy of an
    inode where there is one, its disk block otherwise. */
module SfsBlocks {
  import opened Arith
  import opened SfsFormat

  datatype Fs = Fs(disk: seq<Block>, used: set<nat>, inodes: map<nat, Inode>)

  /** The places a block number can be stored in: inode n itself, its indirect
      pointer, and the pointer to block fb of the file. */
  datatype Slot = InodeSlot(n: nat) | IndirectSlot(n: nat) | DataSlot(n: nat, fb: nat)

  /** Pointer j in the indirect block of an inode. */
  function IndirectEntry(disk: seq<Block>, i: Inode, j: nat): nat
    requires j < DBPERIDB
  {
    if 0 < i.indirect < |disk| then Words(disk[i.indirect])[j] else 0
  }

  /** sfs_bmap without allocation: the disk block of block fb of the file, or 0. */
  function Pointer(disk: seq<Block>, i: Inode, fb: nat): nat {
    if fb < NDIRECT then (if fb < |i.direct| then i.direct[fb] else 0)
    else if fb < MAXBLOCKS then IndirectEntry(disk, i, fb - NDIRECT)
    else 0
  }

  function BlockIn(fs: Fs, s: Slot): nat {
    if s.n !in fs.inodes then 0
    else match s
      case InodeSlot(n) => n
      case IndirectSlot(n) => fs.inodes[n].indirect
      case DataSlot(n, fb) => Pointer(fs.disk, fs.inodes[n], fb)
  }

  /** Byte p of file n; unmapped blocks read as zeros. */
  function ByteAt(fs: Fs, n: nat, p: nat): Byte {
    var b := BlockIn(fs, DataSlot(n, p / BLOCKSIZE));
    if 0 < b < |fs.disk| then fs.disk[b][p % BLOCKSIZE] else 0
  }

  /** The block in slot s, if any, is owned by s. */
  ghost predicate OwnsBlock(fs: Fs, owner: map<nat, Slot>, s: Slot) {
    BlockIn(fs, s) != 0 ==> BlockIn(fs, s) in owner && owner[BlockIn(fs, s)] == s
  }

  /** Block b is stored in the slot that owns it. */
  ghost predicate InPlace(fs: Fs, owner: map<nat, Slot>, reserved: set<nat>, b: nat)
    requires b in owner
  {
    0 < b < |fs.disk| && b !in reserved && BlockIn(fs, owner[b]) == b
  }

  /** Every block in use is reserved or owned by exactly one slot, and every slot
      owns its block. */
  ghost predicate Ownership(fs: Fs, owner: map<nat, Slot>, reserved: set<nat>) {
    && (forall s :: OwnsBlock(fs, owner, s))
    && (forall b :: b in owner ==> InPlace(fs, owner, reserved, b))
    && fs.used == owner.Keys + reserved && 0 in reserved
    && (forall n :: n in fs.inodes ==> InodeOk(fs.inodes[n]))
    && |fs.disk| < 0x1_0000_0000
  }

  /** Distinct slots hold distinct blocks, all marked in the freemap. */
  lemma OneOwner(fs: Fs, owner: map<nat, Slot>, reserved: set<nat>, s: Slot, t: Slot)
    requires Ownership(fs, owner, reserved) && BlockIn(fs, s) != 0
    ensures 0 < BlockIn(fs, s) < |fs.disk| && BlockIn(fs, s) in fs.used && BlockIn(fs, s) !in reserved
    ensures BlockIn(fs, t) == BlockIn(fs, s) ==> t == s
  {
    hide Pointer;
    assert OwnsBlock(fs, owner, s) && OwnsBlock(fs, owner, t);
    assert InPlace(fs, owner, reserved, BlockIn(fs, s));
  }

  /** What a change may not touch for slot s to keep its block. */
  lemma SlotFrame(fs: Fs, fs': Fs, s: Slot)
    requires s.n in fs.inodes <==> s.n in fs'.inodes
    requires s.n in fs.inodes ==>
      && fs'.inodes[s.n].indirect == fs.inodes[s.n].indirect
      && (s.DataSlot? && s.fb < NDIRECT ==>
        Pointer(fs'.disk, fs'.inodes[s.n], s.fb) == Pointer(fs.disk, fs.inodes[s.n], s.fb))
    requires |fs'.disk| == |fs.disk|
    requires s.n in fs.inodes && 0 < fs.inodes[s.n].indirect < |fs.disk| ==>
      Words(fs'.disk[fs.inodes[s.n].indirect]) == Words(fs.disk[fs.inodes[s.n].indirect])
    ensures BlockIn(fs', s) == BlockIn(fs, s)
  {
    hide Words;
  }

  /** No slot of the file system names a free block. */
  lemma FreeIsUnowned(fs: Fs, owner: map<nat, Slot>, reserved: set<nat>, s: Slot, b: nat)
    requires Ownership(fs, owner, reserved) && b !in fs.used
    ensures BlockIn(fs, s) != b
  {
    hide BlockIn;
    assert OwnsBlock(fs, owner, s);
  }

  // ----- Allocation (sfs_balloc and its callers)

  /** Free block b becomes the block of slot t, and nothing else changes hands. */
  ghost predicate Gains(fs: Fs, fs': Fs, t: Slot, b: nat) {
    && 0 < b < |fs.disk| == |fs'.disk| && b !in fs.used && fs'.used == fs.used + {b} && BlockIn(fs, t) == 0
    && forall s {:trigger BlockIn(fs', s)} :: BlockIn(fs', s) == if s == t then b else BlockIn(fs, s)
  }

  lemma GainKeepsOwnership(fs: Fs, fs': Fs, owner: map<nat, Slot>, reserved: set<nat>, t: Slot, b: nat)
    requires Ownership(fs, owner, reserved) && Gains(fs, fs', t, b)
    requires forall n :: n in fs'.inodes ==> InodeOk(fs'.inodes[n])
    ensures Ownership(fs', owner[b := t], reserved)
  {
    hide BlockIn;
    var owner' := owner[b := t];
    forall s ensures OwnsBlock(fs', owner', s) {
      assert OwnsBlock(fs, owner, s);
    }
    forall x | x in owner' ensures InPlace(fs', owner', reserved, x) {
      if x != b {
        assert InPlace(fs, owner, reserved, x);
        assert owner[x] != t;
      }
    }
  }

  /** Bytes of a file whose pointer and block are untouched. */
  lemma ByteFrame(fs: Fs, fs': Fs, n: nat, p: nat)
    requires |fs'.disk| == |fs.disk|
    requires var b := BlockIn(fs, DataSlot(n, p / BLOCKSIZE));
             BlockIn(fs', DataSlot(n, p / BLOCKSIZE)) == b && (0 < b < |fs.disk| ==> fs'.disk[b] == fs.disk[b])
    ensures ByteAt(fs', n, p) == ByteAt(fs, n, p)
  {
    hide BlockIn;
  }

  ghost predicate SameBytes(fs: Fs, fs': Fs) {
    forall n: nat, p: nat :: ByteAt(fs', n, p) == ByteAt(fs, n, p)
  }

  /** Allocation is invisible in every file: the new block reads as the zeros that
      were there before. Only b and blocks that hold no file data may change. */
  lemma GainKeepsBytes(fs: Fs, fs': Fs, owner: map<nat, Slot>, reserved: set<nat>, t: Slot, b: nat)
    requires Ownership(fs, owner, reserved) && Gains(fs, fs', t, b) && fs'.disk[b] == ZeroBlock()
    requires forall x :: x in owner && owner[x].DataSlot? ==> x < |fs.disk| && fs'.disk[x] == fs.disk[x]
    ensures SameBytes(fs, fs')
  {
    hide BlockIn;
    forall n: nat, p: nat ensures ByteAt(fs', n, p) == ByteAt(fs, n, p) {
      var s := DataSlot(n, p / BLOCKSIZE);
      assert OwnsBlock(fs, owner, s);
      if s != t {
        ByteFrame(fs, fs', n, p);
      }
    }
  }

  function WithDirect(i: Inode, fb: nat, b: Word): Inode
    requires fb < |i.direct|
  {
    i.(direct := i.direct[fb := b])
  }

  /** A cleared block becomes direct block fb of file n. */
  function AllocDirect(fs: Fs, n: nat, fb: nat, b: Word): Fs
    requires n in fs.inodes && fb < |fs.inodes[n].direct| && b < |fs.disk|
  {
    Fs(fs.disk[b := ZeroBlock()], fs.used + {b}, fs.inodes[n := WithDirect(fs.inodes[n], fb, b)])
  }

  lemma AllocDirectOk(fs: Fs, owner: map<nat, Slot>, reserved: set<nat>, n: nat, fb: nat, b: Word)
    requires Ownership(fs, owner, reserved) && n in fs.inodes && fb < NDIRECT && fs.inodes[n].direct[fb] == 0
    requires b < |fs.disk| && b !in fs.used
    ensures var fs' := AllocDirect(fs, n, fb, b);
            && Gains(fs, fs', DataSlot(n, fb), b) && SameBytes(fs, fs')
            && Ownership(fs', owner[b := DataSlot(n, fb)], reserved)
  {
    hide Words;
    var fs' := AllocDirect(fs, n, fb, b);
    forall s ensures BlockIn(fs', s) == if s == DataSlot(n, fb) then b else BlockIn(fs, s) {
      if s != DataSlot(n, fb) && s.n in fs.inodes {
        FreeIsUnowned(fs, owner, reserved, IndirectSlot(s.n), b);
        SlotFrame(fs, fs', s);
      }
    }
    GainKeepsOwnership(fs, fs', owner, reserved, DataSlot(n, fb), b);
    GainKeepsBytes(fs, fs', owner, reserved, DataSlot(n, fb), b);
  }

  /** A cleared block becomes the indirect block of file n. */
  function AllocIndirect(fs: Fs, n: nat, b: Word): Fs
    requires n in fs.inodes && b < |fs.disk|
  {
    Fs(fs.disk[b := ZeroBlock()], fs.used + {b}, fs.inodes[n := fs.inodes[n].(indirect := b)])
  }

  lemma AllocIndirectOk(fs: Fs, owner: map<nat, Slot>, reserved: set<nat>, n: nat, b: Word)
    requires Ownership(fs, owner, reserved) && n in fs.inodes && fs.inodes[n].indirect == 0
    requires b < |fs.disk| && b !in fs.used
    ensures var fs' := AllocIndirect(fs, n, b);
            && Gains(fs, fs', IndirectSlot(n), b) && SameBytes(fs, fs')
            && Ownership(fs', owner[b := IndirectSlot(n)], reserved)
  {
    ZeroWords();
    hide Words;
    var fs' := AllocIndirect(fs, n, b);
    forall s ensures BlockIn(fs', s) == if s == IndirectSlot(n) then b else BlockIn(fs, s) {
      if s.n != n && s.n in fs.inodes {
        FreeIsUnowned(fs, owner, reserved, IndirectSlot(s.n), b);
        SlotFrame(fs, fs', s);
      }
    }
    GainKeepsOwnership(fs, fs', owner, reserved, IndirectSlot(n), b);
    GainKeepsBytes(fs, fs', owner, reserved, IndirectSlot(n), b);
  }

  /** A cleared block becomes entry j of the indirect block of file n. */
  function AllocEntry(fs: Fs, n: nat, j: nat, b: Word): Fs
    requires n in fs.inodes && j < DBPERIDB && b < |fs.disk| && fs.inodes[n].indirect < |fs.disk|
  {
    var ind := fs.inodes[n].indirect;
    Fs(fs.disk[b := ZeroBlock()][ind := FromWords(Words(fs.disk[ind])[j := b])], fs.used + {b}, fs.inodes)
  }

  /** The slots of the file that gains the block. */
  lemma AllocEntryOwn(fs: Fs, n: nat, j: nat, b: Word, s: Slot)
    requires n in fs.inodes && j < DBPERIDB && s.n == n
    requires 0 < fs.inodes[n].indirect < |fs.disk| && b < |fs.disk| && b != fs.inodes[n].indirect
    ensures BlockIn(AllocEntry(fs, n, j, b), s) == if s == DataSlot(n, NDIRECT + j) then b else BlockIn(fs, s)
  {
    hide Words;
    hide FromWords;
    var i, fs' := fs.inodes[n], AllocEntry(fs, n, j, b);
    var ws := Words(fs.disk[i.indirect])[j := b];
    WordsRoundTrip(ws);
    assert fs'.disk[i.indirect] == FromWords(ws) && |fs'.disk| == |fs.disk|;
    if s.DataSlot? && NDIRECT <= s.fb < MAXBLOCKS {
      assert BlockIn(fs', s) == IndirectEntry(fs'.disk, i, s.fb - NDIRECT) == ws[s.fb - NDIRECT];
      assert BlockIn(fs, s) == Words(fs.disk[i.indirect])[s.fb - NDIRECT];
    }
  }

  lemma AllocEntrySlot(fs: Fs, owner: map<nat, Slot>, reserved: set<nat>, n: nat, j: nat, b: Word, s: Slot)
    requires Ownership(fs, owner, reserved) && n in fs.inodes && j < DBPERIDB
    requires 0 < fs.inodes[n].indirect < |fs.disk| && b < |fs.disk| && b !in fs.used
    ensures BlockIn(AllocEntry(fs, n, j, b), s) == if s == DataSlot(n, NDIRECT + j) then b else BlockIn(fs, s)
  {
    hide Words;
    hide FromWords;
    hide Ownership;
    var fs' := AllocEntry(fs, n, j, b);
    FreeIsUnowned(fs, owner, reserved, IndirectSlot(n), b);
    if s.n == n {
      AllocEntryOwn(fs, n, j, b, s);
    } else if s.n in fs.inodes {
      FreeIsUnowned(fs, owner, reserved, IndirectSlot(s.n), b);
      OneOwner(fs, owner, reserved, IndirectSlot(n), IndirectSlot(s.n));
      SlotFrame(fs, fs', s);
    }
  }

  lemma AllocEntryOk(fs: Fs, owner: map<nat, Slot>, reserved: set<nat>, n: nat, j: nat, b: Word)
    requires Ownership(fs, owner, reserved) && n in fs.inodes && j < DBPERIDB
    requires 0 < fs.inodes[n].indirect < |fs.disk| && IndirectEntry(fs.disk, fs.inodes[n], j) == 0
    requires b < |fs.disk| && b !in fs.used
    ensures var fs', t := AllocEntry(fs, n, j, b), DataSlot(n, NDIRECT + j);
            && Gains(fs, fs', t, b) && SameBytes(fs, fs')
            && Ownership(fs', owner[b := t], reserved)
  {
    hide Words;
    hide FromWords;
    var fs', t := AllocEntry(fs, n, j, b), DataSlot(n, NDIRECT + j);
    assert BlockIn(fs, t) == 0;
    assert BlockIn(fs, IndirectSlot(n)) == fs.inodes[n].indirect;
    hide BlockIn;
    FreeIsUnowned(fs, owner, reserved, IndirectSlot(n), b);
    forall s { AllocEntrySlot(fs, owner, reserved, n, j, b, s); }
    GainKeepsOwnership(fs, fs', owner, reserved, t, b);
    assert OwnsBlock(fs, owner, IndirectSlot(n));
    forall x | x in owner && owner[x].DataSlot? ensures x < |fs.disk| && fs'.disk[x] == fs.disk[x] {
      assert InPlace(fs, owner, reserved, x);
    }
    GainKeepsBytes(fs, fs', owner, reserved, t, b);
  }

  /** A cleared block becomes a new inode without blocks. */
  function AllocInode(fs: Fs, b: nat, i: Inode): Fs
    requires b < |fs.disk|
  {
    Fs(fs.disk[b := ZeroBlock()], fs.used + {b}, fs.inodes[b := i])
  }

  predicate NoBlocks(i: Inode) {
    i.indirect == 0 && forall fb :: 0 <= fb < |i.direct| ==> i.direct[fb] == 0
  }

  lemma AllocInodeOk(fs: Fs, owner: map<nat, Slot>, reserved: set<nat>, b: nat, i: Inode)
    requires Ownership(fs, owner, reserved) && InodeOk(i) && NoBlocks(i)
    requires b < |fs.disk| && b !in fs.used
    ensures b !in fs.inodes
    ensures var fs' := AllocInode(fs, b, i);
            && Gains(fs, fs', InodeSlot(b), b) && SameBytes(fs, fs')
            && Ownership(fs', owner[b := InodeSlot(b)], reserved)
  {
    hide Words;
    var fs' := AllocInode(fs, b, i);
    FreeIsUnowned(fs, owner, reserved, InodeSlot(b), b);
    forall s ensures BlockIn(fs', s) == if s == InodeSlot(b) then b else BlockIn(fs, s) {
      if s.n != b && s.n in fs.inodes {
        FreeIsUnowned(fs, owner, reserved, IndirectSlot(s.n), b);
        SlotFrame(fs, fs', s);
      }
    }
    GainKeepsOwnership(fs, fs', owner, reserved, InodeSlot(b), b);
    GainKeepsBytes(fs, fs', owner, reserved, InodeSlot(b), b);
  }

  // ----- Writing data

  /** New contents for the block that holds block fb of file n. */
  function WriteData(fs: Fs, n: nat, fb: nat, blk: Block): Fs
    requires BlockIn(fs, DataSlot(n, fb)) < |fs.disk|
  {
    fs.(disk := fs.disk[BlockIn(fs, DataSlot(n, fb)) := blk])
  }

  /** Writing a data block moves no block and changes only bytes of that block of that file. */
  lemma WriteDataOk(fs: Fs, owner: map<nat, Slot>, reserved: set<nat>, n: nat, fb: nat, blk: Block)
    requires Ownership(fs, owner, reserved) && BlockIn(fs, DataSlot(n, fb)) != 0
    ensures BlockIn(fs, DataSlot(n, fb)) < |fs.disk|
    ensures Ownership(WriteData(fs, n, fb, blk), owner, reserved)
    ensures forall s :: BlockIn(WriteData(fs, n, fb, blk), s) == BlockIn(fs, s)
    ensures forall m: nat, p: nat :: ByteAt(WriteData(fs, n, fb, blk), m, p)
              == if m == n && p / BLOCKSIZE == fb then blk[p % BLOCKSIZE] else ByteAt(fs, m, p)
  {
    hide Words;
    var t := DataSlot(n, fb);
    OneOwner(fs, owner, reserved, t, t);
    var b, fs' := BlockIn(fs, t), WriteData(fs, n, fb, blk);
    forall s ensures BlockIn(fs', s) == BlockIn(fs, s) {
      OneOwner(fs, owner, reserved, t, IndirectSlot(s.n));
      SlotFrame(fs, fs', s);
    }
    hide BlockIn;
    forall s ensures OwnsBlock(fs', owner, s) { assert OwnsBlock(fs, owner, s); }
    forall x | x in owner ensures InPlace(fs', owner, reserved, x) { assert InPlace(fs, owner, reserved, x); }
    forall m: nat, p: nat
      ensures ByteAt(fs', m, p) == if m == n && p / BLOCKSIZE == fb then blk[p % BLOCKSIZE] else ByteAt(fs, m, p)
    {
      OneOwner(fs, owner, reserved, t, DataSlot(m, p / BLOCKSIZE));
    }
  }

  // ----- Freeing

  /** The blocks of file n other than its inode. */
  ghost function FileBlocks(fs: Fs, n: nat): set<nat> {
    (set fb | 0 <= fb < MAXBLOCKS && BlockIn(fs, DataSlot(n, fb)) != 0 :: BlockIn(fs, DataSlot(n, fb)))
    + (if BlockIn(fs, IndirectSlot(n)) != 0 then {BlockIn(fs, IndirectSlot(n))} else {})
  }

  /** Slots of file n other than its inode. */
  predicate SlotOf(s: Slot, n: nat) { s.n == n && !s.InodeSlot? }

  /** All blocks of file n are given back. */
  ghost function FreeFile(fs: Fs, n: nat, i: Inode): Fs {
    Fs(fs.disk, fs.used - FileBlocks(fs, n), fs.inodes[n := i])
  }

  lemma FileBlocksOwned(fs: Fs, owner: map<nat, Slot>, reserved: set<nat>, n: nat, x: nat)
    requires Ownership(fs, owner, reserved)
    ensures x in FileBlocks(fs, n) <==> x in owner && SlotOf(owner[x], n)
  {
    hide Words;
    if x in FileBlocks(fs, n) {
      if BlockIn(fs, IndirectSlot(n)) == x {
        assert OwnsBlock(fs, owner, IndirectSlot(n));
      } else {
        var fb :| 0 <= fb < MAXBLOCKS && BlockIn(fs, DataSlot(n, fb)) == x;
        assert OwnsBlock(fs, owner, DataSlot(n, fb));
      }
    }
    if x in owner && SlotOf(owner[x], n) {
      assert InPlace(fs, owner, reserved, x);
      if owner[x].DataSlot? { assert BlockIn(fs, DataSlot(n, owner[x].fb)) == x; }
    }
  }

  ghost function Without(owner: map<nat, Slot>, gone: set<nat>): map<nat, Slot> {
    map x | x in owner && x !in gone :: owner[x]
  }

  lemma FreeFileOk(fs: Fs, owner: map<nat, Slot>, reserved: set<nat>, n: nat, i: Inode)
    requires Ownership(fs, owner, reserved) && n in fs.inodes && InodeOk(i) && NoBlocks(i)
    ensures Ownership(FreeFile(fs, n, i), Without(owner, FileBlocks(fs, n)), reserved)
    ensures forall s :: BlockIn(FreeFile(fs, n, i), s) == if SlotOf(s, n) then 0 else BlockIn(fs, s)
    ensures forall m: nat, p: nat :: ByteAt(FreeFile(fs, n, i), m, p) == if m == n then 0 else ByteAt(fs, m, p)
  {
    hide Words;
    var fs', owner' := FreeFile(fs, n, i), Without(owner, FileBlocks(fs, n));
    forall s ensures BlockIn(fs', s) == if SlotOf(s, n) then 0 else BlockIn(fs, s) {
      if s.n != n { SlotFrame(fs, fs', s); }
    }
    hide BlockIn;
    forall s ensures OwnsBlock(fs', owner', s) {
      assert OwnsBlock(fs, owner, s);
      FileBlocksOwned(fs, owner, reserved, n, BlockIn(fs, s));
    }
    forall x | x in owner' ensures InPlace(fs', owner', reserved, x) {
      assert InPlace(fs, owner, reserved, x);
      FileBlocksOwned(fs, owner, reserved, n, x);
    }
    assert fs'.used == owner'.Keys + reserved by {
      forall x | x in FileBlocks(fs, n) ensures x !in reserved {
        FileBlocksOwned(fs, owner, reserved, n, x);
        assert InPlace(fs, owner, reserved, x);
      }
    }
  }

  lemma FileInRange(fs: Fs, owner: map<nat, Slot>, reserved: set<nat>, n: nat)
    requires Ownership(fs, owner, reserved) && n in fs.inodes && n != 0
    ensures n < |fs.disk| && forall x :: x in FileBlocks(fs, n) ==> x < |fs.disk|
  {
    OneOwner(fs, owner, reserved, InodeSlot(n), InodeSlot(n));
    hide BlockIn;
    forall x | x in FileBlocks(fs, n) ensures x < |fs.disk| {
      FileBlocksOwned(fs, owner, reserved, n, x);
      assert InPlace(fs, owner, reserved, x);
    }
  }

  /** An inode without blocks is discarded. */
  ghost function FreeInode(fs: Fs, n: nat): Fs {
    Fs(fs.disk, fs.used - {n}, fs.inodes - {n})
  }

  lemma FreeInodeOk(fs: Fs, owner: map<nat, Slot>, reserved: set<nat>, n: nat)
    requires Ownership(fs, owner, reserved) && n in fs.inodes && NoBlocks(fs.inodes[n]) && n != 0
    ensures Ownership(FreeInode(fs, n), Without(owner, {n}), reserved)
    ensures forall s :: BlockIn(FreeInode(fs, n), s) == if s == InodeSlot(n) then 0 else BlockIn(fs, s)
    ensures SameBytes(fs, FreeInode(fs, n))
  {
    hide Words;
    var fs', owner' := FreeInode(fs, n), Without(owner, {n});
    forall s ensures BlockIn(fs', s) == if s == InodeSlot(n) then 0 else BlockIn(fs, s) {
      if s.n != n { SlotFrame(fs, fs', s); }
    }
    OneOwner(fs, owner, reserved, InodeSlot(n), InodeSlot(n));
    assert OwnsBlock(fs, owner, InodeSlot(n)) && BlockIn(fs, InodeSlot(n)) == n;
    hide BlockIn;
    forall s ensures OwnsBlock(fs', owner', s) {
      assert OwnsBlock(fs, owner, s);
    }
    forall x | x in owner' ensures InPlace(fs', owner', reserved, x) {
      assert InPlace(fs, owner, reserved, x);
    }
  }

  // ----- Fields other than pointers

  predicate SamePointers(i: Inode, j: Inode) { i.direct == j.direct && i.indirect == j.indirect }

  /** Size, type and link count are no business of block ownership. */
  lemma MetaOk(fs: Fs, owner: map<nat, Slot>, reserved: set<nat>, n: nat, i: Inode)
    requires Ownership(fs, owner, reserved) && n in fs.inodes && SamePointers(i, fs.inodes[n])
    ensures Ownership(fs.(inodes := fs.inodes[n := i]), owner, reserved)
    ensures forall s :: BlockIn(fs.(inodes := fs.inodes[n := i]), s) == BlockIn(fs, s)
    ensures SameBytes(fs, fs.(inodes := fs.inodes[n := i]))
  {
    hide Words;
    var fs' := fs.(inodes := fs.inodes[n := i]);
    forall s ensures BlockIn(fs', s) == BlockIn(fs, s) { SlotFrame(fs, fs', s); }
    hide BlockIn;
    forall s ensures OwnsBlock(fs', owner, s) { assert OwnsBlock(fs, owner, s); }
    forall x | x in owner ensures InPlace(fs', owner, reserved, x) { assert InPlace(fs, owner, reserved, x); }
  }

  /** Writing back an inode's own block changes no pointer and no byte of any file. */
  lemma WriteInodeOk(fs: Fs, owner: map<nat, Slot>, reserved: set<nat>, n: nat, blk: Block)
    requires Ownership(fs, owner, reserved) && n in fs.inodes && 0 < n < |fs.disk|
    ensures Ownership(fs.(disk := fs.disk[n := blk]), owner, reserved)
    ensures SameBytes(fs, fs.(disk := fs.disk[n := blk]))
    ensures forall s :: BlockIn(fs.(disk := fs.disk[n := blk]), s) == BlockIn(fs, s)
  {
    hide Words;
    var fs' := fs.(disk := fs.disk[n := blk]);
    assert BlockIn(fs, InodeSlot(n)) == n;
    forall s ensures BlockIn(fs', s) == BlockIn(fs, s) {
      OneOwner(fs, owner, reserved, InodeSlot(n), IndirectSlot(s.n));
      SlotFrame(fs, fs', s);
    }
    hide BlockIn;
    forall s ensures OwnsBlock(fs', owner, s) { assert OwnsBlock(fs, owner, s); }
    forall x | x in owner ensures InPlace(fs', owner, reserved, x) { assert InPlace(fs, owner, reserved, x); }
    forall m: nat, p: nat ensures ByteAt(fs', m, p) == ByteAt(fs, m, p) {
      OneOwner(fs, owner, reserved, InodeSlot(n), DataSlot(m, p / BLOCKSIZE));
    }
  }

  /** Writing the superblock or the free map changes no pointer and no byte of any file. */
  lemma WriteReservedOk(fs: Fs, owner: map<nat, Slot>, reserved: set<nat>, b: nat, blk: Block)
    requires Ownership(fs, owner, reserved) && b in reserved && b < |fs.disk|
    ensures b != 0 ==> b !in fs.inodes
    ensures Ownership(fs.(disk := fs.disk[b := blk]), owner, reserved)
    ensures SameBytes(fs, fs.(disk := fs.disk[b := blk]))
    ensures forall s :: BlockIn(fs.(disk := fs.disk[b := blk]), s) == BlockIn(fs, s)
  {
    hide Words;
    var fs' := fs.(disk := fs.disk[b := blk]);
    if b in fs.inodes && b != 0 { OneOwner(fs, owner, reserved, InodeSlot(b), InodeSlot(b)); }
    forall s ensures BlockIn(fs', s) == BlockIn(fs, s) {
      if BlockIn(fs, IndirectSlot(s.n)) != 0 { OneOwner(fs, owner, reserved, IndirectSlot(s.n), IndirectSlot(s.n)); }
      SlotFrame(fs, fs', s);
    }
    hide BlockIn;
    forall s ensures OwnsBlock(fs', owner, s) { assert OwnsBlock(fs, owner, s); }
    forall x | x in owner ensures InPlace(fs', owner, reserved, x) { assert InPlace(fs, owner, reserved, x); }
    forall m: nat, p: nat ensures ByteAt(fs', m, p) == ByteAt(fs, m, p) {
      var s := DataSlot(m, p / BLOCKSIZE);
      if BlockIn(fs, s) != 0 { OneOwner(fs, owner, reserved, s, s); }
      ByteFrame(fs, fs', m, p);
    }
  }
}
