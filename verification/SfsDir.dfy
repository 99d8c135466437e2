/** sfs_vnode.c: the directory operations, on the one directory SFS has. */
module SfsDir {
  import opened Arith
  import opened SfsFormat
  import opened SfsBlocks
  import opened SfsSpace
  import opened Sfs
  import opened SfsView
  import Uio
  import Bitmap

  /** The state between directory operations; `loaded` are the inodes in memory. */
  ghost predicate Consistent(fs: Fs, loaded: set<nat>) {
    && DirOk(fs) && Linked(Slots(fs), fs.inodes)
    && forall n :: n in fs.inodes && fs.inodes[n].linkcount == 0 ==> n in loaded
  }

  ghost function Refs(v: map<nat, Vnode>): map<nat, nat> { map n | n in v :: v[n].refcount }

  /** sfs_readdir. */
  method ReadDir(fs: Sfs, slot: nat) returns (e: Entry)
    requires fs.Valid() && ROOT_LOCATION in fs.vnodes && RootOk(fs.Abs()) && slot < SlotCount(fs.Abs())
    modifies fs, fs.freemap.v
    ensures fs.Valid() && fs.Abs() == old(fs.Abs()) && fs.live == old(fs.live) && SameRefs(old(fs.vnodes), fs.vnodes)
    ensures e == Slots(fs.Abs())[slot]
  {
    hide Sfs.Valid;
    hide Sfs.Abs;
    hide ByteAt;
    hide BlockIn;
    hide DecodeEntry;
    var ku := new Uio.Uio(seq(64, _ => 0), slot * DIRENT, false);
    ghost var u := ku.State();
    fs.InTable(ROOT_LOCATION);
    ReadLengthIs(fs.Abs().inodes[ROOT_LOCATION].size, slot * DIRENT, DIRENT);
    var err := fs.Read(ROOT_LOCATION, ku);
    if err != OK {
      assert false;  // the slot is inside the largest file
    }
    if ku.resid > 0 {
      assert false;  // panic: short entry
    }
    assert ku.mem == FileBytes(fs.Abs(), ROOT_LOCATION, slot * DIRENT, DIRENT);
    e := DecodeEntry(ku.mem);
  }

  lemma UsedFacts(fs: Sfs)
    requires fs.Valid()
    ensures fs.Abs().used == fs.Used() && |fs.Abs().disk| == fs.nblocks && (fs.Full() ==> Free(fs.Abs()) == {})
  {
  }

  lemma WrittenOthers(a: Fs, b: Fs, n: nat, off: nat, data: seq<Byte>)
    requires FileWritten(a, b, n, off, data)
    ensures OthersSame(a, b, n)
  {
    hide ByteAt;
    hide BlockIn;
  }

  /** The block of the directory that slot k is in. */
  function SlotBlock(k: nat): nat { k * DIRENT / BLOCKSIZE }

  /** The block of an existing slot exists. */
  lemma SlotThere(a: Fs, b: Fs, slot: nat, full: bool)
    requires RootOk(a) && slot < SlotCount(a) && ChunkSpace(a, b, ROOT_LOCATION, SlotBlock(slot), full)
    ensures !full && SameSpace(a, b)
  {
    var p := slot * DIRENT;
    assert 0 <= p < a.inodes[ROOT_LOCATION].size;
    ChunkThere(a, ROOT_LOCATION, SlotBlock(slot));
    hide BlockIn;
    hide Lacking;
    ChunkExact(a, b, ROOT_LOCATION, SlotBlock(slot), full);
  }

  /** How the write of a slot ends: with all of it, or with none. */
  lemma SlotResult(a: Fs, b: Fs, slot: nat, u: Uio.U, u': Uio.U, e: Errno)
    requires u.offset == slot * DIRENT && u.resid == DIRENT && slot <= MAXBYTES / DIRENT
    requires WriteDone(a, b, ROOT_LOCATION, u, u', e) && (e == OK || e == ENOSPC || e == EINVAL)
    ensures u'.resid == if e == OK then 0 else DIRENT
    ensures e == EINVAL <==> slot == MAXBYTES / DIRENT
    ensures ChunkSpace(a, b, ROOT_LOCATION, SlotBlock(slot), e == ENOSPC)
  {
    hide FileWritten;
    hide RangeSpace;
    hide ChunkSpace;
    SlotInBlock(slot);
    SlotEnds(slot);
    var fb := SlotBlock(slot);
    assert BlockEnd(u.offset, u.resid) == fb + 1;
    var m := if e == OK then fb + 1 else u'.offset / BLOCKSIZE;
    assert e != OK ==> u'.resid == DIRENT && m == fb;
    if e == ENOSPC { SlotPast(a, b, fb); }
    RangeChunk(a, b, ROOT_LOCATION, fb, m, e == ENOSPC);
  }

  lemma SlotEnds(slot: nat)
    ensures (slot * DIRENT + DIRENT + BLOCKSIZE - 1) / BLOCKSIZE == SlotBlock(slot) + 1
    ensures slot == MAXBYTES / DIRENT ==> SlotBlock(slot) == MAXBLOCKS
    ensures slot < MAXBYTES / DIRENT ==> SlotBlock(slot) < MAXBLOCKS && slot * DIRENT < MAXBYTES
  {
    assert slot == 8 * (slot / 8) + slot % 8;
  }

  /** There is no lack of space for what is past the largest file. */
  lemma SlotPast(a: Fs, b: Fs, fb: nat)
    requires RangeSpace(a, b, ROOT_LOCATION, fb, fb, true)
    ensures fb < MAXBLOCKS
  {
    hide Mapped;
    hide Free;
    hide Grew;
    if fb >= MAXBLOCKS { LackingOne(Mapped(a, ROOT_LOCATION), fb); }
  }

  /** sfs_writedir: all of the slot is written, or none of it. Existing slots can always be written. */
  method WriteDir(fs: Sfs, sd: Entry, slot: nat) returns (e: Errno)
    requires fs.Valid() && ROOT_LOCATION in fs.vnodes && RootOk(fs.Abs()) && slot <= SlotCount(fs.Abs())
      && NameOk(sd.name)
    modifies fs, fs.freemap.v
    ensures fs.Valid() && fs.live == old(fs.live) && SameRefs(old(fs.vnodes), fs.vnodes)
    ensures RootOk(fs.Abs()) && (ZeroTails(old(fs.Abs())) ==> ZeroTails(fs.Abs()))
    ensures e == OK ==>
      Slots(fs.Abs()) == Put(old(Slots(fs.Abs())), slot, sd) && Kept(old(fs.Abs()), fs.Abs(), {ROOT_LOCATION})
    ensures e != OK ==> Slots(fs.Abs()) == old(Slots(fs.Abs())) && Kept(old(fs.Abs()), fs.Abs(), {})
    ensures slot < old(SlotCount(fs.Abs())) ==> e == OK && SameSpace(old(fs.Abs()), fs.Abs())
    ensures e == EINVAL <==> slot == MAXBYTES / DIRENT
    ensures e == OK || e == EINVAL || e == ENOSPC
    ensures OthersSame(old(fs.Abs()), fs.Abs(), ROOT_LOCATION)
    ensures ChunkSpace(old(fs.Abs()), fs.Abs(), ROOT_LOCATION, SlotBlock(slot), e == ENOSPC)
  {
    hide Sfs.Valid;
    hide Sfs.Abs;
    hide Sfs.Full;
    hide ByteAt;
    hide BlockIn;
    hide EncodeEntry;
    hide FileWritten;
    hide Slots;
    hide ZeroTails;
    hide Kept;
    hide SameSpace;
    hide ChunkSpace;
    hide WriteSpace;
    hide IoResult;
    fs.InTable(ROOT_LOCATION);
    var ku := new Uio.Uio(EncodeEntry(sd), slot * DIRENT, true);
    ghost var u, a := ku.State(), fs.Abs();
    SlotInBlock(slot);
    e := fs.Write(ROOT_LOCATION, ku);
    SlotResult(a, fs.Abs(), slot, u, ku.State(), e);
    if slot < SlotCount(a) { SlotThere(a, fs.Abs(), slot, e == ENOSPC); }
    WrittenOthers(a, fs.Abs(), ROOT_LOCATION, slot * DIRENT, Uio.Next(u, u.resid - ku.resid));
    if e == OK {
      if ku.resid > 0 {
        assert false;  // panic: short write
      }
      assert Uio.Next(u, DIRENT) == EncodeEntry(sd);
      SlotWritten(a, fs.Abs(), slot, sd);
    } else {
      assert Uio.Next(u, 0) == [];
      SlotNotWritten(a, fs.Abs(), slot);
    }
    if ZeroTails(a) {
      WriteZeroTails(a, fs.Abs(), ROOT_LOCATION, slot * DIRENT, Uio.Next(u, u.resid - ku.resid));
    }
  }

  /** sfs_dir_nentries. The panic about an odd size cannot happen. */
  method NEntries(fs: Sfs) returns (n: nat)
    requires fs.Valid() && ROOT_LOCATION in fs.vnodes && RootOk(fs.Abs())
    ensures n == |Slots(fs.Abs())| <= MAXBYTES / DIRENT
  {
    hide Sfs.Valid;
    hide Sfs.Abs;
    fs.InTable(ROOT_LOCATION);
    var inode := fs.vnodes[ROOT_LOCATION].inode;
    assert inode.itype == TYPE_DIR;
    if inode.size % DIRENT != 0 {
      assert false;  // panic: invalid size
    }
    n := inode.size / DIRENT;
  }

  /** sfs_dir_findname: where the name is, and the last free slot (-1 if none). */
  method FindName(fs: Sfs, name: seq<Byte>) returns (found: bool, ino: nat, slot: nat, emptyslot: int)
    requires fs.Valid() && ROOT_LOCATION in fs.vnodes && DirOk(fs.Abs())
    modifies fs, fs.freemap.v
    ensures fs.Valid() && fs.Abs() == old(fs.Abs()) && fs.live == old(fs.live) && SameRefs(old(fs.vnodes), fs.vnodes)
    ensures var d := Slots(fs.Abs());
            && (found <==> name in Names(d))
            && (found ==> NamedAt(d, name, slot) && d[slot].ino == ino == Names(d)[name])
            && -1 <= emptyslot < |d|
            && (emptyslot < 0 ==> forall k :: 0 <= k < |d| ==> InUse(d[k]))
            && (emptyslot >= 0 ==> !InUse(d[emptyslot]) && forall k :: emptyslot < k < |d| ==> InUse(d[k]))
  {
    hide Sfs.Valid;
    hide Sfs.Abs;
    hide ByteAt;
    hide BlockIn;
    hide Slots;
    hide Names;
    hide ZeroTails;
    found, ino, slot, emptyslot := false, 0, 0, -1;
    var nentries := NEntries(fs);
    ghost var a := fs.Abs();
    ghost var d := Slots(a);
    var i := 0;
    while i < nentries
      invariant 0 <= i <= nentries == |d|
      invariant fs.Valid() && fs.Abs() == a && fs.live == old(fs.live) && SameRefs(old(fs.vnodes), fs.vnodes)
      invariant found ==> slot < i && NamedAt(d, name, slot) && d[slot].ino == ino
      invariant !found ==> forall k :: 0 <= k < i ==> !NamedAt(d, name, k)
      invariant -1 <= emptyslot < i
      invariant emptyslot < 0 ==> forall k :: 0 <= k < i ==> InUse(d[k])
      invariant emptyslot >= 0 ==> !InUse(d[emptyslot]) && forall k :: emptyslot < k < i ==> InUse(d[k])
    {
      var tsd := ReadDir(fs, i);
      if tsd.ino == NOINO {
        emptyslot := i;
      } else if tsd.name == name {
        assert !found;  // each name may appear only once
        found, slot, ino := true, i, tsd.ino;
      }
      i := i + 1;
    }
    if found {
      NamesHas(d, name, slot);
    } else if name in Names(d) {
      var k := NamesWitness(d, name);
      assert false;
    }
  }

  // ----- Link counts

  lemma LinksFresh(d: seq<Entry>, inodes: map<nat, Inode>, n: nat)
    requires Linked(d, inodes) && n !in inodes && n != NOINO
    ensures Links(d, n) == 0
  {
    assert n !in Inos(d);
  }

  /** A file appears that no slot names. */
  lemma LinkedNew(d: seq<Entry>, inodes: map<nat, Inode>, n: nat, i: Inode)
    requires Linked(d, inodes) && n !in inodes && n != NOINO && i.itype == TYPE_FILE && i.linkcount == 0
    ensures Linked(d, inodes[n := i])
  {
    LinksFresh(d, inodes, n);
  }

  /** A file that no slot names goes away. */
  lemma LinkedGone(d: seq<Entry>, inodes: map<nat, Inode>, n: nat)
    requires Linked(d, inodes) && n in inodes && n != ROOT_LOCATION && inodes[n].linkcount == 0
    ensures Linked(d, inodes - {n})
  {
    forall k | 0 <= k < |d| && InUse(d[k]) ensures d[k].ino in inodes - {n} { LinksPositive(d, k); }
  }

  ghost predicate SameMetas(inodes: map<nat, Inode>, inodes': map<nat, Inode>, x: set<nat>) {
    inodes'.Keys == inodes.Keys && forall n :: n in inodes && n !in x ==> SameMeta(inodes'[n], inodes[n])
  }

  lemma LinkedSame(d: seq<Entry>, inodes: map<nat, Inode>, inodes': map<nat, Inode>)
    requires Linked(d, inodes) && SameMetas(inodes, inodes', {ROOT_LOCATION})
    ensures Linked(d, inodes')
  {
    forall n | n in inodes' && n != ROOT_LOCATION
      ensures inodes'[n].itype == TYPE_FILE && inodes'[n].linkcount == Links(d, n)
    {
      assert n in inodes && n !in {ROOT_LOCATION};
    }
  }

  /** A free slot names n, whose count goes up. */
  lemma LinkedAdd(d: seq<Entry>, k: nat, e: Entry, inodes: map<nat, Inode>, inodes': map<nat, Inode>)
    requires Linked(d, inodes) && k <= |d| && (k < |d| ==> !InUse(d[k]))
    requires e.ino in inodes && e.ino != ROOT_LOCATION
    requires SameMetas(inodes, inodes', {ROOT_LOCATION, e.ino})
    requires inodes'[e.ino].itype == TYPE_FILE && inodes'[e.ino].linkcount == inodes[e.ino].linkcount + 1
    ensures Linked(Put(d, k, e), inodes')
  {
    hide Links;
    forall m | m in inodes' && m != ROOT_LOCATION
      ensures inodes'[m].itype == TYPE_FILE && inodes'[m].linkcount == Links(Put(d, k, e), m)
    {
      LinksPut(d, k, e, m);
      assert m != e.ino ==> SameMeta(inodes'[m], inodes[m]);
    }
  }

  /** The slot of n is cleared, and its count goes down. */
  lemma LinkedRemove(d: seq<Entry>, k: nat, e: Entry, inodes: map<nat, Inode>, inodes': map<nat, Inode>)
    requires Linked(d, inodes) && k < |d| && InUse(d[k]) && !InUse(e)
    requires SameMetas(inodes, inodes', {ROOT_LOCATION, d[k].ino})
    requires inodes'[d[k].ino].itype == TYPE_FILE && inodes'[d[k].ino].linkcount + 1 == inodes[d[k].ino].linkcount
    ensures Linked(Put(d, k, e), inodes')
  {
    hide Links;
    forall m | m in inodes' && m != ROOT_LOCATION
      ensures inodes'[m].itype == TYPE_FILE && inodes'[m].linkcount == Links(Put(d, k, e), m)
    {
      LinksPut(d, k, e, m);
      assert m != d[k].ino ==> SameMeta(inodes'[m], inodes[m]);
    }
  }

  lemma RefsSame(v: map<nat, Vnode>, v': map<nat, Vnode>)
    requires SameRefs(v, v')
    ensures Refs(v') == Refs(v) && v'.Keys == v.Keys
  {
  }

  // ----- Directory slots

  /** Every slot that fits in the largest file holds a name. */
  ghost predicate DirFull(d: seq<Entry>) { |d| == MAXBYTES / DIRENT && AllUsed(d) }

  /** When a name is refused. */
  ghost predicate Refusal(d: seq<Entry>, name: seq<Byte>, e: Errno)
    requires Unique(d)
  {
    && (e == EEXIST <==> name in Names(d))
    && (e == ENAMETOOLONG <==> name !in Names(d) && |name| + 1 > NAMELEN)
    && (e == EINVAL <==> name !in Names(d) && |name| + 1 <= NAMELEN && DirFull(d))
    && e != ENOENT && e != EBUSY
  }

  /** The blocks that the directory needs for one more name: none if a slot is free. */
  ghost function DirNeed(fs: Fs): set<nat> {
    if AllUsed(Slots(fs))
    then var k := SlotBlock(|Slots(fs)|); Lacking(Mapped(fs, ROOT_LOCATION), k, k + 1)
    else {}
  }

  /** The number of slots with one more name. */
  ghost function SlotsWith(d: seq<Entry>): nat { if AllUsed(d) then |d| + 1 else |d| }

  /** The space a new name takes. */
  ghost predicate LinkSpace(a: Fs, b: Fs, e: Errno) {
    && (e == OK ==> |DirNeed(a)| <= |Free(a)| && Grew(a, b, ROOT_LOCATION, DirNeed(a)))
    && (e == ENOSPC ==> |Free(a)| < |DirNeed(a)| && Grew(a, b, ROOT_LOCATION, Scrap(|Free(a)|)))
    && (e == EINVAL ==> DirNeed(a) == {})
    && (e != OK && e != ENOSPC ==> SameSpace(a, b))
  }

  lemma LinkedSpace(a: Fs, b: Fs, slot: nat, e: Errno)
    requires if AllUsed(Slots(a)) then slot == |Slots(a)| else slot < |Slots(a)|
    requires slot < |Slots(a)| ==> e == OK && SameSpace(a, b)
    requires ChunkSpace(a, b, ROOT_LOCATION, SlotBlock(slot), e == ENOSPC)
    requires e == EINVAL <==> slot == MAXBYTES / DIRENT
    requires e == OK || e == EINVAL || e == ENOSPC
    ensures LinkSpace(a, b, e)
  {
    hide Mapped;
    hide Free;
    hide Slots;
    SlotEnds(slot);
    if slot < |Slots(a)| {
      SameGrew(a, b, ROOT_LOCATION);
    } else if e == EINVAL {
      LackingOne(Mapped(a, ROOT_LOCATION), SlotBlock(slot));
      hide Lacking;
      GrewNothing(a, b, ROOT_LOCATION);
    }
  }

  lemma LinkSpaceSame(a: Fs, b: Fs, c: Fs, e: Errno)
    requires LinkSpace(a, b, e) && SameSpace(b, c)
    ensures LinkSpace(a, c, e)
  {
    hide DirNeed;
    hide Free;
    hide Grew;
    hide SameSpace;
    if e == OK {
      GrewSame(a, b, c, ROOT_LOCATION, DirNeed(a));
    } else if e == ENOSPC {
      GrewSame(a, b, c, ROOT_LOCATION, Scrap(|Free(a)|));
    } else {
      SameSpaceTwice(a, b, c);
    }
  }

  /** A free slot of d now holds the entry. */
  ghost predicate Filled(d: seq<Entry>, d': seq<Entry>, k: nat, e: Entry) {
    k <= |d| && (k < |d| ==> !InUse(d[k])) && d' == Put(d, k, e)
  }

  ghost predicate DirLinked(a: Fs, b: Fs, name: seq<Byte>, ino: Word, e: Errno, slot: nat) {
    && DirOk(a) && Refusal(Slots(a), name, e)
    && (e == OK ==> Filled(Slots(a), Slots(b), slot, Entry(ino, name)) && Kept(a, b, {ROOT_LOCATION}))
    && (e == OK ==> |Slots(b)| == SlotsWith(Slots(a)))
    && (e != OK ==> Slots(b) == Slots(a) && Kept(a, b, {}))
    && OthersSame(a, b, ROOT_LOCATION) && LinkSpace(a, b, e)
  }

  /** sfs_dir_link: a free slot gets the name, unless the name exists, is too long,
      or there is no room. */
  method DirLink(fs: Sfs, name: seq<Byte>, ino: Word) returns (e: Errno, slot: nat)
    requires fs.Valid() && ROOT_LOCATION in fs.vnodes && DirOk(fs.Abs()) && 0 !in name && ino != NOINO
    modifies fs, fs.freemap.v
    ensures fs.Valid() && fs.live == old(fs.live) && SameRefs(old(fs.vnodes), fs.vnodes) && DirOk(fs.Abs())
    ensures DirLinked(old(fs.Abs()), fs.Abs(), name, ino, e, slot)
  {
    hide Sfs.Valid;
    hide Sfs.Abs;
    hide Sfs.Full;
    hide ByteAt;
    hide BlockIn;
    hide Slots;
    hide Names;
    hide ZeroTails;
    hide Kept;
    hide RootOk;
    hide ChunkSpace;
    hide SameSpace;
    hide LinkSpace;
    ghost var a := fs.Abs();
    KeptSelf(a);
    SameSpaceRefl(a);
    var found, _, _, emptyslot := FindName(fs, name);
    slot := 0;
    if found {
      NoSpace(a, a, EEXIST);
      return EEXIST, slot;
    }
    if |name| + 1 > NAMELEN {
      NoSpace(a, a, ENAMETOOLONG);
      return ENAMETOOLONG, slot;
    }
    if emptyslot < 0 {
      emptyslot := NEntries(fs);
    }
    slot := emptyslot;
    e := WriteDir(fs, Entry(ino, name), slot);
    LinkedSpace(a, fs.Abs(), slot, e);
    if e == OK {
      NamesAdd(Slots(a), slot, Entry(ino, name));
    }
  }

  lemma NoSpace(a: Fs, b: Fs, e: Errno)
    requires SameSpace(a, b) && e != OK && e != ENOSPC && e != EINVAL
    ensures LinkSpace(a, b, e)
  {
    hide SameSpace;
    hide DirNeed;
  }

  lemma KeptSelf(fs: Fs)
    ensures Kept(fs, fs, {})
  {
  }

  /** sfs_dir_unlink: the slot is cleared; this cannot fail. */
  method DirUnlink(fs: Sfs, slot: nat) returns (e: Errno)
    requires fs.Valid() && ROOT_LOCATION in fs.vnodes && DirOk(fs.Abs())
    requires slot < |Slots(fs.Abs())| && InUse(Slots(fs.Abs())[slot])
    modifies fs, fs.freemap.v
    ensures e == OK
    ensures fs.Valid() && fs.live == old(fs.live) && SameRefs(old(fs.vnodes), fs.vnodes) && DirOk(fs.Abs())
    ensures Slots(fs.Abs()) == Put(old(Slots(fs.Abs())), slot, Entry(NOINO, []))
      && Kept(old(fs.Abs()), fs.Abs(), {ROOT_LOCATION})
    ensures SameSpace(old(fs.Abs()), fs.Abs())
  {
    hide SameSpace;
    hide ChunkSpace;
    hide Sfs.Valid;
    hide Sfs.Abs;
    hide Sfs.Full;
    hide ByteAt;
    hide BlockIn;
    hide Slots;
    hide Names;
    hide ZeroTails;
    hide Kept;
    hide RootOk;
    ghost var a := fs.Abs();
    e := WriteDir(fs, Entry(NOINO, []), slot);
    NamesRemove(Slots(a), slot, Entry(NOINO, []));
  }

  // ----- Consistency across the steps of an operation

  lemma KeptMetas(fs: Fs, fs': Fs, x: set<nat>)
    requires Kept(fs, fs', x) && x <= fs.inodes.Keys && x <= fs'.inodes.Keys
    ensures SameMetas(fs.inodes, fs'.inodes, x)
  {
    hide ByteAt;
    hide BlockIn;
    forall n ensures n in fs'.inodes <==> n in fs.inodes {
      assert n in fs'.inodes.Keys - x <==> n in fs.inodes.Keys - x;
    }
  }

  /** Bytes and sizes of all files but those in x are kept, and the files in x have no bytes past their ends. */
  lemma KeptZeroTails(fs: Fs, fs': Fs, x: set<nat>)
    requires ZeroTails(fs) && Kept(fs, fs', x)
    requires forall n: nat, p: nat :: n in x && n in fs'.inodes && p >= fs'.inodes[n].size ==> ByteAt(fs', n, p) == 0
    requires forall n :: n in x && n in fs'.inodes ==> fs'.inodes[n].size < 0x8000_0000
    ensures ZeroTails(fs')
  {
    hide ByteAt;
    hide BlockIn;
    forall n | n in fs'.inodes ensures fs'.inodes[n].size < 0x8000_0000 {
      if n !in x {
        assert n in fs'.inodes.Keys - x;
        assert n in fs.inodes && SameMeta(fs'.inodes[n], fs.inodes[n]);
      }
    }
    forall n: nat, p: nat | n in fs'.inodes && p >= fs'.inodes[n].size ensures ByteAt(fs', n, p) == 0 {
      if n !in x {
        assert n in fs'.inodes.Keys - x;
        assert n in fs.inodes && SameMeta(fs'.inodes[n], fs.inodes[n]);
        assert ByteAt(fs, n, p) == 0;
      }
    }
  }

  /** The count of loaded file n becomes c. */
  method SetLinkCount(fs: Sfs, n: nat, c: Half)
    requires fs.Valid() && n in fs.vnodes && n != ROOT_LOCATION && DirOk(fs.Abs())
    modifies fs`vnodes
    ensures fs.Valid() && SameRefs(old(fs.vnodes), fs.vnodes) && DirOk(fs.Abs())
    ensures Slots(fs.Abs()) == old(Slots(fs.Abs())) && n in old(fs.Abs()).inodes
    ensures fs.Abs().inodes == old(fs.Abs()).inodes[n := old(fs.Abs()).inodes[n].(linkcount := c)]
    ensures SameBytes(old(fs.Abs()), fs.Abs()) && Kept(old(fs.Abs()), fs.Abs(), {n})
    ensures SameSpace(old(fs.Abs()), fs.Abs())
  {
    hide SameSpace;
    hide Sfs.Valid;
    hide ByteAt;
    hide BlockIn;
    hide Slots;
    hide RootOk;
    ghost var a := fs.Abs();
    fs.InTable(n);
    fs.UpdateInode(n, fs.vnodes[n].inode.(linkcount := c));
    SlotsSame(a, fs.Abs());
    assert Kept(a, fs.Abs(), {n});
    DirFrame(a, fs.Abs(), {n});
    KeptZeroTails(a, fs.Abs(), {n});
  }

  // ----- References

  function Taken(r: map<nat, nat>, n: nat): map<nat, nat> { r[n := (if n in r then r[n] else 0) + 1] }

  function Dropped(r: map<nat, nat>, n: nat): map<nat, nat> {
    if n in r && r[n] > 1 then r[n := r[n] - 1] else r - {n}
  }

  lemma TakenDropped(r: map<nat, nat>, n: nat)
    requires n in r ==> r[n] > 0
    ensures Dropped(Taken(r, n), n) == r && n in Taken(r, n) && (Taken(r, n)[n] == 1 <==> n !in r)
  {
  }

  lemma RefsTaken(v: map<nat, Vnode>, n: nat, x: Vnode)
    requires x.refcount == if n in v then v[n].refcount + 1 else 1
    ensures Refs(v[n := x]) == Taken(Refs(v), n)
  {
  }

  lemma RefsDropped(v: map<nat, Vnode>, n: nat)
    requires n in v && v[n].refcount > 0
    ensures Refs(if v[n].refcount > 1 then v[n := v[n].(refcount := v[n].refcount - 1)] else v - {n})
      == Dropped(Refs(v), n)
  {
  }

  lemma Loadable(fs: Fs, n: nat, loaded: set<nat>)
    requires Consistent(fs, loaded) && n in fs.inodes
    ensures fs.inodes[n].itype == TYPE_FILE || fs.inodes[n].itype == TYPE_DIR
  {
    hide BlockIn;
    hide ByteAt;
  }

  /** More inodes in memory do no harm. */
  lemma ConsistentMore(fs: Fs, loaded: set<nat>, loaded': set<nat>)
    requires Consistent(fs, loaded) && loaded <= loaded'
    ensures Consistent(fs, loaded')
  {
    hide DirOk;
    hide Linked;
  }

  /** sfs_loadvnode of an existing inode: one more reference, and no other change. */
  method Load(fs: Sfs, n: nat)
    requires fs.Valid() && Consistent(fs.Abs(), fs.vnodes.Keys) && n in fs.Abs().inodes
    modifies fs`vnodes, fs`vtable
    ensures fs.Valid() && fs.Abs() == old(fs.Abs()) && Consistent(fs.Abs(), fs.vnodes.Keys)
    ensures n in fs.vnodes && fs.vnodes[n].inode == fs.Abs().inodes[n]
      && Refs(fs.vnodes) == Taken(old(Refs(fs.vnodes)), n)
  {
    hide Sfs.Valid;
    hide Sfs.Abs;
    hide Sfs.Inodes;
    hide Consistent;
    hide Refs;
    hide Taken;
    Loadable(fs.Abs(), n, fs.vnodes.Keys);
    fs.TableFacts();
    fs.LoadVnode(n, TYPE_INVAL);
    fs.InTable(n);
    ConsistentMore(fs.Abs(), old(fs.vnodes.Keys), fs.vnodes.Keys);
    RefsTaken(old(fs.vnodes), n, fs.vnodes[n]);
  }

  /** Nothing in memory is newer than the disk. */
  ghost predicate Clean(fs: Sfs)
    reads fs
  {
    !fs.freemapdirty && forall n :: n in fs.vnodes ==> !fs.vnodes[n].dirty
  }

  /** What dropping the last reference to an unlinked file leaves. */
  lemma ReleaseGone(a: Fs, b: Fs, loaded: set<nat>, n: nat)
    requires Consistent(a, loaded) && n in a.inodes && a.inodes[n].linkcount == 0 && b.inodes == a.inodes - {n}
    requires forall m: nat, p: nat :: m != n ==> ByteAt(b, m, p) == ByteAt(a, m, p)
    requires forall s: Slot :: s.n != n ==> BlockIn(b, s) == BlockIn(a, s)
    ensures Consistent(b, loaded - {n}) && Slots(b) == Slots(a) && Kept(a, b, {n})
  {
    hide BlockIn;
    hide ByteAt;
    hide Slots;
    assert n != ROOT_LOCATION;
    assert Kept(a, b, {n});
    DirFrame(a, b, {n});
    KeptZeroTails(a, b, {n});
    LinkedGone(Slots(a), a.inodes, n);
  }

  lemma ReleaseKept(a: Fs, b: Fs, loaded: set<nat>, loaded': set<nat>)
    requires Consistent(a, loaded) && b.inodes == a.inodes && SameBytes(a, b)
    requires forall n :: n in a.inodes && a.inodes[n].linkcount == 0 && n in loaded ==> n in loaded'
    requires forall s :: BlockIn(b, s) == BlockIn(a, s)
    ensures Consistent(b, loaded') && Slots(b) == Slots(a) && Kept(a, b, {})
  {
    hide BlockIn;
    hide ByteAt;
    hide Slots;
    assert Kept(a, b, {});
    DirFrame(a, b, {});
    KeptZeroTails(a, b, {});
  }

  /** VOP_DECREF: the last reference to a file without links erases it. */
  method Release(fs: Sfs, n: nat)
    requires fs.Valid() && Consistent(fs.Abs(), fs.vnodes.Keys) && n in fs.vnodes
    modifies fs, fs.freemap.v
    ensures fs.Valid() && Consistent(fs.Abs(), fs.vnodes.Keys)
    ensures Refs(fs.vnodes) == Dropped(old(Refs(fs.vnodes)), n) && Slots(fs.Abs()) == old(Slots(fs.Abs()))
    ensures var gone := old(fs.vnodes[n].refcount == 1 && fs.vnodes[n].inode.linkcount == 0);
            && Kept(old(fs.Abs()), fs.Abs(), if gone then {n} else {})
            && fs.Abs().inodes == (if gone then old(fs.Abs()).inodes - {n} else old(fs.Abs()).inodes)
            && (if gone then Erased(old(fs.Abs()), fs.Abs(), n) else SameSpace(old(fs.Abs()), fs.Abs()))
            && (!gone && old(Clean(fs)) ==> Clean(fs))
  {
    hide Erased;
    hide SameSpace;
    hide Sfs.Valid;
    hide Sfs.Abs;
    hide Sfs.Inodes;
    hide Sfs.Used;
    hide Consistent;
    hide BlockIn;
    hide ByteAt;
    hide FileBlocks;
    hide Slots;
    hide Kept;
    hide Refs;
    hide Dropped;
    ghost var a, v := fs.Abs(), fs.vnodes[n];
    fs.TableFacts();
    fs.OwnershipFacts();
    UsedFacts(fs);
    fs.DecRef(n);
    fs.TableFacts();
    UsedFacts(fs);
    if v.refcount == 1 && v.inode.linkcount == 0 {
      ErasedSpace(a, fs.Abs(), old(fs.owner), fs.reserved, n);
      ReleaseGone(a, fs.Abs(), old(fs.vnodes).Keys, n);
    } else {
      SlotsSame(a, fs.Abs());
      ReleaseKept(a, fs.Abs(), old(fs.vnodes).Keys, fs.vnodes.Keys);
    }
    RefsDropped(old(fs.vnodes), n);
  }

  // ----- The operations

  /** Only the directory and the link count of n changed. */
  ghost predicate OnlyLinks(a: Fs, b: Fs, n: nat, delta: int) {
    && Kept(a, b, {ROOT_LOCATION, n}) && n in a.inodes && n in b.inodes
    && b.inodes[n].size == a.inodes[n].size && b.inodes[n].itype == a.inodes[n].itype
    && b.inodes[n].linkcount == a.inodes[n].linkcount + delta
    && forall p: nat :: ByteAt(b, n, p) == ByteAt(a, n, p)
  }

  lemma OnlyLinksTwice(a: Fs, b: Fs, c: Fs, n: nat, d1: int, d2: int)
    requires OnlyLinks(a, b, n, d1) && OnlyLinks(b, c, n, d2)
    ensures OnlyLinks(a, c, n, d1 + d2)
  {
    hide ByteAt;
    hide Kept;
    KeptTwice(a, b, c, {ROOT_LOCATION, n});
    forall p: nat ensures ByteAt(c, n, p) == ByteAt(a, n, p) {
      assert ByteAt(b, n, p) == ByteAt(a, n, p);
    }
  }

  lemma KeptMore(a: Fs, b: Fs, x: set<nat>, y: set<nat>)
    requires Kept(a, b, x) && x <= y
    ensures Kept(a, b, y)
  {
    hide ByteAt;
    hide BlockIn;
    forall n ensures n in b.inodes.Keys - y <==> n in a.inodes.Keys - y {
      assert n in b.inodes.Keys - x <==> n in a.inodes.Keys - x;
    }
  }

  /** A directory write, then a change of n's link count. */
  lemma StepOnlyLinks(a: Fs, b: Fs, c: Fs, n: nat, count: Half)
    requires Kept(a, b, {ROOT_LOCATION}) && n in a.inodes && n in b.inodes && n != ROOT_LOCATION
    requires Kept(b, c, {n}) && SameBytes(b, c) && c.inodes == b.inodes[n := b.inodes[n].(linkcount := count)]
    ensures OnlyLinks(a, c, n, count as int - a.inodes[n].linkcount as int)
  {
    KeptMore(a, b, {ROOT_LOCATION}, {ROOT_LOCATION, n});
    KeptMore(b, c, {n}, {ROOT_LOCATION, n});
    KeptTwice(a, b, c, {ROOT_LOCATION, n});
    hide ByteAt;
    hide BlockIn;
    assert SameMeta(b.inodes[n], a.inodes[n]);
  }

  lemma LinkConsistent(a: Fs, b: Fs, loaded: set<nat>, k: nat, e: Entry)
    requires Consistent(a, loaded) && OnlyLinks(a, b, e.ino, 1) && e.ino != ROOT_LOCATION
    requires DirOk(b) && Filled(Slots(a), Slots(b), k, e)
    ensures Consistent(b, loaded)
  {
    hide ByteAt;
    hide BlockIn;
    hide Slots;
    hide Unique;
    hide ZeroTails;
    KeptMetas(a, b, {ROOT_LOCATION, e.ino});
    LinkedAdd(Slots(a), k, e, a.inodes, b.inodes);
    assert forall m :: m in b.inodes && b.inodes[m].linkcount == 0 ==> m != e.ino;
  }

  lemma UnlinkConsistent(a: Fs, b: Fs, loaded: set<nat>, k: nat)
    requires Consistent(a, loaded) && k < |Slots(a)| && InUse(Slots(a)[k]) && Slots(a)[k].ino in loaded
    requires OnlyLinks(a, b, Slots(a)[k].ino, -1)
    requires DirOk(b) && Slots(b) == Put(Slots(a), k, Entry(NOINO, []))
    ensures Consistent(b, loaded)
  {
    hide ByteAt;
    hide BlockIn;
    hide Slots;
    hide Unique;
    hide ZeroTails;
    var n := Slots(a)[k].ino;
    KeptMetas(a, b, {ROOT_LOCATION, n});
    LinkedRemove(Slots(a), k, Entry(NOINO, []), a.inodes, b.inodes);
  }

  /** The name is bound to file n and its link count went up by one, or nothing happened. */
  ghost predicate LinkDone(a: Fs, b: Fs, name: seq<Byte>, n: Word, e: Errno, slot: nat) {
    && DirOk(a) && DirOk(b) && Refusal(Slots(a), name, e)
    && (e == OK ==>
          && Filled(Slots(a), Slots(b), slot, Entry(n, name)) && Names(Slots(b)) == Names(Slots(a))[name := n]
          && |Slots(b)| == SlotsWith(Slots(a))
          && OnlyLinks(a, b, n, 1))
    && (e != OK ==> Slots(b) == Slots(a) && Kept(a, b, {}) && OthersSame(a, b, ROOT_LOCATION))
    && LinkSpace(a, b, e)
  }

  lemma LinkSucceeds(a: Fs, b: Fs, c: Fs, loaded: set<nat>, name: seq<Byte>, n: Word, slot: nat)
    requires Consistent(a, loaded) && n in a.inodes && n != ROOT_LOCATION && DirOk(b)
    requires DirLinked(a, b, name, n, OK, slot)
    requires Kept(b, c, {n}) && SameBytes(b, c) && DirOk(c) && Slots(c) == Slots(b)
    requires n in b.inodes && b.inodes[n].linkcount < 0xFFFF
    requires c.inodes == b.inodes[n := b.inodes[n].(linkcount := b.inodes[n].linkcount + 1)] && SameSpace(b, c)
    ensures Consistent(c, loaded) && LinkDone(a, c, name, n, OK, slot)
  {
    hide LinkSpace;
    hide SameSpace;
    LinkSpaceSame(a, b, c, OK);
    hide ByteAt;
    hide BlockIn;
    hide Slots;
    hide Names;
    hide Kept;
    hide DirOk;
    hide OnlyLinks;
    assert Unique(Slots(a)) by { DirUnique(a); }
    assert b.inodes[n].linkcount == a.inodes[n].linkcount by { KeptMeta(a, b, {ROOT_LOCATION}, n); }
    StepOnlyLinks(a, b, c, n, b.inodes[n].linkcount + 1);
    LinkConsistent(a, c, loaded, slot, Entry(n, name));
    NamesAdd(Slots(a), slot, Entry(n, name));
  }

  lemma DirUnique(a: Fs)
    requires DirOk(a)
    ensures Unique(Slots(a))
  {
  }

  lemma KeptMeta(a: Fs, b: Fs, x: set<nat>, n: nat)
    requires Kept(a, b, x) && n in a.inodes && n !in x
    ensures n in b.inodes && SameMeta(b.inodes[n], a.inodes[n])
  {
  }

  /** sfs_link: the name is bound to file n, and its link count goes up by one.
      The count cannot overflow. */
  method Link(fs: Sfs, name: seq<Byte>, n: Word) returns (e: Errno, slot: nat)
    requires fs.Valid() && ROOT_LOCATION in fs.vnodes && Consistent(fs.Abs(), fs.vnodes.Keys)
    requires n in fs.vnodes && n != ROOT_LOCATION && 0 !in name
    modifies fs, fs.freemap.v
    ensures fs.Valid() && Consistent(fs.Abs(), fs.vnodes.Keys) && Refs(fs.vnodes) == old(Refs(fs.vnodes))
    ensures LinkDone(old(fs.Abs()), fs.Abs(), name, n, e, slot)
  {
    hide Sfs.Valid;
    hide Sfs.Abs;
    hide Sfs.Inodes;
    hide Sfs.Full;
    hide Slots;
    hide Names;
    hide Kept;
    hide DirOk;
    hide Linked;
    hide DirLinked;
    hide LinkDone;
    hide SameSpace;
    ghost var a := fs.Abs();
    fs.TableFacts();
    e, slot := DirLink(fs, name, n);
    ghost var b := fs.Abs();
    fs.TableFacts();
    if e == OK {
      LinkFits(a, b, name, n, slot, fs.vnodes.Keys);
      SetLinkCount(fs, n, fs.vnodes[n].inode.linkcount + 1);
      LinkSucceeds(a, b, fs.Abs(), fs.vnodes.Keys, name, n, slot);
    } else {
      LinkFails(a, b, fs.vnodes.Keys, name, n, e, slot);
    }
    RefsSame(old(fs.vnodes), fs.vnodes);
  }

  lemma LinkFails(a: Fs, b: Fs, loaded: set<nat>, name: seq<Byte>, n: Word, e: Errno, slot: nat)
    requires Consistent(a, loaded) && DirLinked(a, b, name, n, e, slot) && e != OK && DirOk(b)
    ensures Consistent(b, loaded) && LinkDone(a, b, name, n, e, slot)
  {
    hide ByteAt;
    hide BlockIn;
    hide Slots;
    hide Names;
    hide Kept;
    ConsistentKept(a, b, loaded);
  }

  /** After a failed directory write. */
  lemma ConsistentKept(a: Fs, b: Fs, loaded: set<nat>)
    requires Consistent(a, loaded) && Kept(a, b, {}) && DirOk(b) && Slots(b) == Slots(a)
    ensures Consistent(b, loaded)
  {
    hide ByteAt;
    hide BlockIn;
    hide Slots;
    KeptMetas(a, b, {});
    LinkedSame(Slots(a), a.inodes, b.inodes);
  }

  /** The slot just filled leaves room in the link count of the file it names. */
  lemma LinkFits(a: Fs, b: Fs, name: seq<Byte>, n: Word, slot: nat, loaded: set<nat>)
    requires Consistent(a, loaded) && DirLinked(a, b, name, n, OK, slot) && n in a.inodes && n != ROOT_LOCATION
    ensures n in b.inodes && b.inodes[n].linkcount < 0xFFFF
  {
    hide ByteAt;
    hide BlockIn;
    hide Names;
    LinksBounded(Slots(a), n);
    KeptMeta(a, b, {ROOT_LOCATION}, n);
  }

  /** The slot is cleared and the link count of the file it named went down by one. */
  ghost predicate UnlinkDone(a: Fs, b: Fs, slot: nat) {
    && DirOk(a) && DirOk(b) && slot < |Slots(a)| && InUse(Slots(a)[slot])
    && Slots(b) == Put(Slots(a), slot, Entry(NOINO, []))
    && Names(Slots(b)) == Names(Slots(a)) - {Slots(a)[slot].name}
    && OnlyLinks(a, b, Slots(a)[slot].ino, -1) && SameSpace(a, b)
  }

  lemma UnlinkSucceeds(a: Fs, b: Fs, c: Fs, loaded: set<nat>, slot: nat)
    requires Consistent(a, loaded) && slot < |Slots(a)| && InUse(Slots(a)[slot]) && Slots(a)[slot].ino in loaded
    requires DirOk(b) && Slots(b) == Put(Slots(a), slot, Entry(NOINO, [])) && Kept(a, b, {ROOT_LOCATION})
    requires var n := Slots(a)[slot].ino;
             && Kept(b, c, {n}) && SameBytes(b, c) && DirOk(c) && Slots(c) == Slots(b)
             && n in b.inodes && b.inodes[n].linkcount > 0
             && c.inodes == b.inodes[n := b.inodes[n].(linkcount := b.inodes[n].linkcount - 1)]
    requires SameSpace(a, b) && SameSpace(b, c)
    ensures Consistent(c, loaded) && UnlinkDone(a, c, slot)
  {
    hide SameSpace;
    SameSpaceTwice(a, b, c);
    hide ByteAt;
    hide BlockIn;
    hide Slots;
    hide Names;
    hide Kept;
    hide DirOk;
    hide OnlyLinks;
    var n := Slots(a)[slot].ino;
    assert n in a.inodes && n != ROOT_LOCATION;
    DirUnique(a);
    KeptMeta(a, b, {ROOT_LOCATION}, n);
    StepOnlyLinks(a, b, c, n, b.inodes[n].linkcount - 1);
    UnlinkConsistent(a, c, loaded, slot);
    NamesRemove(Slots(a), slot, Entry(NOINO, []));
  }

  /** A file named by a slot has links. */
  lemma NamedIsLinked(a: Fs, loaded: set<nat>, slot: nat)
    requires Consistent(a, loaded) && slot < |Slots(a)| && InUse(Slots(a)[slot])
    ensures var n := Slots(a)[slot].ino;
      n in a.inodes && n != ROOT_LOCATION && a.inodes[n].itype == TYPE_FILE && a.inodes[n].linkcount > 0
  {
    hide ByteAt;
    hide BlockIn;
    hide Slots;
    LinksPositive(Slots(a), slot);
  }

  /** Clear a slot and count the link down, as sfs_remove and sfs_rename do. The assertion
      that the count is positive holds. */
  method Unlink(fs: Sfs, slot: nat, n: nat) returns (e: Errno)
    requires fs.Valid() && ROOT_LOCATION in fs.vnodes && Consistent(fs.Abs(), fs.vnodes.Keys) && n in fs.vnodes
    requires slot < |Slots(fs.Abs())| && InUse(Slots(fs.Abs())[slot]) && Slots(fs.Abs())[slot].ino == n
    modifies fs, fs.freemap.v
    ensures e == OK
    ensures fs.Valid() && Consistent(fs.Abs(), fs.vnodes.Keys) && Refs(fs.vnodes) == old(Refs(fs.vnodes))
    ensures UnlinkDone(old(fs.Abs()), fs.Abs(), slot)
  {
    hide Sfs.Valid;
    hide Sfs.Abs;
    hide Sfs.Inodes;
    hide Slots;
    hide Kept;
    hide DirOk;
    hide Linked;
    hide UnlinkDone;
    ghost var a := fs.Abs();
    fs.TableFacts();
    NamedIsLinked(a, fs.vnodes.Keys, slot);
    e := DirUnlink(fs, slot);
    ghost var b := fs.Abs();
    fs.TableFacts();
    KeptMeta(a, b, {ROOT_LOCATION}, n);
    assert fs.vnodes[n].inode.linkcount > 0;
    SetLinkCount(fs, n, fs.vnodes[n].inode.linkcount - 1);
    UnlinkSucceeds(a, b, fs.Abs(), fs.vnodes.Keys, slot);
    RefsSame(old(fs.vnodes), fs.vnodes);
  }

  /** sfs_lookonce: a reference to the file with that name. The panic about a zero
      link count cannot happen. */
  method LookOnce(fs: Sfs, name: seq<Byte>) returns (e: Errno, ino: nat, slot: nat)
    requires fs.Valid() && ROOT_LOCATION in fs.vnodes && Consistent(fs.Abs(), fs.vnodes.Keys)
    modifies fs, fs.freemap.v
    ensures fs.Valid() && Consistent(fs.Abs(), fs.vnodes.Keys) && fs.Abs() == old(fs.Abs())
    ensures var d := Slots(fs.Abs());
            && e == (if name in Names(d) then OK else ENOENT)
            && (e == OK ==> && NamedAt(d, name, slot) && ino == d[slot].ino == Names(d)[name] && ino in fs.vnodes
                            && ino in fs.Abs().inodes && ino != ROOT_LOCATION && fs.Abs().inodes[ino].itype == TYPE_FILE
                            && Refs(fs.vnodes) == Taken(old(Refs(fs.vnodes)), ino))
            && (e != OK ==> Refs(fs.vnodes) == old(Refs(fs.vnodes)))
    ensures ROOT_LOCATION in fs.vnodes
  {
    hide Sfs.Valid;
    hide Sfs.Abs;
    hide Slots;
    hide Names;
    hide Linked;
    hide RootOk;
    hide ZeroTails;
    hide Refs;
    var found, i, s, _ := FindName(fs, name);
    RefsSame(old(fs.vnodes), fs.vnodes);
    if !found {
      return ENOENT, 0, 0;
    }
    NamedIsLinked(fs.Abs(), fs.vnodes.Keys, s);
    ghost var keys := fs.vnodes.Keys;
    Load(fs, i);
    if fs.vnodes[i].inode.linkcount == 0 {
      assert false;  // panic: link count of a file found in the directory is 0
    }
    RefsAt(fs.vnodes);
    RefsAt(old(fs.vnodes));
    return OK, i, s;
  }

  /** What sfs_remove does: the name goes away, and with it the file if this was its
      last link and nobody has it loaded. */
  ghost predicate RemoveDone(a: Fs, b: Fs, loaded: set<nat>, name: seq<Byte>, e: Errno) {
    && DirOk(a) && DirOk(b)
    && e == (if name in Names(Slots(a)) then OK else ENOENT)
    && (e == ENOENT ==> b == a)
    && (e == OK ==>
          var n := Names(Slots(a))[name];
          && Names(Slots(b)) == Names(Slots(a)) - {name} && |Slots(b)| == |Slots(a)| && n in a.inodes
          && if n !in loaded && a.inodes[n].linkcount == 1
             then n !in b.inodes && Kept(a, b, {ROOT_LOCATION, n}) && Erased(a, b, n)
             else OnlyLinks(a, b, n, -1) && SameSpace(a, b))
  }

  lemma RemoveSteps(a: Fs, b: Fs, c: Fs, loaded: set<nat>, keys: set<nat>, name: seq<Byte>, slot: nat)
    requires DirOk(a) && NamedAt(Slots(a), name, slot) && UnlinkDone(a, b, slot) && Consistent(c, keys)
      && Slots(c) == Slots(b)
    requires var n := Slots(a)[slot].ino;
             var gone := n !in loaded && b.inodes[n].linkcount == 0;
             && Kept(b, c, if gone then {n} else {}) && c.inodes == (if gone then b.inodes - {n} else b.inodes)
             && if gone then Erased(b, c, n) else SameSpace(b, c)
    ensures RemoveDone(a, c, loaded, name, OK)
  {
    hide Erased;
    hide SameSpace;
    hide ByteAt;
    hide BlockIn;
    hide Slots;
    hide Names;
    hide Kept;
    hide RootOk;
    hide ZeroTails;
    hide AllUsed;
    hide Linked;
    hide OnlyLinks;
    var n := Slots(a)[slot].ino;
    SpaceAfter(a, b, c, n);
    NamesHas(Slots(a), name, slot);
    OnlyCount(a, b, n, -1);
    var gone := n !in loaded && b.inodes[n].linkcount == 0;
    if gone {
      KeptMore(b, c, {n}, {ROOT_LOCATION, n});
      OnlyKept(a, b, n, -1);
      KeptTwice(a, b, c, {ROOT_LOCATION, n});
    } else {
      OnlyLinksKept(a, b, c, n, -1);
    }
  }

  lemma OnlyKept(a: Fs, b: Fs, n: nat, delta: int)
    requires OnlyLinks(a, b, n, delta)
    ensures Kept(a, b, {ROOT_LOCATION, n})
  {
  }

  lemma OnlyCount(a: Fs, b: Fs, n: nat, delta: int)
    requires OnlyLinks(a, b, n, delta)
    ensures n in a.inodes && n in b.inodes && b.inodes[n].linkcount == a.inodes[n].linkcount + delta
  {
  }

  lemma SpaceAfter(a: Fs, b: Fs, c: Fs, n: nat)
    requires SameSpace(a, b)
    ensures Erased(b, c, n) ==> Erased(a, c, n)
    ensures SameSpace(b, c) ==> SameSpace(a, c)
  {
    hide Mapped;
    hide Free;
  }

  lemma KeptByte(a: Fs, b: Fs, x: set<nat>, n: nat, p: nat)
    requires Kept(a, b, x) && n !in x
    ensures ByteAt(b, n, p) == ByteAt(a, n, p)
  {
  }

  /** sfs_remove. */
  method Remove(fs: Sfs, name: seq<Byte>) returns (e: Errno)
    requires fs.Valid() && ROOT_LOCATION in fs.vnodes && Consistent(fs.Abs(), fs.vnodes.Keys)
    modifies fs, fs.freemap.v
    ensures fs.Valid() && Consistent(fs.Abs(), fs.vnodes.Keys) && Refs(fs.vnodes) == old(Refs(fs.vnodes))
    ensures RemoveDone(old(fs.Abs()), fs.Abs(), old(fs.vnodes).Keys, name, e)
  {
    hide Erased;
    hide SameSpace;
    hide Sfs.Valid;
    hide Sfs.Abs;
    hide Sfs.Inodes;
    hide Slots;
    hide Names;
    hide Kept;
    hide DirOk;
    hide Linked;
    hide Refs;
    hide Taken;
    hide Dropped;
    hide OnlyLinks;
    ghost var a, r := fs.Abs(), Refs(fs.vnodes);
    fs.TableFacts();
    RefsAt(fs.vnodes);
    var err, victim, slot := LookOnce(fs, name);
    e := err;
    if e != OK {
      return;
    }
    DirUnique(a);
    TakenDropped(r, victim);
    e := Unlink(fs, slot, victim);
    RefsAt(fs.vnodes);
    ghost var b := fs.Abs();
    fs.TableFacts();
    Release(fs, victim);
    RemoveSteps(a, b, fs.Abs(), old(fs.vnodes).Keys, fs.vnodes.Keys, name, slot);
  }

  lemma RefsAt(v: map<nat, Vnode>)
    ensures Refs(v).Keys == v.Keys
    ensures forall n :: n in v ==> n in Refs(v) && Refs(v)[n] == v[n].refcount
  {
  }

  /** What sfs_rename does: the file moves to the new name, or nothing happens. */
  ghost predicate RenameDone(a: Fs, b: Fs, n1: seq<Byte>, n2: seq<Byte>, e: Errno) {
    && DirOk(a) && DirOk(b)
    && (e == ENOENT <==> n1 !in Names(Slots(a)))
    && (n1 in Names(Slots(a)) ==> Refusal(Slots(a), n2, e))
    && (e == OK ==>
          && Names(Slots(b)) == (Names(Slots(a)) - {n1})[n2 := Names(Slots(a))[n1]]
          && |Slots(b)| == SlotsWith(Slots(a))
          && OnlyLinks(a, b, Names(Slots(a))[n1], 0))
    && (e != OK ==> Slots(b) == Slots(a) && Kept(a, b, {}))
    && (if e == ENOENT then SameSpace(a, b) else LinkSpace(a, b, e))
  }

  lemma RenameSteps(a: Fs, b: Fs, c: Fs, d: Fs, keys: set<nat>, n1: seq<Byte>, n2: seq<Byte>, slot1: nat, slot2: nat)
    requires DirOk(a) && NamedAt(Slots(a), n1, slot1) && LinkDone(a, b, n2, Slots(a)[slot1].ino, OK, slot2)
    requires UnlinkDone(b, c, slot1) && Consistent(d, keys) && Slots(d) == Slots(c) && Kept(c, d, {})
      && d.inodes == c.inodes && SameSpace(c, d)
    ensures RenameDone(a, d, n1, n2, OK)
  {
    hide LinkSpace;
    hide SameSpace;
    hide ByteAt;
    hide BlockIn;
    hide Slots;
    hide Names;
    hide Kept;
    hide RootOk;
    hide ZeroTails;
    hide Linked;
    hide SlotsWith;
    hide OnlyLinks;
    hide DirFull;
    hide Unique;
    var n := Slots(a)[slot1].ino;
    LinkSpaceSame(a, b, c, OK);
    LinkSpaceSame(a, c, d, OK);
    NamesHas(Slots(a), n1, slot1);
    assert Slots(b)[slot1] == Slots(a)[slot1];
    OnlyLinksTwice(a, b, c, n, 1, -1);
    OnlyLinksKept(a, c, d, n, 0);
    assert n1 != n2;
    assert Names(Slots(a))[n2 := n] - {n1} == (Names(Slots(a)) - {n1})[n2 := n];
  }

  lemma OnlyLinksKept(a: Fs, b: Fs, c: Fs, n: nat, delta: int)
    requires OnlyLinks(a, b, n, delta) && Kept(b, c, {}) && c.inodes == b.inodes
    ensures OnlyLinks(a, c, n, delta)
  {
    hide Kept;
    hide ByteAt;
    KeptMore(b, c, {}, {ROOT_LOCATION, n});
    KeptTwice(a, b, c, {ROOT_LOCATION, n});
    forall p: nat ensures ByteAt(c, n, p) == ByteAt(a, n, p) { KeptByte(b, c, {}, n, p); }
  }

  lemma RenameRefused(a: Fs, b: Fs, c: Fs, keys: set<nat>, n1: seq<Byte>, n2: seq<Byte>, slot1: nat, slot2: nat,
                      e: Errno)
    requires NamedAt(Slots(a), n1, slot1) && LinkDone(a, b, n2, Slots(a)[slot1].ino, e, slot2) && e != OK
    requires Consistent(c, keys) && Slots(c) == Slots(b) && Kept(b, c, {}) && SameSpace(b, c)
    ensures RenameDone(a, c, n1, n2, e)
  {
    hide LinkSpace;
    hide SameSpace;
    LinkSpaceSame(a, b, c, e);
    hide ByteAt;
    hide BlockIn;
    hide Slots;
    hide Names;
    hide Kept;
    hide RootOk;
    hide ZeroTails;
    hide Linked;
    NamesHas(Slots(a), n1, slot1);
    KeptTwice(a, b, c, {});
  }

  /** sfs_rename. Clearing the old slot cannot fail, so the recovery path is never taken. */
  method Rename(fs: Sfs, n1: seq<Byte>, n2: seq<Byte>) returns (e: Errno)
    requires fs.Valid() && ROOT_LOCATION in fs.vnodes && Consistent(fs.Abs(), fs.vnodes.Keys) && 0 !in n2
    modifies fs, fs.freemap.v
    ensures fs.Valid() && Consistent(fs.Abs(), fs.vnodes.Keys) && Refs(fs.vnodes) == old(Refs(fs.vnodes))
    ensures RenameDone(old(fs.Abs()), fs.Abs(), n1, n2, e)
  {
    hide LinkSpace;
    hide SameSpace;
    hide Erased;
    hide Sfs.Valid;
    hide Sfs.Abs;
    hide Sfs.Inodes;
    hide Slots;
    hide Names;
    hide Kept;
    hide DirOk;
    hide Linked;
    hide Refs;
    hide Taken;
    hide Dropped;
    hide OnlyLinks;
    hide Refusal;
    ghost var a, r := fs.Abs(), Refs(fs.vnodes);
    fs.TableFacts();
    RefsAt(fs.vnodes);
    KeptSelf(a);
    SameSpaceRefl(a);
    var err, g1, slot1 := LookOnce(fs, n1);
    e := err;
    if e != OK {
      return;
    }
    DirUnique(a);
    TakenDropped(r, g1);
    RefsAt(fs.vnodes);
    fs.InTable(g1);
    assert fs.vnodes[g1].inode.itype == TYPE_FILE;
    var slot2;
    e, slot2 := Link(fs, n2, g1);
    ghost var b := fs.Abs();
    RefsAt(fs.vnodes);
    if e != OK {
      LinkedStill(a, b, slot1, n2, e, slot2, fs.vnodes.Keys);
      fs.InTable(g1);
      Release(fs, g1);
      RenameRefused(a, b, fs.Abs(), fs.vnodes.Keys, n1, n2, slot1, slot2, e);
      return;
    }
    var e2 := Unlink(fs, slot1, g1);
    if e2 != OK {
      assert false;  // puke_harder
    }
    ghost var c := fs.Abs();
    RefsAt(fs.vnodes);
    LinkedAfter(a, b, c, slot1, slot2, n2, fs.vnodes.Keys);
    fs.InTable(g1);
    Release(fs, g1);
    RenameSteps(a, b, c, fs.Abs(), fs.vnodes.Keys, n1, n2, slot1, slot2);
  }

  /** A file with a slot has links, also after an attempt to link it failed. */
  lemma LinkedStill(a: Fs, b: Fs, slot1: nat, n2: seq<Byte>, e: Errno, slot2: nat, keys: set<nat>)
    requires slot1 < |Slots(a)| && InUse(Slots(a)[slot1]) && LinkDone(a, b, n2, Slots(a)[slot1].ino, e, slot2)
      && e != OK
    requires Consistent(b, keys)
    ensures Slots(a)[slot1].ino in b.inodes && b.inodes[Slots(a)[slot1].ino].linkcount > 0
  {
    hide ByteAt;
    hide BlockIn;
    hide Slots;
    hide Names;
    NamedIsLinked(b, keys, slot1);
  }

  lemma LinkedAfter(a: Fs, b: Fs, c: Fs, slot1: nat, slot2: nat, n2: seq<Byte>, keys: set<nat>)
    requires slot1 < |Slots(a)| && InUse(Slots(a)[slot1]) && LinkDone(a, b, n2, Slots(a)[slot1].ino, OK, slot2)
    requires UnlinkDone(b, c, slot1) && Consistent(c, keys)
    ensures Slots(a)[slot1].ino in c.inodes && c.inodes[Slots(a)[slot1].ino].linkcount > 0
  {
    hide ByteAt;
    hide BlockIn;
    hide Slots;
    hide Names;
    assert Slots(c)[slot2] == Entry(Slots(a)[slot1].ino, n2);
    NamedIsLinked(c, keys, slot2);
  }

  /** The space a new file takes: a block for its inode, and what its name needs. A failure
      gives the first of them back. */
  ghost predicate NewSpace(a: Fs, b: Fs, e: Errno, ino: nat) {
    var need, f := DirNeed(a), |Free(a)|;
    && (f == 0 ==> e == ENOSPC && SameSpace(a, b))
    && (e == OK ==>
          && f > 0 && |need| <= f - 1 && ino in Free(a) && Free(b) <= Free(a) - {ino} && |Free(b)| + |need| + 1 == f
          && Mapped(b, ROOT_LOCATION) == Mapped(a, ROOT_LOCATION) + need
          && forall m: nat :: m != ROOT_LOCATION ==> Mapped(b, m) == Mapped(a, m))
    && (e == ENOSPC && f > 0 ==> f - 1 < |need| && Grew(a, b, ROOT_LOCATION, Scrap(f - 1)))
    && (e == EINVAL ==> need == {})
    && (e != OK && e != ENOSPC ==> SameSpace(a, b))
  }

  /** What sfs_creat does. */
  ghost predicate CreatDone(a: Fs, b: Fs, name: seq<Byte>, excl: bool, e: Errno, ino: nat) {
    && DirOk(a) && DirOk(b) && e != ENOENT && e != EBUSY
    && (e == EEXIST <==> name in Names(Slots(a)) && excl)
    && (e == ENAMETOOLONG <==> name !in Names(Slots(a)) && Free(a) != {} && |name| + 1 > NAMELEN)
    && (e == EINVAL <==>
          name !in Names(Slots(a)) && Free(a) != {} && |name| + 1 <= NAMELEN && DirFull(Slots(a)))
    && (name in Names(Slots(a)) && !excl ==> e == OK && ino == Names(Slots(a))[name] && b == a)
    && (name in Names(Slots(a)) && excl ==> SameSpace(a, b))
    && (name !in Names(Slots(a)) ==> NewSpace(a, b, e, ino))
    && (name !in Names(Slots(a)) && e == OK ==>
          && ino !in a.inodes && |Slots(b)| == SlotsWith(Slots(a))
          && Names(Slots(b)) == Names(Slots(a))[name := ino]
          && Kept(a, b, {ROOT_LOCATION, ino}) && ino in b.inodes
          && b.inodes[ino].itype == TYPE_FILE && b.inodes[ino].linkcount == 1 && b.inodes[ino].size == 0)
    && (e != OK ==> Slots(b) == Slots(a) && Kept(a, b, {}))
  }

  lemma CreatedFile(a: Fs, b: Fs, loaded: set<nat>, n: nat, i: Inode)
    requires Consistent(a, loaded) && n !in a.inodes && n != NOINO && i.itype == TYPE_FILE && i.linkcount == 0
      && i.size == 0
    requires b.inodes == a.inodes[n := i] && SameBytes(a, b)
    requires forall s: Slot :: s.n != n ==> BlockIn(b, s) == BlockIn(a, s)
    ensures Consistent(b, loaded + {n}) && Slots(b) == Slots(a) && Kept(a, b, {n})
  {
    assert forall p: nat :: ByteAt(a, n, p) == 0;
    hide BlockIn;
    hide ByteAt;
    hide Slots;
    assert n != ROOT_LOCATION;
    assert Kept(a, b, {n});
    DirFrame(a, b, {n});
    KeptZeroTails(a, b, {n});
    LinkedNew(Slots(a), a.inodes, n, i);
  }

  /** sfs_makeobj of a file: a new inode without links, loaded once. */
  method NewFile(fs: Sfs) returns (r: Bitmap.Result<Word>)
    requires fs.Valid() && Consistent(fs.Abs(), fs.vnodes.Keys)
    modifies fs, fs.freemap.v
    ensures fs.Valid() && Consistent(fs.Abs(), fs.vnodes.Keys)
    ensures r.Enospc? ==> fs.Abs() == old(fs.Abs()) && Refs(fs.vnodes) == old(Refs(fs.vnodes)) && Free(fs.Abs()) == {}
    ensures r.Ok? ==>
      && Born(old(fs.Abs()), fs.Abs(), r.value) && Mapped(old(fs.Abs()), r.value) == {}
      && r.value !in old(fs.Abs()).inodes && r.value != ROOT_LOCATION && r.value !in old(fs.vnodes)
      && fs.Abs().inodes == old(fs.Abs()).inodes[r.value := EmptyInode().(itype := TYPE_FILE)]
      && Slots(fs.Abs()) == old(Slots(fs.Abs())) && Kept(old(fs.Abs()), fs.Abs(), {r.value})
      && Refs(fs.vnodes) == Taken(old(Refs(fs.vnodes)), r.value)
  {
    hide Sfs.Valid;
    hide Sfs.Abs;
    hide Sfs.Inodes;
    hide Sfs.Used;
    hide Sfs.Full;
    hide Slots;
    hide Kept;
    hide Consistent;
    hide SameBytes;
    hide BlockIn;
    hide Refs;
    hide Taken;
    hide Free;
    hide Born;
    hide Mapped;
    ghost var a := fs.Abs();
    fs.TableFacts();
    UsedFacts(fs);
    var q := fs.MakeObj(TYPE_FILE);
    fs.TableFacts();
    UsedFacts(fs);
    if q.Enospc? {
      return Bitmap.Enospc;
    }
    fs.InodeBlock(q.value);
    BornSpace(a, fs.Abs(), q.value);
    CreatedFile(a, fs.Abs(), old(fs.vnodes).Keys, q.value, EmptyInode().(itype := TYPE_FILE));
    RootThere(a, old(fs.vnodes).Keys);
    assert fs.vnodes.Keys == old(fs.vnodes).Keys + {q.value};
    RefsTaken(old(fs.vnodes), q.value, fs.vnodes[q.value]);
    r := Bitmap.Ok(q.value);
  }

  lemma RootThere(a: Fs, loaded: set<nat>)
    requires Consistent(a, loaded)
    ensures ROOT_LOCATION in a.inodes
  {
  }

  /** A file that came and went. */
  lemma KeptUndo(a: Fs, b: Fs, n: nat)
    requires Kept(a, b, {n}) && n !in a.inodes && n !in b.inodes
    ensures Kept(a, b, {})
  {
    assert forall p: nat :: ByteAt(a, n, p) == 0 && ByteAt(b, n, p) == 0;
    assert forall s: Slot :: s.n == n ==> BlockIn(a, s) == 0;
    hide ByteAt;
    hide BlockIn;
    forall m ensures m in b.inodes <==> m in a.inodes {
      assert m in b.inodes.Keys - {n} <==> m in a.inodes.Keys - {n};
    }
  }

  lemma BornFree(a: Fs, b: Fs, n: nat)
    requires Born(a, b, n)
    ensures Free(a) != {}
  {
  }

  lemma CreatedSpace(a: Fs, b: Fs, c: Fs, n: nat)
    requires Born(a, b, n) && Slots(b) == Slots(a) && LinkSpace(b, c, OK)
    ensures NewSpace(a, c, OK, n)
  {
    hide Mapped;
    hide Free;
    hide Slots;
    hide AllUsed;
    hide Lacking;
    assert DirNeed(b) == DirNeed(a);
    hide DirNeed;
  }

  lemma UndoneSpace(a: Fs, b: Fs, c: Fs, d: Fs, e: Errno, n: nat)
    requires Born(a, b, n) && Slots(b) == Slots(a) && LinkSpace(b, c, e) && e != OK
    requires Erased(c, d, n) && n != ROOT_LOCATION && Mapped(a, n) == {}
    ensures NewSpace(a, d, e, n)
  {
    hide Mapped;
    hide Free;
    hide Slots;
    hide AllUsed;
    hide Lacking;
    assert DirNeed(b) == DirNeed(a);
    hide DirNeed;
    if e == ENOSPC {
      UndoneGrowth(a, b, c, d, n, Scrap(|Free(b)|));
    } else {
      SameGrew(b, c, ROOT_LOCATION);
      UndoneGrowth(a, b, c, d, n, {});
      GrewNothing(a, d, ROOT_LOCATION);
    }
  }

  /** A file came and went, and the directory grew in between. */
  lemma UndoneGrowth(a: Fs, b: Fs, c: Fs, d: Fs, n: nat, s: set<nat>)
    requires Born(a, b, n) && Grew(b, c, ROOT_LOCATION, s) && Erased(c, d, n)
    requires n != ROOT_LOCATION && Mapped(a, n) == {}
    ensures Grew(a, d, ROOT_LOCATION, s) && |Free(a)| == |Free(b)| + 1
  {
    hide Mapped;
    hide Free;
    assert Mapped(c, n) == {};
    SubsetSize(Free(c) + {n}, Free(d));
    assert n !in Free(c);
    SameSize(Free(c) + {n}, Free(d));
  }

  lemma SameSize(a: set<nat>, b: set<nat>)
    requires a <= b && |a| == |b|
    ensures a == b
  {
    assert b == a + (b - a);
  }

  /** No room for the name: the new file is gone again. */
  lemma CreatFails(a: Fs, b: Fs, c: Fs, d: Fs, keys: set<nat>, name: seq<Byte>, excl: bool, e: Errno, n: Word,
                   slot: nat)
    requires DirOk(a) && name !in Names(Slots(a)) && n !in a.inodes && Kept(a, b, {n}) && Slots(b) == Slots(a)
    requires LinkDone(b, c, name, n, e, slot) && e != OK
    requires Consistent(d, keys) && Kept(c, d, {n}) && Slots(d) == Slots(c) && n !in d.inodes
    requires Born(a, b, n) && Mapped(a, n) == {} && Erased(c, d, n) && n != ROOT_LOCATION
    ensures CreatDone(a, d, name, excl, e, n)
  {
    hide NewSpace;
    hide LinkSpace;
    hide Erased;
    hide Born;
    UndoneSpace(a, b, c, d, e, n);
    hide ByteAt;
    hide BlockIn;
    hide Slots;
    hide Names;
    hide Kept;
    hide RootOk;
    hide ZeroTails;
    hide Linked;
    hide DirFull;
    hide Filled;
    hide SlotsWith;
    hide OnlyLinks;
    hide Free;
    hide Mapped;
    hide SameSpace;
    BornFree(a, b, n);
    DirUnique(a);
    KeptMore(b, c, {}, {n});
    KeptTwice(a, b, c, {n});
    KeptTwice(a, c, d, {n});
    KeptUndo(a, d, n);
  }

  lemma CreatSucceeds(a: Fs, b: Fs, c: Fs, name: seq<Byte>, excl: bool, n: Word, slot: nat)
    requires DirOk(a) && name !in Names(Slots(a)) && n !in a.inodes && Kept(a, b, {n}) && Slots(b) == Slots(a)
    requires b.inodes == a.inodes[n := EmptyInode().(itype := TYPE_FILE)] && LinkDone(b, c, name, n, OK, slot)
    requires Born(a, b, n) && n != ROOT_LOCATION
    ensures CreatDone(a, c, name, excl, OK, n)
  {
    hide NewSpace;
    hide LinkSpace;
    hide Born;
    CreatedSpace(a, b, c, n);
    hide ByteAt;
    hide BlockIn;
    hide Slots;
    hide Names;
    hide Kept;
    hide RootOk;
    hide ZeroTails;
    KeptMore(a, b, {n}, {ROOT_LOCATION, n});
    KeptTwice(a, b, c, {ROOT_LOCATION, n});
  }

  /** sfs_creat. A new inode that cannot be linked is freed again. */
  method Creat(fs: Sfs, name: seq<Byte>, excl: bool) returns (e: Errno, ino: nat)
    requires fs.Valid() && ROOT_LOCATION in fs.vnodes && Consistent(fs.Abs(), fs.vnodes.Keys) && 0 !in name
    modifies fs, fs.freemap.v
    ensures fs.Valid() && Consistent(fs.Abs(), fs.vnodes.Keys)
    ensures CreatDone(old(fs.Abs()), fs.Abs(), name, excl, e, ino)
    ensures Refs(fs.vnodes) == if e == OK then Taken(old(Refs(fs.vnodes)), ino) else old(Refs(fs.vnodes))
  {
    hide NewSpace;
    hide LinkSpace;
    hide SameSpace;
    hide Born;
    hide Erased;
    hide Mapped;
    hide Free;
    hide Sfs.Valid;
    hide Sfs.Abs;
    hide Sfs.Inodes;
    hide Sfs.Full;
    hide Slots;
    hide Names;
    hide Kept;
    hide Linked;
    hide RootOk;
    hide ZeroTails;
    hide Refs;
    hide Taken;
    hide Dropped;
    hide OnlyLinks;
    ghost var a, r := fs.Abs(), Refs(fs.vnodes);
    RefsAt(fs.vnodes);
    KeptSelf(a);
    SameSpaceRefl(a);
    var found, i, s, _ := FindName(fs, name);
    RefsSame(old(fs.vnodes), fs.vnodes);
    if found && excl {
      return EEXIST, 0;
    }
    if found {
      NamedIsLinked(a, fs.vnodes.Keys, s);
      Load(fs, i);
      return OK, i;
    }
    e, ino := CreatNew(fs, name, excl);
  }

  /** sfs_creat of a name that does not exist. */
  method CreatNew(fs: Sfs, name: seq<Byte>, ghost excl: bool) returns (e: Errno, ino: nat)
    requires fs.Valid() && ROOT_LOCATION in fs.vnodes && Consistent(fs.Abs(), fs.vnodes.Keys) && 0 !in name
    requires name !in Names(Slots(fs.Abs()))
    modifies fs, fs.freemap.v
    ensures fs.Valid() && Consistent(fs.Abs(), fs.vnodes.Keys)
    ensures CreatDone(old(fs.Abs()), fs.Abs(), name, excl, e, ino)
    ensures Refs(fs.vnodes) == if e == OK then Taken(old(Refs(fs.vnodes)), ino) else old(Refs(fs.vnodes))
  {
    hide NewSpace;
    hide LinkSpace;
    hide SameSpace;
    hide Born;
    hide Erased;
    hide Mapped;
    hide Free;
    hide Sfs.Valid;
    hide Sfs.Abs;
    hide Sfs.Inodes;
    hide Sfs.Full;
    hide Slots;
    hide Names;
    hide Kept;
    hide DirOk;
    hide Linked;
    hide Refs;
    hide Taken;
    hide Dropped;
    hide OnlyLinks;
    ghost var a, r := fs.Abs(), Refs(fs.vnodes);
    RefsAt(fs.vnodes);
    KeptSelf(a);
    DirUnique(a);
    SameSpaceRefl(a);
    var q := NewFile(fs);
    if q.Enospc? {
      NoneForInode(a);
      return ENOSPC, 0;
    }
    ghost var b := fs.Abs();
    ino := q.value;
    RefsAt(fs.vnodes);
    TakenHas(r, ino);
    var slot;
    e, slot := Link(fs, name, ino);
    ghost var c := fs.Abs();
    RefsAt(fs.vnodes);
    if e != OK {
      TakenDropped(r, ino);
      fs.InTable(ino);
      KeptMeta(b, c, {}, ino);
      Release(fs, ino);
      CreatFails(a, b, c, fs.Abs(), fs.vnodes.Keys, name, excl, e, ino, slot);
      return;
    }
    CreatSucceeds(a, b, c, name, excl, ino, slot);
  }

  lemma NoneForInode(a: Fs)
    requires Free(a) == {}
    ensures NewSpace(a, a, ENOSPC, 0)
  {
    hide DirNeed;
    SameSpaceRefl(a);
    hide SameSpace;
  }

  lemma TakenHas(r: map<nat, nat>, n: nat)
    ensures n in Taken(r, n) && r.Keys <= Taken(r, n).Keys
  {
  }
}
