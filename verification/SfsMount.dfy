/** mksfs.c and sfs_fs.c: making, mounting, syncing and remounting a file system. */
module SfsMount {
  import opened Arith
  import opened SfsFormat
  import opened SfsBlocks
  import opened SfsSpace
  import opened Sfs
  import opened SfsView
  import opened SfsDir
  import opened SfsRun
  import Bitmap

  const MAXBITBLOCKS: nat := 32

  // ----- mksfs

  /** How mksfs ends: normally, with one of its own error exits, or at an assertion. */
  datatype Made = Done | IllegalName | WrongBlockSize | NameTooLong | TooLarge | AssertionFailed

  const COLON: Byte := 58
  const SLASH: Byte := 47

  /** A volume name may end in a colon and has no slash. */
  predicate LegalName(volname: seq<Byte>) {
    forall i :: 0 <= i < |volname| ==> volname[i] != SLASH && (volname[i] == COLON ==> i == |volname| - 1)
  }

  /** The name without that colon. */
  function Stripped(volname: seq<Byte>): seq<Byte> {
    if |volname| > 0 && volname[|volname| - 1] == COLON then volname[..|volname| - 1] else volname
  }

  /** strchr: the first place of a character, or the length. */
  method StrChr(s: seq<Byte>, ch: Byte) returns (i: nat)
    ensures i <= |s| && (forall j :: 0 <= j < i ==> s[j] != ch) && (i < |s| ==> s[i] == ch)
  {
    i := 0;
    while i < |s|
      invariant 0 <= i <= |s| && forall j :: 0 <= j < i ==> s[j] != ch
    {
      if s[i] == ch {
        return;
      }
      i := i + 1;
    }
  }

  /** The checks main makes of the name. */
  method CheckName(volname: seq<Byte>) returns (ok: bool, name: seq<Byte>)
    ensures ok <==> LegalName(volname)
    ensures ok ==> name == Stripped(volname)
  {
    name := volname;
    var i := StrChr(name, COLON);
    if i < |name| {
      if |name| - i != 1 {
        return false, name;
      }
      name := name[..i];
    }
    var j := StrChr(name, SLASH);
    ok := j == |name|;
  }

  /** doallocbit; false if its assertion fails. */
  method DoAllocBit(bitbuf: array<bv8>, bit: nat) returns (ok: bool)
    requires bit < 8 * bitbuf.Length
    modifies bitbuf
    ensures ok <==> bit !in old(Bitmap.Marked(bitbuf[..]))
    ensures Bitmap.Marked(bitbuf[..]) == old(Bitmap.Marked(bitbuf[..])) + {bit}
  {
    ghost var s := bitbuf[..];
    hide Bitmap.BitOf;
    assert Bitmap.IsSet(s, bit) <==> bit in Bitmap.Marked(s);
    if Bitmap.BitOf(bitbuf[bit / 8], bit % 8) {
      return false;
    }
    bitbuf[bit / 8] := bitbuf[bit / 8] | Bitmap.Mask(bit % 8);
    assert bitbuf[..] == s[bit / 8 := s[bit / 8] | Bitmap.Mask(bit % 8)];
    Bitmap.MarkStep(s, bit);
    ok := true;
  }

  predicate Between(b: nat, lo: nat, hi: nat) { lo <= b < hi }

  ghost function Range(lo: nat, hi: nat): set<nat> { set b | 0 <= b < hi && Between(b, lo, hi) }

  /** Mark a run of bits; false as soon as one is marked already. */
  method DoAllocRange(bitbuf: array<bv8>, lo: nat, hi: nat) returns (ok: bool)
    requires lo <= hi <= 8 * bitbuf.Length
    modifies bitbuf
    ensures ok <==> Range(lo, hi) !! old(Bitmap.Marked(bitbuf[..]))
    ensures ok ==> Bitmap.Marked(bitbuf[..]) == old(Bitmap.Marked(bitbuf[..])) + Range(lo, hi)
  {
    hide Bitmap.Marked;
    ghost var m := Bitmap.Marked(bitbuf[..]);
    var i := lo;
    while i < hi
      invariant lo <= i <= hi && Range(lo, i) !! m
      invariant Bitmap.Marked(bitbuf[..]) == m + Range(lo, i)
    {
      assert Range(lo, i + 1) == Range(lo, i) + {i};
      assert Between(i, lo, hi);
      ok := DoAllocBit(bitbuf, i);
      if !ok {
        return;
      }
      i := i + 1;
    }
    ok := true;
  }

  /** The bits writebitmap marks: superblock, root, map, and everything past the end. */
  ghost function InitialBits(fsblocks: nat): set<nat> {
    {SB_LOCATION, ROOT_LOCATION} + Range(MAP_LOCATION, MAP_LOCATION + BitBlocks(fsblocks)) + Range(fsblocks,
      BitmapSize(fsblocks))
  }

  /** writebitmap, up to writing the blocks. Its assertion holds exactly if the disk
      has room for the superblock, the root and the map. */
  method MarkBitmap(fsblocks: nat, bitbuf: array<bv8>) returns (r: Made)
    requires bitbuf.Length == MAXBITBLOCKS * BLOCKSIZE && Bitmap.Marked(bitbuf[..]) == {}
    modifies bitbuf
    ensures r == TooLarge <==> BitBlocks(fsblocks) > MAXBITBLOCKS
    ensures r == AssertionFailed <==>
      BitBlocks(fsblocks) <= MAXBITBLOCKS && 0 < fsblocks < MAP_LOCATION + BitBlocks(fsblocks)
    ensures r == Done ==> Bitmap.Marked(bitbuf[..]) == InitialBits(fsblocks)
    ensures r == Done || r == TooLarge || r == AssertionFailed
  {
    hide Bitmap.Marked;
    var nbits, nblocks := BitmapSize(fsblocks), BitBlocks(fsblocks);
    if nblocks > MAXBITBLOCKS {
      return TooLarge;
    }
    var ok := DoAllocBit(bitbuf, SB_LOCATION);
    var ok2 := DoAllocBit(bitbuf, ROOT_LOCATION);
    var ok3 := DoAllocRange(bitbuf, MAP_LOCATION, MAP_LOCATION + nblocks);
    assert ok && ok2 && ok3;
    var ok4 := DoAllocRange(bitbuf, fsblocks, nbits);
    Overlap(fsblocks);
    r := if ok4 then Done else AssertionFailed;
  }

  /** When the map and the bits past the end overlap. */
  lemma Overlap(fsblocks: nat)
    ensures Range(fsblocks, BitmapSize(fsblocks)) !! {SB_LOCATION, ROOT_LOCATION} + Range(MAP_LOCATION,
      MAP_LOCATION + BitBlocks(fsblocks))
            <==> fsblocks == 0 || fsblocks >= MAP_LOCATION + BitBlocks(fsblocks)
  {
    var k := BitBlocks(fsblocks);
    if 0 < fsblocks < MAP_LOCATION + k {
      assert k == 1;
      assert Between(fsblocks, fsblocks, BitmapSize(fsblocks));
      assert fsblocks == 1 || fsblocks == 2;
      assert Between(2, MAP_LOCATION, MAP_LOCATION + k);
      assert fsblocks in Range(fsblocks, BitmapSize(fsblocks));
    }
  }

  /** writesuper. */
  function SuperBlock(nblocks: Word, volname: seq<Byte>): Block
    requires |volname| < VOLNAME_SIZE
  {
    PutWord(SFS_MAGIC) + PutWord(nblocks) + volname + seq(504 - |volname|, _ => 0)
  }

  /** The C string at offset 8 of the superblock. */
  predicate VolumeNamed(b: Block, name: seq<Byte>) {
    |name| < VOLNAME_SIZE && b[8..8 + |name|] == name && b[8 + |name|] == 0
  }

  lemma SuperReads(nblocks: Word, volname: seq<Byte>)
    requires |volname| < VOLNAME_SIZE
    ensures SuperOk(SuperBlock(nblocks, volname), nblocks) && VolumeNamed(SuperBlock(nblocks, volname), volname)
  {
    var b := SuperBlock(nblocks, volname);
    WordRoundTrip(SFS_MAGIC);
    WordRoundTrip(nblocks);
    assert b[..4] == PutWord(SFS_MAGIC) && b[4..8] == PutWord(nblocks);
    assert GetWord(b, 0) == GetWord(b[..4], 0) && GetWord(b, 4) == GetWord(b[4..8], 0);
  }

  /** writerootdir: an empty directory with one link. */
  function RootInode(): Inode { EmptyInode().(itype := TYPE_DIR, linkcount := 1) }

  /** The disk after mksfs. */
  ghost predicate Formatted(d: seq<Block>, bits: seq<bv8>) {
    && MAP_LOCATION + BitBlocks(|d|) <= |d| < 0x1_0000_0000 && SuperOk(d[SB_LOCATION], |d|)
    && DecodeInode(d[ROOT_LOCATION]) == RootInode()
    && |bits| == BLOCKSIZE * BitBlocks(|d|) && MapBytes(d) == bits && Bitmap.Marked(bits) == InitialBits(|d|)
  }

  ghost function RootOwner(): map<nat, Slot> { map[ROOT_LOCATION := InodeSlot(ROOT_LOCATION)] }

  /** What mksfs writes is what mount relies on: an empty file system. */
  lemma FormattedImage(d: seq<Block>, bits: seq<bv8>)
    requires Formatted(d, bits)
    ensures ImageOk(d, {ROOT_LOCATION}, RootOwner())
    ensures Consistent(ImageFs(d, {ROOT_LOCATION}), {}) && Slots(ImageFs(d, {ROOT_LOCATION})) == []
    ensures Free(ImageFs(d, {ROOT_LOCATION})) == Range(MAP_LOCATION + BitBlocks(|d|), |d|)
  {
    hide Bitmap.Marked;
    hide MapBytes;
    hide DecodeInode;
    var fs := ImageFs(d, {ROOT_LOCATION});
    forall b ensures b in fs.used <==> b == ROOT_LOCATION || b in Reserved(|d|) {
      assert b in Range(MAP_LOCATION, MAP_LOCATION + BitBlocks(|d|)) <==> InMap(b, |d|) by {
        assert Between(b, MAP_LOCATION, MAP_LOCATION + BitBlocks(|d|)) <==> InMap(b, |d|);
      }
    }
    forall b: nat ensures b in Free(fs) <==> b in Range(MAP_LOCATION + BitBlocks(|d|), |d|) {
      assert Between(b, MAP_LOCATION + BitBlocks(|d|), |d|) <==> MAP_LOCATION + BitBlocks(|d|) <= b < |d|;
      assert InMap(b, |d|) <==> MAP_LOCATION <= b < MAP_LOCATION + BitBlocks(|d|);
    }
  }

  lemma MarkedPrefix(v: seq<bv8>, n: nat)
    requires n <= |v| && forall b :: b in Bitmap.Marked(v) ==> b < 8 * n
    ensures Bitmap.Marked(v[..n]) == Bitmap.Marked(v)
  {
    hide Bitmap.BitOf;
    forall b: nat ensures b in Bitmap.Marked(v[..n]) <==> b in Bitmap.Marked(v) {
      assert b < 8 * n ==> v[..n][b / 8] == v[b / 8];
    }
  }

  lemma InitialBitsBelow(n: nat)
    requires MAP_LOCATION + BitBlocks(n) <= n
    ensures forall b :: b in InitialBits(n) ==> b < BitmapSize(n)
  {
  }

  /** The map blocks, once written, read back as the bits. */
  lemma MapWritten(d: seq<Block>, v: seq<bv8>)
    requires MAP_LOCATION + BitBlocks(|d|) <= |d| && BLOCKSIZE * BitBlocks(|d|) <= |v|
    requires forall j :: 0 <= j < BitBlocks(|d|) ==> MapBlock(v, j) == d[MAP_LOCATION + j]
    ensures MapBytes(d) == v[..BLOCKSIZE * BitBlocks(|d|)]
  {
    forall i | 0 <= i < BLOCKSIZE * BitBlocks(|d|) ensures MapBytes(d)[i] == v[i] {
      assert MapBlock(v, i / BLOCKSIZE)[i % BLOCKSIZE] == v[i] as int;
      BitsByte(v[i]);
    }
  }

  /** What mksfs asks of the name and the device before it writes. */
  predicate LegalFor(blocksize: nat, volname: seq<Byte>) {
    LegalName(volname) && |Stripped(volname)| < VOLNAME_SIZE && blocksize == BLOCKSIZE
  }

  /** When mksfs succeeds. */
  predicate Formattable(nblocks: nat, blocksize: nat, volname: seq<Byte>) {
    && LegalFor(blocksize, volname)
    && BitBlocks(nblocks) <= MAXBITBLOCKS && MAP_LOCATION + BitBlocks(nblocks) <= nblocks
  }

  /** mksfs on a disk with contents d, in the order it writes. */
  method Mksfs(d: seq<Block>, blocksize: nat, volname: seq<Byte>) returns (r: Made, d': seq<Block>)
    requires MAP_LOCATION <= |d| < 0x1_0000_0000
    ensures |d'| == |d|
    ensures r == IllegalName <==> !LegalName(volname)
    ensures r == WrongBlockSize <==> LegalName(volname) && blocksize != BLOCKSIZE
    ensures r == NameTooLong <==> LegalName(volname) && blocksize == BLOCKSIZE && |Stripped(volname)| >= VOLNAME_SIZE
    ensures r == TooLarge <==> LegalFor(blocksize, volname) && BitBlocks(|d|) > MAXBITBLOCKS
    ensures r == AssertionFailed <==>
      LegalFor(blocksize, volname) && BitBlocks(|d|) <= MAXBITBLOCKS && |d| < MAP_LOCATION + BitBlocks(|d|)
    ensures r == Done <==> Formattable(|d|, blocksize, volname)
    ensures r == Done ==> Free(ImageFs(d', {ROOT_LOCATION})) == Range(MAP_LOCATION + BitBlocks(|d|), |d|)
    ensures r == Done ==> ImageOk(d', {ROOT_LOCATION}, RootOwner()) && Consistent(ImageFs(d', {ROOT_LOCATION}), {})
    ensures r == Done ==> Slots(ImageFs(d', {ROOT_LOCATION})) == []
    ensures r == Done ==> VolumeNamed(d'[SB_LOCATION], Stripped(volname))
    ensures r == Done ==> var root := DecodeInode(d'[ROOT_LOCATION]);
                          root.itype == TYPE_DIR && root.size == 0 && root.linkcount == 1 && NoBlocks(root)
    ensures forall b :: MAP_LOCATION + BitBlocks(|d|) <= b < |d| ==> d'[b] == d[b]
  {
    hide VolumeNamed;
    hide ImageOk;
    hide ImageFs;
    hide Consistent;
    hide Bitmap.Marked;
    hide DecodeInode;
    hide EncodeInode;
    hide MapBytes;
    hide LegalName;
    hide Stripped;
    hide Free;
    d' := d;
    var legal, name := CheckName(volname);
    if !legal {
      return IllegalName, d';
    }
    if blocksize != BLOCKSIZE {
      return WrongBlockSize, d';
    }
    if |name| >= VOLNAME_SIZE {
      return NameTooLong, d';
    }
    var super, root := SuperBlock(|d|, name), EncodeInode(RootInode());
    SuperReads(|d|, name);
    InodeRoundTrip(RootInode());
    hide SuperBlock;
    hide SuperOk;
    d' := d'[SB_LOCATION := super][ROOT_LOCATION := root];
    var bitbuf := new bv8[MAXBITBLOCKS * BLOCKSIZE](_ => 0);
    NothingMarked(bitbuf[..]);
    r := MarkBitmap(|d|, bitbuf);
    if r != Done {
      return;
    }
    var i := 0;
    while i < BitBlocks(|d|)
      invariant 0 <= i <= BitBlocks(|d|) && |d'| == |d| && d'[SB_LOCATION] == super && d'[ROOT_LOCATION] == root
      invariant forall j :: 0 <= j < i ==> MapBlock(bitbuf[..], j) == d'[MAP_LOCATION + j]
      invariant forall b :: MAP_LOCATION + BitBlocks(|d|) <= b < |d| ==> d'[b] == d[b]
    {
      d' := d'[MAP_LOCATION + i := MapBlock(bitbuf[..], i)];
      i := i + 1;
    }
    InitialBitsBelow(|d|);
    MarkedPrefix(bitbuf[..], BLOCKSIZE * BitBlocks(|d|));
    MapWritten(d', bitbuf[..]);
    FormattedImage(d', bitbuf[..BLOCKSIZE * BitBlocks(|d|)]);
  }

  lemma NothingMarked(v: seq<bv8>)
    requires forall i :: 0 <= i < |v| ==> v[i] == 0
    ensures Bitmap.Marked(v) == {}
  {
    hide Bitmap.BitOf;
    forall b: nat | b < 8 * |v| ensures !Bitmap.IsSet(v, b) { Bitmap.NoBits(b % 8); }
  }

  // ----- Mounting

  /** sfs_domount: EINVAL for a disk that mksfs has not made. */
  method DoMount(d: seq<Block>, ghost live: set<nat>, ghost owner: map<nat, Slot>) returns (e: Errno, fs: Sfs?)
    requires |d| > 0 && (GetWord(d[SB_LOCATION], 0) == SFS_MAGIC ==> ImageOk(d, live, owner))
    ensures e == (if GetWord(d[SB_LOCATION], 0) == SFS_MAGIC then OK else EINVAL)
    ensures e == OK ==> fs != null && fresh(fs) && fresh(fs.freemap) && fresh(fs.freemap.v)
    ensures e == OK ==> fs.Valid() && fs.disk == d && fs.vnodes == map[] && fs.Abs() == ImageFs(d, live)
  {
    hide ImageOk;
    hide ImageFs;
    hide Sfs.Valid;
    hide Sfs.Abs;
    if GetWord(d[SB_LOCATION], 0) != SFS_MAGIC {
      return EINVAL, null;
    }
    fs := new Sfs.Mount(d, live, owner);
    e := OK;
  }

  /** A new file system is empty. */
  method MakeAndMount(d: seq<Block>, blocksize: nat, volname: seq<Byte>) returns (r: Made, fs: Sfs?)
    requires MAP_LOCATION <= |d| < 0x1_0000_0000
    ensures r == Done <==> Formattable(|d|, blocksize, volname)
    ensures r == Done ==> fs != null && fresh(fs) && fresh(fs.freemap) && fresh(fs.freemap.v)
    ensures r == Done ==>
      && Ready(fs)
      && Seen(fs)
         == View(map[], map[], map[], Range(MAP_LOCATION + BitBlocks(|d|), |d|), map[ROOT_LOCATION := {}], 0)
  {
    hide Formattable;
    hide Range;
    hide Free;
    hide Sfs.Valid;
    hide Sfs.Abs;
    hide DirOk;
    hide Linked;
    hide Slots;
    hide ImageOk;
    hide ViewOf;
    hide DecodeInode;
    var d';
    r, d' := Mksfs(d, blocksize, volname);
    fs := null;
    if r == Done {
      ImageSuper(d', {ROOT_LOCATION}, RootOwner());
      var e;
      e, fs := DoMount(d', {ROOT_LOCATION}, RootOwner());
      assert fs.vnodes.Keys == {} && Held(fs.vnodes) == map[];
      assert fs.Abs().inodes[ROOT_LOCATION] == InodeAt(d', ROOT_LOCATION);
      EmptyView(fs.Abs());
    }
  }

  lemma ImageSuper(d: seq<Block>, live: set<nat>, owner: map<nat, Slot>)
    requires ImageOk(d, live, owner)
    ensures |d| > 0 && GetWord(d[SB_LOCATION], 0) == SFS_MAGIC
  {
    hide Ownership;
  }

  lemma EmptyView(a: Fs)
    requires DirOk(a) && Slots(a) == [] && a.inodes.Keys == {ROOT_LOCATION} && NoBlocks(a.inodes[ROOT_LOCATION])
    ensures ViewOf(a, map[]) == View(map[], map[], map[], Free(a), map[ROOT_LOCATION := {}], 0)
  {
    EmptyMapped(a, ROOT_LOCATION);
    hide Mapped;
    hide Free;
    hide ByteAt;
    hide BlockIn;
    hide Slots;
    hide DirOk;
    DirUnique(a);
  }

  /** vfs_unmount (sfs_sync and sfs_unmount) and a new mount: names and contents survive
      on the disk alone. EBUSY, with the file system as it was, if a vnode is loaded. */
  method Remount(fs: Sfs) returns (e: Errno, fs': Sfs?)
    requires Ready(fs)
    modifies fs, fs.freemap.v
    ensures e == if old(fs.vnodes) != map[] then EBUSY else OK
    ensures e == EBUSY ==> Ready(fs) && Seen(fs) == old(Seen(fs))
    ensures e == OK ==> fs' != null && fresh(fs') && fresh(fs'.freemap) && fresh(fs'.freemap.v)
    ensures e == OK ==> Ready(fs') && Seen(fs') == old(Seen(fs))
  {
    hide Sfs.Valid;
    hide Sfs.Abs;
    hide ImageOk;
    hide ImageFs;
    hide Linked;
    hide DirOk;
    hide BlockIn;
    hide SameBytes;
    hide Slots;
    hide Kept;
    hide ViewOf;
    hide Allowed;
    hide Free;
    hide Refs;
    SyncView(fs);
    if fs.vnodes != map[] {
      return EBUSY, null;
    }
    if fs.freemapdirty {
      assert false;  // assertion of sfs_unmount
    }
    fs.Synced();
    fs' := new Sfs.Mount(fs.disk, fs.live, fs.owner);
    e := OK;
  }
}
