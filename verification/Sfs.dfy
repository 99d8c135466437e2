/** sfs_vnode.c: space allocation, block mapping and file I/O over a mounted SFS. */
module Sfs {
  import opened Arith
  import opened SfsFormat
  import opened SfsBlocks
  import opened SfsSpace
  import opened Uio
  import Bitmap

  datatype Errno = OK | ENOSPC | EINVAL | ENOENT | EEXIST | ENAMETOOLONG | EBUSY

  /** struct sfs_vnode: the loaded inode, its dirty flag and the reference count. */
  datatype Vnode = Vnode(inode: Inode, dirty: bool, refcount: nat)

  function InodeAt(disk: seq<Block>, n: nat): (i: Inode)
    ensures InodeOk(i)
  {
    if n < |disk| then DecodeInode(disk[n]) else EmptyInode()
  }

  /** The inodes as the kernel sees them: the loaded copy where there is one. */
  ghost function Table(disk: seq<Block>, vnodes: map<nat, Vnode>, live: set<nat>): map<nat, Inode> {
    map n | n in live :: if n in vnodes then vnodes[n].inode else InodeAt(disk, n)
  }

  /** Loaded vnodes are of existing inodes, referenced, and equal to the disk when clean. */
  ghost predicate CacheOk(disk: seq<Block>, vnodes: map<nat, Vnode>, live: set<nat>) {
    && vnodes.Keys <= live
    && forall n :: n in vnodes ==>
         vnodes[n].refcount > 0 && InodeOk(vnodes[n].inode)
           && (!vnodes[n].dirty ==> vnodes[n].inode == InodeAt(disk, n))
  }

  ghost predicate Listed(vtable: seq<nat>, vnodes: map<nat, Vnode>) {
    && (forall i, j :: 0 <= i < j < |vtable| ==> vtable[i] != vtable[j])
    && (forall n :: n in vtable <==> n in vnodes)
  }

  lemma TableWrite(disk: seq<Block>, vnodes: map<nat, Vnode>, live: set<nat>, b: nat, blk: Block)
    requires b < |disk| && (b in live ==> b in vnodes && vnodes[b].dirty) && CacheOk(disk, vnodes, live)
    ensures Table(disk[b := blk], vnodes, live) == Table(disk, vnodes, live)
    ensures CacheOk(disk[b := blk], vnodes, live)
  {
    hide DecodeInode;
  }

  lemma TableVnode(disk: seq<Block>, vnodes: map<nat, Vnode>, live: set<nat>, n: nat, v: Vnode)
    requires n in vnodes && CacheOk(disk, vnodes, live) && v.dirty && v.refcount > 0 && InodeOk(v.inode)
    ensures Table(disk, vnodes[n := v], live) == Table(disk, vnodes, live)[n := v.inode]
    ensures CacheOk(disk, vnodes[n := v], live)
  {
    hide DecodeInode;
  }

  lemma ListedVnode(vtable: seq<nat>, vnodes: map<nat, Vnode>, n: nat, v: Vnode)
    requires n in vnodes && Listed(vtable, vnodes) && v.refcount == vnodes[n].refcount
    ensures Listed(vtable, vnodes[n := v]) && SameRefs(vnodes, vnodes[n := v])
  {
  }

  // ----- What the operations keep

  predicate SameMeta(i: Inode, j: Inode) { i.size == j.size && i.itype == j.itype && i.linkcount == j.linkcount }

  /** No inode but n changed. */
  ghost predicate OthersSame(fs: Fs, fs': Fs, n: nat) {
    fs'.inodes.Keys == fs.inodes.Keys && forall m :: m in fs.inodes && m != n ==> fs'.inodes[m] == fs.inodes[m]
  }

  /** File n may have been given blocks; no file, size, type or link count changed. */
  ghost predicate Unchanged(fs: Fs, fs': Fs, n: nat) {
    && SameBytes(fs, fs') && |fs'.disk| == |fs.disk| && fs.used <= fs'.used
    && OthersSame(fs, fs', n)
    && (n in fs.inodes ==> SameMeta(fs'.inodes[n], fs.inodes[n]))
    && (forall s :: BlockIn(fs, s) != 0 ==> BlockIn(fs', s) == BlockIn(fs, s))
  }

  ghost predicate SameRefs(v: map<nat, Vnode>, v': map<nat, Vnode>) {
    v'.Keys == v.Keys && forall n :: n in v ==> v'[n].refcount == v[n].refcount
  }

  /** Gaining a block through a change of pointers only. */
  lemma GainUnchanged(fs: Fs, fs': Fs, t: Slot, b: nat)
    requires Gains(fs, fs', t, b) && SameBytes(fs, fs') && OthersSame(fs, fs', t.n)
    requires t.n in fs.inodes ==> SameMeta(fs'.inodes[t.n], fs.inodes[t.n])
    ensures Unchanged(fs, fs', t.n)
  {
    hide BlockIn;
    hide ByteAt;
  }

  lemma SameBytesTwice(a: Fs, b: Fs, c: Fs)
    requires SameBytes(a, b) && SameBytes(b, c)
    ensures SameBytes(a, c)
  {
    hide ByteAt;
    forall n: nat, p: nat ensures ByteAt(c, n, p) == ByteAt(a, n, p) {
      assert ByteAt(b, n, p) == ByteAt(a, n, p);
    }
  }

  lemma UnchangedRefl(a: Fs, n: nat)
    ensures Unchanged(a, a, n)
  {
  }

  lemma UnchangedTwice(a: Fs, b: Fs, c: Fs, n: nat)
    requires Unchanged(a, b, n) && Unchanged(b, c, n)
    ensures Unchanged(a, c, n)
  {
    hide BlockIn;
    hide ByteAt;
    forall n: nat, p: nat ensures ByteAt(c, n, p) == ByteAt(a, n, p) {
      assert ByteAt(b, n, p) == ByteAt(a, n, p);
    }
  }

  /** Bytes off..off+k of file n. */
  function FileBytes(fs: Fs, n: nat, off: nat, k: nat): (s: seq<Byte>)
    ensures |s| == k
  {
    seq<Byte>(k, i requires 0 <= i < k => ByteAt(fs, n, off + i))
  }

  /** Bytes off.. of file n became `data`; no other byte of any file changed, and no
      size, type or link count. The blocks written exist, and none moved. */
  ghost predicate Wrote(fs: Fs, fs': Fs, n: nat, off: nat, data: seq<Byte>) {
    && |fs'.disk| == |fs.disk| && fs.used <= fs'.used && OthersSame(fs, fs', n)
    && (n in fs.inodes ==> SameMeta(fs'.inodes[n], fs.inodes[n]))
    && (forall m: nat, p: nat :: ByteAt(fs', m, p)
          == if m == n && off <= p < off + |data| then data[p - off] else ByteAt(fs, m, p))
    && (forall s :: BlockIn(fs, s) != 0 ==> BlockIn(fs', s) == BlockIn(fs, s))
    && (forall p :: off <= p < off + |data| ==> BlockIn(fs', DataSlot(n, p / BLOCKSIZE)) != 0)
  }

  lemma WroteNothing(fs: Fs, fs': Fs, n: nat, off: nat)
    requires Unchanged(fs, fs', n)
    ensures Wrote(fs, fs', n, off, [])
  {
    hide BlockIn;
    hide ByteAt;
  }

  lemma WroteTwice(a: Fs, b: Fs, c: Fs, n: nat, off: nat, d1: seq<Byte>, d2: seq<Byte>)
    requires Wrote(a, b, n, off, d1) && Wrote(b, c, n, off + |d1|, d2)
    ensures Wrote(a, c, n, off, d1 + d2)
  {
    hide BlockIn;
    hide ByteAt;
    forall m: nat, p: nat ensures ByteAt(c, m, p)
      == if m == n && off <= p < off + |d1 + d2| then (d1 + d2)[p - off] else ByteAt(a, m, p)
    {
      assert ByteAt(b, m, p) == if m == n && off <= p < off + |d1| then d1[p - off] else ByteAt(a, m, p);
    }
    forall p | off <= p < off + |d1 + d2| ensures BlockIn(c, DataSlot(n, p / BLOCKSIZE)) != 0 {
      if p < off + |d1| { assert BlockIn(b, DataSlot(n, p / BLOCKSIZE)) != 0; }
    }
  }

  /** k bytes of I/O on file n: a write changes those bytes only, a read delivers
      exactly them and changes nothing. */
  ghost predicate Progress(write: bool, fs: Fs, fs': Fs, n: nat, u: U, u': U, k: nat) {
    && Ok(u) && k <= u.resid
    && if write then Wrote(fs, fs', n, u.offset, Next(u, k)) && u' == Advance(u, k)
       else fs' == fs && u' == Deliver(u, FileBytes(fs, n, u.offset, k))
  }

  lemma ProgressOk(write: bool, fs: Fs, fs': Fs, n: nat, u: U, u': U, k: nat)
    requires Progress(write, fs, fs', n, u, u', k)
    ensures Ok(u') && u'.offset == u.offset + k && u'.resid == u.resid - k
  {
    hide Wrote;
  }

  lemma ProgressTwice(write: bool, a: Fs, b: Fs, c: Fs, n: nat, u: U, v: U, w: U, k: nat, j: nat)
    requires Progress(write, a, b, n, u, v, k) && Progress(write, b, c, n, v, w, j)
    ensures Progress(write, a, c, n, u, w, k + j)
  {
    hide Wrote;
    hide ByteAt;
    ProgressOk(write, a, b, n, u, v, k);
    if write {
      WroteTwice(a, b, c, n, u.offset, Next(u, k), Next(v, j));
      NextTwice(u, k, j);
    } else {
      hide Deliver;
      DeliverTwice(u, FileBytes(a, n, u.offset, k), FileBytes(a, n, u.offset + k, j));
      BytesTwice(a, n, u.offset, k, j);
    }
  }

  lemma NextTwice(u: U, k: nat, j: nat)
    requires Ok(u) && k + j <= u.resid
    ensures Next(u, k + j) == Next(u, k) + Next(Advance(u, k), j) && Advance(Advance(u, k), j) == Advance(u, k + j)
  {
  }

  lemma BytesTwice(fs: Fs, n: nat, off: nat, k: nat, j: nat)
    ensures FileBytes(fs, n, off, k + j) == FileBytes(fs, n, off, k) + FileBytes(fs, n, off + k, j)
  {
    hide ByteAt;
  }

  lemma NoProgress(write: bool, fs: Fs, fs': Fs, n: nat, u: U)
    requires Ok(u) && Unchanged(fs, fs', n) && (!write ==> fs' == fs)
    ensures Progress(write, fs, fs', n, u, u, 0)
  {
    WroteNothing(fs, fs', n, u.offset);
    hide Wrote;
    assert Next(u, 0) == [];
    assert FileBytes(fs, n, u.offset, 0) == [];
    assert u.mem[..u.base] + [] + u.mem[u.base..] == u.mem;
  }

  /** How far a transfer of uio u got, for its result e: it ends at the largest file size
      or, short of it, at the start of a block. */
  predicate IoResult(u: U, u': U, e: Errno) {
    var end := BlockEnd(u.offset, u.resid);
    && u'.resid <= u.resid
    && (e == OK ==> u'.resid == 0 && (u.offset / BLOCKSIZE < end ==> end <= MAXBLOCKS))
    && (e != OK ==> (u'.resid > 0 || u.resid == 0) && u'.offset / BLOCKSIZE < end)
    && (e != OK && u'.resid < u.resid ==> u'.offset % BLOCKSIZE == 0)
    && (e == EINVAL ==> u'.offset >= MAXBYTES)
    && (u'.resid < u.resid ==> u'.offset <= MAXBYTES)
  }

  lemma ResultOk(u: U, u': U, e: Errno)
    requires IoResult(u, u', e)
    ensures u'.resid <= u.resid
  {
  }

  /** The blocks that a write has taken: those lacking in its range, as far as it got. */
  ghost predicate WriteSpace(fs: Fs, fs': Fs, n: nat, u: U, u': U, e: Errno) {
    RangeSpace(fs, fs', n, u.offset / BLOCKSIZE,
               if e == OK then BlockEnd(u.offset, u.resid) else u'.offset / BLOCKSIZE, e == ENOSPC)
  }

  /** A write fails for lack of space exactly if fewer blocks are free than its range
      lacks, and otherwise exactly if it goes past the largest file. */
  lemma WriteFails(fs: Fs, fs': Fs, n: nat, u: U, u': U, e: Errno)
    requires WriteSpace(fs, fs', n, u, u', e) && IoResult(u, u', e) && (e == OK || e == ENOSPC || e == EINVAL)
    ensures var lo, hi := u.offset / BLOCKSIZE, BlockEnd(u.offset, u.resid);
            var need := Lacking(Mapped(fs, n), lo, hi);
            && (e == ENOSPC <==> |Free(fs)| < |need|)
            && (e == EINVAL <==> |need| <= |Free(fs)| && lo < hi && MAXBLOCKS < hi)
            && (e != ENOSPC ==> Grew(fs, fs', n, need))
            && (e == ENOSPC ==> Free(fs') == {})
  {
    hide Mapped;
    hide Free;
    hide Lacking;
    hide Grew;
    var b, lo, hi := Mapped(fs, n), u.offset / BLOCKSIZE, BlockEnd(u.offset, u.resid);
    var m := u'.offset / BLOCKSIZE;
    if e == ENOSPC {
      LackingMore(b, lo, m + 1, hi);
      RangeFull(fs, fs', n, lo, m);
    } else if e == EINVAL {
      LackingPast(b, lo, m, hi);
    }
  }

  /** The bytes moved by a write are in the file, which has grown to reach their
      end. The rest of the file and every other file are as they were. */
  ghost predicate WriteDone(fs: Fs, fs': Fs, n: nat, u: U, u': U, e: Errno) {
    && Ok(u) && IoResult(u, u', e) && WriteSpace(fs, fs', n, u, u', e)
    && var k := u.resid - u'.resid;
       FileWritten(fs, fs', n, u.offset, Next(u, k)) && u' == Advance(u, k)
  }

  /** A transfer of len bytes at off goes past the largest file. */
  predicate PastMax(off: nat, len: nat) {
    var end := BlockEnd(off, len);
    off / BLOCKSIZE < end && MAXBLOCKS < end
  }

  /** How much of it can be moved. */
  function Reach(off: nat, len: nat): nat {
    if !PastMax(off, len) then len else if off < MAXBYTES then MAXBYTES - off else 0
  }

  lemma ReachIs(off: nat, len: nat)
    ensures Reach(off, len) <= len && (Reach(off, len) > 0 ==> off + Reach(off, len) <= MAXBYTES)
    ensures PastMax(off, len) ==> off + Reach(off, len) >= MAXBYTES && (Reach(off, len) < len || len == 0)
  {
  }

  /** A read has delivered the bytes of the file in its range, up to the end of the
      file or the largest file size; EINVAL exactly if it had to go past that. */
  ghost predicate ReadDone(fs: Fs, n: nat, u: U, u': U, e: Errno) {
    && Ok(u) && u'.resid <= u.resid && n in fs.inodes
    && var size := fs.inodes[n].size;
       var k, all := u.resid - u'.resid, ReadLength(size, u.offset, u.resid);
       && u' == Deliver(u, FileBytes(fs, n, u.offset, k))
       && if u.offset >= ToSigned(size) then e == OK && k == 0
          else k == Reach(u.offset, all) && e == if PastMax(u.offset, all) then EINVAL else OK
  }

  /** How a read that was not cut short by want of space ends. */
  lemma ResultReach(v: U, v': U, e: Errno)
    requires IoResult(v, v', e) && (e == OK || e == EINVAL) && v'.offset == v.offset + v.resid - v'.resid
    ensures v.resid - v'.resid == Reach(v.offset, v.resid) && (e == EINVAL <==> PastMax(v.offset, v.resid))
  {
  }

  /** A read cut off at the end of the file, with the residue put back. */
  lemma ReadCut(fs: Fs, n: nat, u: U, v: U, v': U, e: Errno, extra: nat)
    requires n in fs.inodes && Ok(u) && extra <= u.resid && v == u.(resid := u.resid - extra)
    requires u.offset < ToSigned(fs.inodes[n].size)
    requires ReadLength(fs.inodes[n].size, u.offset, u.resid) == v.resid
    requires IoResult(v, v', e) && Progress(false, fs, fs, n, v, v', v.resid - v'.resid)
    requires e == OK || e == EINVAL
    ensures ReadDone(fs, n, u, v'.(resid := v'.resid + extra), e)
  {
    ProgressOk(false, fs, fs, n, v, v', v.resid - v'.resid);
    ResultReach(v, v', e);
    hide IoResult;
    hide Reach;
    hide PastMax;
    hide Wrote;
    hide BlockIn;
    hide FileBytes;
    hide ReadLength;
  }

  lemma ReadAtEnd(fs: Fs, n: nat, u: U)
    requires n in fs.inodes && Ok(u) && u.offset >= ToSigned(fs.inodes[n].size)
    ensures ReadDone(fs, n, u, u, OK)
  {
    hide ByteAt;
    assert FileBytes(fs, n, u.offset, 0) == [];
    assert Deliver(u, []).mem == u.mem;
  }

  function Max(a: nat, b: nat): nat { if a < b then b else a }

  /** Wrote, with the file grown to reach the end of the write. */
  ghost predicate FileWritten(fs: Fs, fs': Fs, n: nat, off: nat, data: seq<Byte>) {
    && n in fs.inodes && OthersSame(fs, fs', n) && |fs'.disk| == |fs.disk| && fs.used <= fs'.used
    && fs'.inodes[n].size == Max(fs.inodes[n].size, off + |data|)
    && fs'.inodes[n].itype == fs.inodes[n].itype && fs'.inodes[n].linkcount == fs.inodes[n].linkcount
    && (forall m: nat, p: nat :: ByteAt(fs', m, p)
          == if m == n && off <= p < off + |data| then data[p - off] else ByteAt(fs, m, p))
    && (forall s :: BlockIn(fs, s) != 0 ==> BlockIn(fs', s) == BlockIn(fs, s))
    && (forall p :: off <= p < off + |data| ==> BlockIn(fs', DataSlot(n, p / BLOCKSIZE)) != 0)
  }

  lemma WrittenFromWrote(fs: Fs, mid: Fs, fs': Fs, n: nat, off: nat, data: seq<Byte>)
    requires n in fs.inodes && Wrote(fs, mid, n, off, data) && SameBytes(mid, fs')
    requires n in mid.inodes && fs'.inodes.Keys == mid.inodes.Keys && |fs'.disk| == |mid.disk| && fs'.used == mid.used
    requires fs'.inodes == mid.inodes[n := fs'.inodes[n]]
    requires fs'.inodes[n].size == Max(fs.inodes[n].size, off + |data|)
    requires fs'.inodes[n].itype == mid.inodes[n].itype && fs'.inodes[n].linkcount == mid.inodes[n].linkcount
    requires forall s :: BlockIn(fs', s) == BlockIn(mid, s)
    ensures FileWritten(fs, fs', n, off, data)
  {
    hide BlockIn;
    hide ByteAt;
    forall m: nat, p: nat ensures ByteAt(fs', m, p)
      == if m == n && off <= p < off + |data| then data[p - off] else ByteAt(fs, m, p)
    {
      assert ByteAt(fs', m, p) == ByteAt(mid, m, p);
    }
  }

  /** Sizes are values of type off_t, and everything past the end of a file is zero. */
  ghost predicate ZeroTails(fs: Fs) {
    && (forall n :: n in fs.inodes ==> fs.inodes[n].size < 0x8000_0000)
    && forall n: nat, p: nat :: n in fs.inodes && p >= fs.inodes[n].size ==> ByteAt(fs, n, p) == 0
  }

  /** Bytes can only be written below the largest file size. */
  lemma WrittenBelowMax(fs: Fs, fs': Fs, n: nat, off: nat, data: seq<Byte>)
    requires FileWritten(fs, fs', n, off, data) && data != []
    ensures off + |data| <= MAXBYTES
  {
    hide ByteAt;
    LastByte(fs', n, off + |data| - 1);
  }

  lemma WroteBelowMax(fs: Fs, fs': Fs, n: nat, off: nat, data: seq<Byte>)
    requires Wrote(fs, fs', n, off, data) && data != []
    ensures off + |data| <= MAXBYTES
  {
    hide ByteAt;
    LastByte(fs', n, off + |data| - 1);
  }

  lemma LastByte(fs: Fs, n: nat, p: nat)
    ensures BlockIn(fs, DataSlot(n, p / BLOCKSIZE)) != 0 ==> p < MAXBYTES
  {
    hide Words;
  }

  /** Writes keep it, so the gap left by a write past the end reads as zeros. */
  lemma WriteZeroTails(fs: Fs, fs': Fs, n: nat, off: nat, data: seq<Byte>)
    requires ZeroTails(fs) && FileWritten(fs, fs', n, off, data) && off < 0x8000_0000
    ensures ZeroTails(fs')
  {
    if data != [] { WrittenBelowMax(fs, fs', n, off, data); }
    hide BlockIn;
    hide ByteAt;
    forall m: nat, p: nat | m in fs'.inodes && p >= fs'.inodes[m].size ensures ByteAt(fs', m, p) == 0 {
      assert m in fs.inodes && p >= fs.inodes[m].size;
      assert ByteAt(fs, m, p) == 0;
    }
  }

  /** How much a read at off may deliver: up to the end of the file, unless the end of
      the range overflows an off_t. */
  function ReadLength(size: Word, off: nat, resid: nat): nat {
    if off >= ToSigned(size) then 0
    else if ToSigned(ToWord(off + resid)) > size then size - off
    else resid
  }

  /** Exactly the ranges that end at 2^31 or later are not cut off. */
  lemma ReadLengthIs(size: Word, off: nat, resid: nat)
    requires off < size < 0x8000_0000 && resid < TWO32
    ensures off + resid < 0x8000_0000 ==>
      ReadLength(size, off, resid) == if off + resid > size then size - off else resid
    ensures off + resid >= 0x8000_0000 ==> ReadLength(size, off, resid) == resid > size - off
    ensures ReadLength(size, off, resid) <= resid
  {
    var end := off + resid;
    if end >= TWO32 { ModIs(end, TWO32, 1, end - TWO32); } else { ModIs(end, TWO32, 0, end); }
  }

  /** What sfs_io takes off the residue of a read, and its assertion. */
  lemma ReadExtra(size: Word, off: nat, resid: nat)
    requires off < ToSigned(size) && off < 0x8000_0000 && resid < TWO32
    ensures var end := ToSigned(ToWord(off + resid));
            && (end > ToSigned(size) ==>
                  end - ToSigned(size) < resid && ReadLength(size, off, resid) == resid - (end - ToSigned(size)))
            && (end <= ToSigned(size) ==> ReadLength(size, off, resid) == resid)
  {
    var end := off + resid;
    if end >= TWO32 { ModIs(end, TWO32, 1, end - TWO32); } else { ModIs(end, TWO32, 0, end); }
  }

  lemma BlockAligned(off: nat, i: nat)
    requires off % BLOCKSIZE == 0
    ensures (off + i * BLOCKSIZE) % BLOCKSIZE == 0 && (off + i * BLOCKSIZE) / BLOCKSIZE == off / BLOCKSIZE + i
  {
  }

  /** A block with `data` placed at `skip`. */
  function Patch(b: Block, skip: nat, data: seq<Byte>): Block
    requires skip + |data| <= BLOCKSIZE
  {
    b[..skip] + data + b[skip + |data|..]
  }

  /** What a block buffer holds of the file. */
  lemma ChunkBytes(fs: Fs, n: nat, off: nat, len: nat, blk: Block)
    requires off % BLOCKSIZE + len <= BLOCKSIZE
    requires var b := BlockIn(fs, DataSlot(n, off / BLOCKSIZE));
             blk == if 0 < b < |fs.disk| then fs.disk[b] else ZeroBlock()
    ensures blk[off % BLOCKSIZE..][..len] == FileBytes(fs, n, off, len)
  {
    hide BlockIn;
    var a, b := blk[off % BLOCKSIZE..][..len], FileBytes(fs, n, off, len);
    forall i | 0 <= i < len ensures a[i] == b[i] {
      SameBlock(off, i);
      assert a[i] == blk[off % BLOCKSIZE + i];
      assert b[i] == ByteAt(fs, n, off + i);
    }
  }

  /** The blocks of a transfer that starts inside a block. */
  lemma FirstChunk(off: nat, resid: nat, len: nat)
    requires off % BLOCKSIZE != 0
    requires len == if BLOCKSIZE - off % BLOCKSIZE > resid then resid else BLOCKSIZE - off % BLOCKSIZE
    ensures off / BLOCKSIZE < BlockEnd(off, resid)
    ensures len == resid ==> BlockEnd(off, resid) == off / BLOCKSIZE + 1
    ensures len < resid ==> (off + len) % BLOCKSIZE == 0 && (off + len) / BLOCKSIZE == off / BLOCKSIZE + 1
  {
  }

  /** A transfer that ends at a block boundary. */
  lemma EndsAligned(u: U, u': U, e: Errno)
    requires u'.offset % BLOCKSIZE == 0 && u.offset + u.resid == u'.offset + u'.resid && u'.resid <= u.resid
    requires if e == OK then u'.resid == 0 else u'.resid > 0
    requires (e == EINVAL ==> u'.offset >= MAXBYTES) && (u'.resid < u.resid ==> u'.offset <= MAXBYTES)
    ensures IoResult(u, u', e) && (e == OK ==> BlockEnd(u.offset, u.resid) == u'.offset / BLOCKSIZE)
  {
  }

  /** A transfer that ends in the block that starts where v does, or fails there. */
  lemma EndsInside(u: U, v: U, u': U, e: Errno)
    requires v.offset % BLOCKSIZE == 0 && u.offset + u.resid == v.offset + v.resid && 0 < v.resid < BLOCKSIZE
    requires v.resid <= u.resid && (v.resid < u.resid ==> v.offset <= MAXBYTES)
    requires if e == OK then u'.offset == v.offset + v.resid && u'.resid == 0 && v.offset < MAXBYTES
             else u'.offset == v.offset && u'.resid == v.resid
    requires e == EINVAL ==> u'.offset >= MAXBYTES
    ensures IoResult(u, u', e) && BlockEnd(u.offset, u.resid) == v.offset / BLOCKSIZE + 1
  {
  }

  /** A part of a block of the file ends within the largest file. */
  lemma ChunkEnd(off: nat, len: nat)
    requires off < MAXBYTES && off % BLOCKSIZE + len <= BLOCKSIZE
    ensures off + len <= MAXBYTES
  {
  }

  lemma SameBlock(off: nat, i: nat)
    requires off % BLOCKSIZE + i < BLOCKSIZE
    ensures (off + i) / BLOCKSIZE == off / BLOCKSIZE && (off + i) % BLOCKSIZE == off % BLOCKSIZE + i
  {
  }

  /** Writing block fb of a file whose block exists, with `data` placed at `skip`. */
  lemma WroteChunk(fs: Fs, owner: map<nat, Slot>, reserved: set<nat>, n: nat, off: nat, blk: Block, data: seq<Byte>)
    requires Ownership(fs, owner, reserved) && n in fs.inodes && BlockIn(fs, DataSlot(n, off / BLOCKSIZE)) != 0
    requires off % BLOCKSIZE + |data| <= BLOCKSIZE
    requires BlockIn(fs, DataSlot(n, off / BLOCKSIZE)) < |fs.disk|
    requires blk == Patch(fs.disk[BlockIn(fs, DataSlot(n, off / BLOCKSIZE))], off % BLOCKSIZE, data)
    ensures Ownership(WriteData(fs, n, off / BLOCKSIZE, blk), owner, reserved)
    ensures Wrote(fs, WriteData(fs, n, off / BLOCKSIZE, blk), n, off, data)
    ensures SameSpace(fs, WriteData(fs, n, off / BLOCKSIZE, blk))
  {
    hide Ownership;
    hide Words;
    hide SameSpace;
    var fb := off / BLOCKSIZE;
    WriteDataOk(fs, owner, reserved, n, fb, blk);
    var fs' := WriteData(fs, n, fb, blk);
    hide BlockIn;
    SlotsSame(fs, fs');
    forall m: nat, p: nat ensures ByteAt(fs', m, p)
      == if m == n && off <= p < off + |data| then data[p - off] else ByteAt(fs, m, p)
    {
      if m == n && p / BLOCKSIZE == fb {
        assert ByteAt(fs', m, p) == blk[p % BLOCKSIZE];
        assert p - off == p % BLOCKSIZE - off % BLOCKSIZE;
      }
    }
    forall p | off <= p < off + |data| ensures BlockIn(fs', DataSlot(n, p / BLOCKSIZE)) != 0 {
      assert p / BLOCKSIZE == fb;
    }
  }

  lemma BlockInIndirect(fs: Fs, n: nat, fb: nat)
    requires n in fs.inodes && NDIRECT <= fb
    ensures BlockIn(fs, DataSlot(n, fb)) == if fb < MAXBLOCKS then IndirectEntry(fs.disk, fs.inodes[n], fb - NDIRECT)
      else 0
  {
  }

  lemma NoIndirectMapped(fs: Fs, n: nat)
    requires n in fs.inodes
    ensures {MAXBLOCKS} - Mapped(fs, n) == if fs.inodes[n].indirect == 0 then {MAXBLOCKS} else {}
  {
    assert BlockIn(fs, At(n, MAXBLOCKS)) == fs.inodes[n].indirect;
    hide BlockIn;
  }

  lemma EntryOfNothing(fs: Fs, n: nat, fb: nat)
    requires n in fs.inodes && NDIRECT <= fb && fs.inodes[n].indirect == 0
    ensures BlockIn(fs, DataSlot(n, fb)) == 0
  {
  }

  lemma StaysMapped(fs: Fs, fs': Fs, n: nat, fb: nat)
    requires Unchanged(fs, fs', n) && BlockIn(fs', DataSlot(n, fb)) == 0
    ensures BlockIn(fs, DataSlot(n, fb)) == 0
  {
    hide BlockIn;
  }

  /** A new indirect block has no entries. */
  lemma ThereBefore(fs: Fs, mid: Fs, n: nat, fb: nat)
    requires n in fs.inodes && NDIRECT <= fb < MAXBLOCKS && Grew(fs, mid, n, {MAXBLOCKS} - Mapped(fs, n))
    requires BlockIn(mid, DataSlot(n, fb)) != 0
    ensures BlockIn(fs, DataSlot(n, fb)) != 0 && fs.inodes[n].indirect != 0
  {
    NotMapped(fs, n, fb);
    NotMapped(mid, n, fb);
    hide Mapped;
    if fs.inodes[n].indirect == 0 { EntryOfNothing(fs, n, fb); }
    hide BlockIn;
  }

  /** Writing a loaded inode to its block makes the disk agree with it. */
  lemma TableSync(disk: seq<Block>, vnodes: map<nat, Vnode>, live: set<nat>, n: nat)
    requires n in vnodes && n < |disk| && CacheOk(disk, vnodes, live)
    ensures var v := vnodes[n];
            var disk', vnodes' := disk[n := EncodeInode(v.inode)], vnodes[n := v.(dirty := false)];
            && Table(disk', vnodes', live) == Table(disk, vnodes, live)
            && CacheOk(disk', vnodes', live)
            && InodeAt(disk', n) == v.inode
  {
    hide DecodeInode;
    hide EncodeInode;
    InodeRoundTrip(vnodes[n].inode);
  }

  /** A vnode that equals its disk block can be dropped without loss. */
  lemma TableDrop(disk: seq<Block>, vnodes: map<nat, Vnode>, live: set<nat>, n: nat)
    requires n in vnodes && !vnodes[n].dirty && CacheOk(disk, vnodes, live)
    ensures Table(disk, vnodes - {n}, live) == Table(disk, vnodes, live)
    ensures CacheOk(disk, vnodes - {n}, live)
  {
    hide DecodeInode;
  }

  /** What the disk holds outside the files: the superblock, and a copy of the free
      map that is current unless the map is dirty. */
  ghost predicate Stored(disk: seq<Block>, nblocks: nat, reserved: set<nat>, dirty: bool, v: seq<bv8>) {
    && reserved == Reserved(nblocks) && MAP_LOCATION + BitBlocks(nblocks) <= |disk|
    && SuperOk(disk[SB_LOCATION], nblocks)
    && |v| == BLOCKSIZE * BitBlocks(nblocks)
    && (!dirty ==> forall j :: 0 <= j < BitBlocks(nblocks) ==> MapBlock(v, j) == disk[MAP_LOCATION + j])
  }

  /** Block j of the free map, as it is on disk. */
  function MapBlock(v: seq<bv8>, j: nat): Block
    requires BLOCKSIZE * (j + 1) <= |v|
  {
    seq(512, i requires 0 <= i < 512 => v[BLOCKSIZE * j + i] as int)
  }

  /** The free map on disk. */
  function MapBytes(disk: seq<Block>): (v: seq<bv8>)
    ensures |v| == BLOCKSIZE * BitBlocks(|disk|)
  {
    seq(BLOCKSIZE * BitBlocks(|disk|), i requires 0 <= i =>
      if MAP_LOCATION + i / BLOCKSIZE < |disk| then disk[MAP_LOCATION + i / BLOCKSIZE][i % BLOCKSIZE] as bv8 else 0)
  }

  /** The file system that an unmounted disk holds. */
  ghost function ImageFs(disk: seq<Block>, live: set<nat>): Fs {
    Fs(disk, (set b | b in Bitmap.Marked(MapBytes(disk)) && b < |disk|), Table(disk, map[], live))
  }

  /** What mount relies on. */
  ghost predicate ImageOk(disk: seq<Block>, live: set<nat>, owner: map<nat, Slot>) {
    && MAP_LOCATION + BitBlocks(|disk|) <= |disk| < 0x1_0000_0000 && SuperOk(disk[SB_LOCATION], |disk|)
    && NOINO !in live
    && (forall b :: |disk| <= b < BitmapSize(|disk|) ==> b in Bitmap.Marked(MapBytes(disk)))
    && Ownership(ImageFs(disk, live), owner, Reserved(|disk|))
  }

  lemma BitsByte(w: bv8)
    ensures (w as int) as bv8 == w
  {
  }

  lemma NextBits(w: bv8)
    requires w != 255
    ensures (w + 1) as int == w as int + 1
  {
  }

  /** Every byte is one the map can hold. */
  lemma {:induction false} BitsOf(b: Byte) returns (w: bv8)
    ensures w as int == b
  {
    if b == 0 {
      w := 0;
    } else {
      var x := BitsOf(b - 1);
      NextBits(x);
      w := x + 1;
    }
  }

  lemma ByteBits(b: Byte)
    ensures (b as bv8) as int == b
  {
    var w := BitsOf(b);
    BitsByte(w);
  }

  /** The map in memory, read from the disk. */
  lemma MapStored(disk: seq<Block>)
    requires MAP_LOCATION + BitBlocks(|disk|) <= |disk| && SuperOk(disk[SB_LOCATION], |disk|)
    ensures Stored(disk, |disk|, Reserved(|disk|), false, MapBytes(disk))
  {
    var v := MapBytes(disk);
    forall j | 0 <= j < BitBlocks(|disk|) ensures MapBlock(v, j) == disk[MAP_LOCATION + j] {
      forall i | 0 <= i < 512 ensures MapBlock(v, j)[i] == disk[MAP_LOCATION + j][i] {
        assert (BLOCKSIZE * j + i) / BLOCKSIZE == j && (BLOCKSIZE * j + i) % BLOCKSIZE == i;
        ByteBits(disk[MAP_LOCATION + j][i]);
      }
    }
  }

  /** And back: a map that is stored is the one on disk. */
  lemma StoredMap(disk: seq<Block>, reserved: set<nat>, v: seq<bv8>)
    requires Stored(disk, |disk|, reserved, false, v)
    ensures MapBytes(disk) == v
  {
    forall i | 0 <= i < |v| ensures MapBytes(disk)[i] == v[i] {
      StoredByte(disk, reserved, v, i);
    }
  }

  lemma StoredByte(disk: seq<Block>, reserved: set<nat>, v: seq<bv8>, i: nat)
    requires Stored(disk, |disk|, reserved, false, v) && i < |v|
    ensures MapBytes(disk)[i] == v[i]
  {
    hide BitBlocks;
    hide SuperOk;
    hide Reserved;
    var j, k := i / 512, i % 512;
    assert i == 512 * j + k;
    var blk := MapBlock(v, j);
    assert blk == disk[MAP_LOCATION + j];
    assert blk[k] == v[512 * j + k] as int;
    BitsByte(v[i]);
  }

  lemma StoredElsewhere(disk: seq<Block>, nblocks: nat, reserved: set<nat>, dirty: bool, v: seq<bv8>, b: nat,
                        blk: Block)
    requires Stored(disk, nblocks, reserved, dirty, v) && b < |disk| && b !in reserved
    ensures Stored(disk[b := blk], nblocks, reserved, dirty, v)
  {
  }

  lemma StoredDirty(disk: seq<Block>, nblocks: nat, reserved: set<nat>, dirty: bool, v: seq<bv8>, v': seq<bv8>)
    requires Stored(disk, nblocks, reserved, dirty, v) && |v'| == |v|
    ensures Stored(disk, nblocks, reserved, true, v')
  {
  }

  lemma StoredMapBlock(disk: seq<Block>, nblocks: nat, reserved: set<nat>, v: seq<bv8>, j: nat, blk: Block)
    requires Stored(disk, nblocks, reserved, true, v) && j < BitBlocks(nblocks)
    ensures Stored(disk[MAP_LOCATION + j := blk], nblocks, reserved, true, v)
  {
  }

  /** A free block is taken and cleared. */
  lemma StoredAlloc(fs: Fs, owner: map<nat, Slot>, nblocks: nat, reserved: set<nat>, dirty: bool, v: seq<bv8>,
                    v': seq<bv8>, b: nat)
    requires Ownership(fs, owner, reserved) && b !in fs.used && b < |fs.disk|
    requires Stored(fs.disk, nblocks, reserved, dirty, v) && |v'| == |v|
    ensures Stored(fs.disk[b := ZeroBlock()], nblocks, reserved, true, v')
  {
    StoredElsewhere(fs.disk, nblocks, reserved, dirty, v, b, ZeroBlock());
  }

  /** An inode is gone, with its vnode. */
  lemma TableForget(disk: seq<Block>, vnodes: map<nat, Vnode>, live: set<nat>, n: nat)
    requires n in vnodes && CacheOk(disk, vnodes, live)
    ensures Table(disk, vnodes - {n}, live - {n}) == Table(disk, vnodes, live) - {n}
    ensures CacheOk(disk, vnodes - {n}, live - {n})
  {
    hide DecodeInode;
  }

  /** An inode is read from its block; a new object is given its type. */
  lemma TableLoad(disk: seq<Block>, vnodes: map<nat, Vnode>, live: set<nat>, n: nat, v: Vnode)
    requires n in live && n !in vnodes && CacheOk(disk, vnodes, live) && v.refcount > 0 && InodeOk(v.inode)
    requires v.dirty || v.inode == InodeAt(disk, n)
    ensures Table(disk, vnodes[n := v], live) == Table(disk, vnodes, live)[n := v.inode]
    ensures CacheOk(disk, vnodes[n := v], live)
  {
    hide DecodeInode;
  }

  /** Inode i truncated to nothing. */
  function Emptied(i: Inode): Inode { i.(size := 0, direct := seq(15, _ => 0), indirect := 0) }

  class Sfs {
    const nblocks: nat
    const freemap: Bitmap.Bitmap
    ghost const reserved: set<nat>
    var disk: seq<Block>
    var vnodes: map<nat, Vnode>    // the loaded vnodes, by inode number
    var vtable: seq<nat>           // sfs_vnodes: the order they are listed in
    var freemapdirty: bool
    ghost var live: set<nat>       // the inodes that exist
    ghost var owner: map<nat, Slot>

    /** sfs_domount, past the checks: the free map is read, and no vnode is loaded. */
    constructor Mount(d: seq<Block>, ghost l: set<nat>, ghost o: map<nat, Slot>)
      requires ImageOk(d, l, o)
      ensures fresh(freemap) && fresh(freemap.v)
      ensures Valid() && disk == d && live == l && owner == o && vnodes == map[] && Abs() == ImageFs(d, l)
    {
      var m := new Bitmap.Bitmap(BitmapSize(|d|));
      nblocks, freemap, reserved := |d|, m, Reserved(|d|);
      disk, vnodes, vtable, freemapdirty, live, owner := d, map[], [], false, l, o;
      new;
      hide Ownership;
      hide DecodeInode;
      ReadMap();
      MapStored(d);
      hide Stored;
      assert freemap.Bits() == Bitmap.Marked(MapBytes(d));
      assert Abs() == ImageFs(d, l);
    }

    /** sfs_mapio, reading. */
    method ReadMap()
      requires nblocks == |disk| && MAP_LOCATION + BitBlocks(nblocks) <= nblocks
      requires freemap.nbits == BitmapSize(nblocks) && freemap.v.Length == BLOCKSIZE * BitBlocks(nblocks)
      modifies freemap.v
      ensures freemap.v[..] == MapBytes(disk)
    {
      var j := 0;
      while j < BitBlocks(nblocks)
        invariant 0 <= j <= BitBlocks(nblocks)
        invariant forall i :: 0 <= i < BLOCKSIZE * j ==> freemap.v[i] == MapBytes(disk)[i]
      {
        forall i | 0 <= i < BLOCKSIZE { freemap.v[BLOCKSIZE * j + i] := disk[MAP_LOCATION + j][i] as bv8; }
        forall i | BLOCKSIZE * j <= i < BLOCKSIZE * (j + 1) ensures freemap.v[i] == MapBytes(disk)[i] {
          assert freemap.v[BLOCKSIZE * j + (i - BLOCKSIZE * j)] == disk[MAP_LOCATION + j][i - BLOCKSIZE * j] as bv8;
          assert i / BLOCKSIZE == j && i % BLOCKSIZE == i - BLOCKSIZE * j;
        }
        j := j + 1;
      }
    }

    ghost predicate MapOk()
      reads freemap.v
    {
      && freemap.Valid() && nblocks <= freemap.nbits
      && forall b :: nblocks <= b < freemap.nbits ==> b in freemap.Bits()
    }

    ghost function Used(): set<nat>
      reads freemap.v
    {
      set b | b in freemap.Bits() && b < nblocks
    }

    ghost function Inodes(): map<nat, Inode>
      reads this
    {
      Table(disk, vnodes, live)
    }

    /** Inode n as the kernel sees it. */
    ghost function Current(n: nat): Inode
      reads this
    {
      if n in vnodes then vnodes[n].inode else InodeAt(disk, n)
    }

    ghost function Abs(): Fs
      reads this, freemap.v
    {
      Fs(disk, Used(), Inodes())
    }

    ghost predicate Valid()
      reads this, freemap.v
    {
      && MapOk() && |disk| == nblocks < 0x1_0000_0000 && NOINO !in live
      && Ownership(Abs(), owner, reserved)
      && CacheOk(disk, vnodes, live)
      && Listed(vtable, vnodes)
      && Stored(disk, nblocks, reserved, freemapdirty, freemap.v[..])
    }

    ghost predicate Full()
      reads freemap.v
    {
      forall b :: 0 <= b < nblocks ==> b in Used()
    }

    lemma NoneFree()
      requires Full() && |disk| == nblocks
      ensures Free(Abs()) == {}
    {
    }

    // ----- Space allocation

    /** sfs_balloc. The block it hands out is in range, so its panic cannot happen. */
    method Balloc() returns (r: Bitmap.Result<nat>)
      requires MapOk() && |disk| == nblocks
      modifies this`disk, this`freemapdirty, freemap.v
      ensures MapOk() && |disk| == nblocks
      ensures r.Ok? ==> r.value < nblocks && r.value !in old(Used()) && Used() == old(Used()) + {r.value}
                        && disk == old(disk)[r.value := ZeroBlock()] && freemapdirty
      ensures r.Enospc? ==> disk == old(disk) && freemap.v[..] == old(freemap.v[..]) && Full() && Used() == old(Used())
                            && freemapdirty == old(freemapdirty)
    {
      r := freemap.Alloc();
      if r.Ok? {
        freemapdirty := true;
        if r.value >= nblocks {
          assert false;  // panic: balloc: invalid block
        }
        disk := disk[r.value := ZeroBlock()];
      }
    }

    /** sfs_bfree. */
    method Bfree(b: nat)
      requires MapOk() && b < nblocks && b in Used()
      modifies this`freemapdirty, freemap.v
      ensures MapOk() && Used() == old(Used()) - {b} && freemapdirty
    {
      freemap.Unmark(b);
      freemapdirty := true;
    }

    /** sfs_bused. */
    method Bused(b: nat) returns (r: bool)
      requires MapOk() && b < nblocks
      ensures r <==> b in Used()
    {
      r := freemap.Test(b);
    }

    // ----- Block mapping

    /** Allocate direct block fb of file n. */
    method GrowDirect(n: nat, fb: nat) returns (r: Bitmap.Result<nat>)
      requires Valid() && n in vnodes && fb < NDIRECT && vnodes[n].inode.direct[fb] == 0
      modifies this, freemap.v
      ensures Valid() && live == old(live) && Unchanged(old(Abs()), Abs(), n) && SameRefs(old(vnodes), vnodes)
      ensures r.Ok? ==> r.value != 0 && BlockIn(Abs(), DataSlot(n, fb)) == r.value && Grew(old(Abs()), Abs(), n, {fb})
      ensures r.Enospc? ==> Abs() == old(Abs()) && vnodes == old(vnodes) && Free(Abs()) == {}
    {
      hide Grew;
      hide Free;
      hide Full;
      hide Ownership;
      hide Unchanged;
      hide Gains;
      hide SameBytes;
      hide Words;
      hide DecodeInode;
      hide Used;
      hide MapOk;
      hide Stored;
      hide CacheOk;
      hide Listed;
      hide SameRefs;
      hide Table;
      ghost var fs := Abs();
      VnodeFacts(n);
      ListedVnode(vtable, vnodes, n, vnodes[n]);
      assert vnodes == vnodes[n := vnodes[n]];
      UnchangedRefl(fs, n);
      r := Balloc();
      if r.Ok? {
        var b := r.value;
        AllocDirectOk(fs, owner, reserved, n, fb, b);
        StoredAlloc(fs, owner, nblocks, reserved, old(freemapdirty), old(freemap.v[..]), freemap.v[..], b);
        FreeIsUnowned(fs, owner, reserved, InodeSlot(b), b);
        TableWrite(old(disk), vnodes, live, b, ZeroBlock());
        var v := vnodes[n].(inode := WithDirect(vnodes[n].inode, fb, b), dirty := true);
        TableVnode(disk, vnodes, live, n, v);
        ListedVnode(vtable, vnodes, n, v);
        vnodes := vnodes[n := v];
        owner := owner[b := DataSlot(n, fb)];
        GainUnchanged(fs, AllocDirect(fs, n, fb, b), DataSlot(n, fb), b);
        GainGrew(fs, AllocDirect(fs, n, fb, b), n, fb, b);
        assert Abs() == AllocDirect(fs, n, fb, b);
      } else {
        NoneFree();
      }
    }

    /** Allocate the indirect block of file n. */
    method GrowIndirect(n: nat) returns (r: Bitmap.Result<nat>)
      requires Valid() && n in vnodes && vnodes[n].inode.indirect == 0
      modifies this, freemap.v
      ensures Valid() && live == old(live) && Unchanged(old(Abs()), Abs(), n) && SameRefs(old(vnodes), vnodes)
      ensures r.Ok? ==> 0 < r.value < nblocks && vnodes[n].inode.indirect == r.value && disk[r.value] == ZeroBlock()
      ensures r.Ok? ==> Grew(old(Abs()), Abs(), n, {MAXBLOCKS})
      ensures r.Enospc? ==> Abs() == old(Abs()) && vnodes == old(vnodes) && Free(Abs()) == {}
    {
      hide Grew;
      hide Free;
      hide Full;
      hide Ownership;
      hide Unchanged;
      hide Gains;
      hide SameBytes;
      hide Words;
      hide DecodeInode;
      hide Used;
      hide MapOk;
      hide Stored;
      hide CacheOk;
      hide Listed;
      hide SameRefs;
      hide Table;
      ghost var fs := Abs();
      VnodeFacts(n);
      ListedVnode(vtable, vnodes, n, vnodes[n]);
      assert vnodes == vnodes[n := vnodes[n]];
      UnchangedRefl(fs, n);
      r := Balloc();
      if r.Ok? {
        var b := r.value;
        AllocIndirectOk(fs, owner, reserved, n, b);
        StoredAlloc(fs, owner, nblocks, reserved, old(freemapdirty), old(freemap.v[..]), freemap.v[..], b);
        FreeIsUnowned(fs, owner, reserved, InodeSlot(b), b);
        TableWrite(old(disk), vnodes, live, b, ZeroBlock());
        var v := vnodes[n].(inode := vnodes[n].inode.(indirect := b), dirty := true);
        TableVnode(disk, vnodes, live, n, v);
        ListedVnode(vtable, vnodes, n, v);
        vnodes := vnodes[n := v];
        owner := owner[b := IndirectSlot(n)];
        GainUnchanged(fs, AllocIndirect(fs, n, b), IndirectSlot(n), b);
        GainGrew(fs, AllocIndirect(fs, n, b), n, MAXBLOCKS, b);
        assert Abs() == AllocIndirect(fs, n, b);
      } else {
        NoneFree();
      }
    }

    /** Allocate the block of entry j of the indirect block of file n, held in idbuf. */
    method GrowEntry(n: nat, j: nat, idbuf: seq<Word>) returns (r: Bitmap.Result<nat>)
      requires Valid() && n in vnodes && j < DBPERIDB && 0 < vnodes[n].inode.indirect < nblocks
      requires idbuf == Words(disk[vnodes[n].inode.indirect]) && idbuf[j] == 0
      modifies this, freemap.v
      ensures Valid() && live == old(live) && Unchanged(old(Abs()), Abs(), n) && SameRefs(old(vnodes), vnodes)
      ensures r.Ok? ==> r.value != 0 && BlockIn(Abs(), DataSlot(n, NDIRECT + j)) == r.value
      ensures r.Ok? ==> Grew(old(Abs()), Abs(), n, {NDIRECT + j})
      ensures r.Enospc? ==> Abs() == old(Abs()) && vnodes == old(vnodes) && Free(Abs()) == {}
    {
      hide Grew;
      hide Free;
      hide Full;
      hide Ownership;
      hide Unchanged;
      hide SameBytes;
      hide Words;
      hide FromWords;
      hide DecodeInode;
      hide Used;
      hide MapOk;
      hide Stored;
      hide CacheOk;
      hide Listed;
      hide Table;
      ghost var fs := Abs();
      VnodeFacts(n);
      UnchangedRefl(fs, n);
      r := Balloc();
      if r.Ok? {
        var b := r.value;
        var ind := vnodes[n].inode.indirect;
        AllocEntryOk(fs, owner, reserved, n, j, b);
        StoredAlloc(fs, owner, nblocks, reserved, old(freemapdirty), old(freemap.v[..]), freemap.v[..], b);
        FreeIsUnowned(fs, owner, reserved, InodeSlot(b), b);
        FreeIsUnowned(fs, owner, reserved, IndirectSlot(n), b);
        OneOwner(fs, owner, reserved, IndirectSlot(n), InodeSlot(ind));
        TableWrite(old(disk), vnodes, live, b, ZeroBlock());
        var buf := idbuf[j := b];
        ghost var before := disk;
        StoredElsewhere(disk, nblocks, reserved, true, freemap.v[..], ind, FromWords(buf));
        disk := disk[ind := FromWords(buf)];
        TableWrite(before, vnodes, live, ind, FromWords(buf));
        owner := owner[b := DataSlot(n, NDIRECT + j)];
        GainUnchanged(fs, AllocEntry(fs, n, j, b), DataSlot(n, NDIRECT + j), b);
        GainGrew(fs, AllocEntry(fs, n, j, b), n, NDIRECT + j, b);
        assert Abs() == AllocEntry(fs, n, j, b);
      } else {
        NoneFree();
      }
    }

    /** sfs_bused after a lookup: the panics "marked free" cannot happen. */
    method CheckUsed(s: Slot, block: nat)
      requires Valid() && block == BlockIn(Abs(), s)
      ensures block != 0 ==> block in Used()
    {
      if block != 0 {
        OneOwner(Abs(), owner, reserved, s, s);
        var used := Bused(block);
        if !used {
          assert false;  // panic: data block marked free
        }
      }
    }

    /** sfs_bmap for a direct block. */
    method BmapDirect(n: nat, fb: nat, doalloc: bool) returns (e: Errno, block: nat)
      requires Valid() && n in vnodes && fb < NDIRECT
      modifies this, freemap.v
      ensures Valid() && live == old(live) && Unchanged(old(Abs()), Abs(), n) && SameRefs(old(vnodes), vnodes)
      ensures e == OK || e == ENOSPC
      ensures e == OK ==> block == BlockIn(Abs(), DataSlot(n, fb)) && (doalloc ==> block != 0)
      ensures doalloc ==> ChunkSpace(old(Abs()), Abs(), n, fb, e == ENOSPC)
      ensures !doalloc || BlockIn(old(Abs()), DataSlot(n, fb)) != 0 ==>
        e == OK && Abs() == old(Abs()) && vnodes == old(vnodes)
    {
      hide ChunkSpace;
      hide Grew;
      hide Free;
      hide Ownership;
      hide Unchanged;
      hide Words;
      hide DecodeInode;
      hide Used;
      hide MapOk;
      hide Stored;
      UnchangedRefl(Abs(), n);
      block := vnodes[n].inode.direct[fb];
      assert BlockIn(Abs(), DataSlot(n, fb)) == block;
      if block == 0 && doalloc {
        var r := GrowDirect(n, fb);
        ChunkDirect(old(Abs()), Abs(), n, fb, r.Enospc?);
        if r.Enospc? {
          return ENOSPC, 0;
        }
        block := r.value;
      } else if block != 0 {
        ChunkThere(Abs(), n, fb);
      }
      CheckUsed(DataSlot(n, fb), block);
      e := OK;
    }

    /** The indirect block of file n, allocated if asked for; 0 if there is none. */
    method LoadIndirect(n: nat, doalloc: bool) returns (e: Errno, idblock: nat, idbuf: seq<Word>)
      requires Valid() && n in vnodes
      modifies this, freemap.v
      ensures Valid() && live == old(live) && Unchanged(old(Abs()), Abs(), n) && SameRefs(old(vnodes), vnodes)
      ensures e == OK || e == ENOSPC
      ensures e == OK ==> idblock == vnodes[n].inode.indirect && (doalloc ==> idblock != 0)
      ensures e == OK && idblock != 0 ==> idblock < nblocks && idbuf == Words(disk[idblock])
      ensures e == OK && doalloc ==> Grew(old(Abs()), Abs(), n, {MAXBLOCKS} - Mapped(old(Abs()), n))
      ensures e == ENOSPC ==> doalloc && Abs() == old(Abs()) && Free(Abs()) == {} && old(vnodes[n].inode.indirect) == 0
      ensures !doalloc || old(vnodes[n].inode.indirect) != 0 ==> e == OK && Abs() == old(Abs()) && vnodes == old(vnodes)
    {
      hide Grew;
      hide Free;
      hide Ownership;
      hide Unchanged;
      hide Words;
      hide DecodeInode;
      hide Used;
      hide MapOk;
      hide Stored;
      idblock := vnodes[n].inode.indirect;
      idbuf := [];
      e := OK;
      if idblock == 0 && !doalloc {
        UnchangedRefl(Abs(), n);
      } else if idblock == 0 {
        InTable(n);
        NoIndirectMapped(Abs(), n);
        var r := GrowIndirect(n);
        if r.Enospc? {
          return ENOSPC, 0, [];
        }
        idblock := r.value;
        ZeroWords();
        idbuf := seq(128, _ => 0);
      } else {
        UnchangedRefl(Abs(), n);
        InTable(n);
        NoIndirectMapped(Abs(), n);
        SameSpaceRefl(Abs());
        SameGrew(Abs(), Abs(), n);
        OneOwner(Abs(), owner, reserved, IndirectSlot(n), IndirectSlot(n));
        idbuf := Words(disk[idblock]);
      }
    }

    /** sfs_bmap past the direct blocks. */
    method BmapIndirect(n: nat, fb: nat, doalloc: bool) returns (e: Errno, block: nat)
      requires Valid() && n in vnodes && NDIRECT <= fb
      modifies this, freemap.v
      ensures Valid() && live == old(live) && Unchanged(old(Abs()), Abs(), n) && SameRefs(old(vnodes), vnodes)
      ensures e == EINVAL <==> fb >= MAXBLOCKS
      ensures e == EINVAL ==> Abs() == old(Abs()) && vnodes == old(vnodes)
      ensures e == OK || e == ENOSPC || e == EINVAL
      ensures e == OK ==> block == BlockIn(Abs(), DataSlot(n, fb)) && (doalloc ==> block != 0)
      ensures doalloc ==> ChunkSpace(old(Abs()), Abs(), n, fb, e == ENOSPC)
      ensures (!doalloc || BlockIn(old(Abs()), DataSlot(n, fb)) != 0) && fb < MAXBLOCKS
              ==> e == OK && Abs() == old(Abs()) && vnodes == old(vnodes)
    {
      hide Words;
      hide DecodeInode;
      hide Used;
      hide MapOk;
      hide Stored;
      hide CacheOk;
      hide Listed;
      hide Table;
      hide Ownership;
      hide Unchanged;
      hide BlockIn;
      hide ChunkSpace;
      hide Grew;
      hide Free;
      hide Mapped;
      ghost var fs := Abs();
      UnchangedRefl(fs, n);
      InTable(n);
      BlockInIndirect(fs, n, fb);
      var idnum, idoff := (fb - NDIRECT) / DBPERIDB, (fb - NDIRECT) % DBPERIDB;
      if idnum > 0 {
        ChunkThere(fs, n, fb);
        return EINVAL, 0;
      }
      var e', idblock, idbuf := LoadIndirect(n, doalloc);
      if e' != OK || idblock == 0 {
        if e' == ENOSPC {
          EntryOfNothing(fs, n, fb);
          ChunkNoIndirect(fs, n, fb);
        }
        return e', 0;
      }
      ghost var mid := Abs();
      block := idbuf[idoff];
      InTable(n);
      BlockInIndirect(mid, n, fb);
      if block == 0 && doalloc {
        assert BlockIn(fs, DataSlot(n, fb)) == 0 by { StaysMapped(fs, mid, n, fb); }
        var r := GrowEntry(n, idoff, idbuf);
        UnchangedTwice(fs, mid, Abs(), n);
        ChunkEntry(fs, mid, Abs(), n, fb, r.Enospc?);
        if r.Enospc? {
          return ENOSPC, 0;
        }
        block := r.value;
      } else if block != 0 && doalloc {
        ThereBefore(fs, mid, n, fb);
        ChunkThere(fs, n, fb);
      }
      CheckUsed(DataSlot(n, fb), block);
      e := OK;
    }

    /** sfs_bmap: EINVAL exactly past the largest file, ENOSPC only on a full disk. */
    method Bmap(n: nat, fb: nat, doalloc: bool) returns (e: Errno, block: nat)
      requires Valid() && n in vnodes
      modifies this, freemap.v
      ensures Valid() && live == old(live) && Unchanged(old(Abs()), Abs(), n) && SameRefs(old(vnodes), vnodes)
      ensures e == EINVAL <==> fb >= MAXBLOCKS
      ensures e == EINVAL ==> Abs() == old(Abs()) && vnodes == old(vnodes)
      ensures e == OK || e == ENOSPC || e == EINVAL
      ensures e == OK ==> block == BlockIn(Abs(), DataSlot(n, fb)) && (doalloc ==> block != 0)
      ensures doalloc ==> ChunkSpace(old(Abs()), Abs(), n, fb, e == ENOSPC)
      ensures (!doalloc || BlockIn(old(Abs()), DataSlot(n, fb)) != 0) && fb < MAXBLOCKS
              ==> e == OK && Abs() == old(Abs()) && vnodes == old(vnodes)
    {
      hide Ownership;
      hide BlockIn;
      if fb < NDIRECT {
        e, block := BmapDirect(n, fb, doalloc);
      } else {
        e, block := BmapIndirect(n, fb, doalloc);
      }
    }

    // ----- File I/O

    /** Write blk to the block that holds byte `off` of file n. */
    method StoreChunk(n: nat, off: nat, diskblock: nat, blk: Block, ghost data: seq<Byte>)
      requires Valid() && n in vnodes && diskblock == BlockIn(Abs(), DataSlot(n, off / BLOCKSIZE))
        && 0 < diskblock < nblocks
      requires off % BLOCKSIZE + |data| <= BLOCKSIZE && blk == Patch(disk[diskblock], off % BLOCKSIZE, data)
      modifies this`disk
      ensures Valid() && Wrote(old(Abs()), Abs(), n, off, data) && SameSpace(old(Abs()), Abs())
    {
      hide SameSpace;
      hide Words;
      hide DecodeInode;
      hide Used;
      hide MapOk;
      hide Stored;
      ghost var fs := Abs();
      WroteChunk(fs, owner, reserved, n, off, blk, data);
      OneOwner(fs, owner, reserved, DataSlot(n, off / BLOCKSIZE), InodeSlot(diskblock));
      hide Ownership;
      hide Wrote;
      TableWrite(disk, vnodes, live, diskblock, blk);
      StoredElsewhere(disk, nblocks, reserved, freemapdirty, freemap.v[..], diskblock, blk);
      disk := disk[diskblock := blk];
      assert Abs() == WriteData(fs, n, off / BLOCKSIZE, blk);
    }

    /** sfs_partialio: I/O within one block, at the uio's offset. */
    method PartialIo(n: nat, uio: Uio, skip: nat, len: nat) returns (e: Errno)
      requires Valid() && n in vnodes && Ok(uio.State()) && len <= uio.resid
      requires uio.offset % BLOCKSIZE == skip && skip + len <= BLOCKSIZE
      modifies this, freemap.v, uio
      ensures Valid() && live == old(live) && SameRefs(old(vnodes), vnodes)
      ensures Progress(uio.write, old(Abs()), Abs(), n, old(uio.State()), uio.State(), if e == OK then len else 0)
      ensures e == EINVAL <==> old(uio.offset) >= MAXBYTES
      ensures e == OK || e == EINVAL || (e == ENOSPC && uio.write)
      ensures uio.write ==> ChunkSpace(old(Abs()), Abs(), n, old(uio.offset) / BLOCKSIZE, e == ENOSPC)
    {
      hide ChunkSpace;
      hide SameSpace;
      hide FileBytes;
      hide ByteAt;
      hide Ownership;
      hide BlockIn;
      hide Valid;
      hide Inodes;
      hide Full;
      hide Wrote;
      hide Unchanged;
      ghost var fs, u := Abs(), uio.State();
      var off := uio.offset;
      var err, diskblock := Bmap(n, off / BLOCKSIZE, uio.write);
      if err != OK {
        NoProgress(uio.write, fs, Abs(), n, u);
        return err;
      }
      var iobuf: Block;
      if diskblock == 0 {
        iobuf := ZeroBlock();
      } else {
        OwnershipFacts();
        OneOwner(Abs(), owner, reserved, DataSlot(n, off / BLOCKSIZE), DataSlot(n, off / BLOCKSIZE));
        iobuf := disk[diskblock];
      }
      ChunkBytes(Abs(), n, off, len, iobuf);
      var out := uio.Move(iobuf[skip..], len);
      if uio.write {
        ghost var mid, data := Abs(), Next(u, len);
        assert iobuf[..skip] + out == Patch(iobuf, skip, data);
        StoreChunk(n, off, diskblock, iobuf[..skip] + out, data);
        ChunkSame(fs, mid, Abs(), n, off / BLOCKSIZE, false);
        WroteNothing(fs, mid, n, off);
        WroteTwice(fs, mid, Abs(), n, off, [], data);
        assert [] + data == data;
      }
      e := OK;
    }

    /** sfs_blockio: I/O of one whole block, straight between the disk and the uio. */
    method BlockIo(n: nat, uio: Uio) returns (e: Errno)
      requires Valid() && n in vnodes && Ok(uio.State()) && BLOCKSIZE <= uio.resid && uio.offset % BLOCKSIZE == 0
      modifies this, freemap.v, uio
      ensures Valid() && live == old(live) && SameRefs(old(vnodes), vnodes)
      ensures Progress(uio.write, old(Abs()), Abs(), n, old(uio.State()), uio.State(), if e == OK then BLOCKSIZE else 0)
      ensures e == EINVAL <==> old(uio.offset) >= MAXBYTES
      ensures e == OK || e == EINVAL || (e == ENOSPC && uio.write)
      ensures uio.write ==> ChunkSpace(old(Abs()), Abs(), n, old(uio.offset) / BLOCKSIZE, e == ENOSPC)
    {
      hide ChunkSpace;
      hide SameSpace;
      hide FileBytes;
      hide ByteAt;
      hide Ownership;
      hide BlockIn;
      hide Valid;
      hide Inodes;
      hide Full;
      hide Wrote;
      hide Unchanged;
      ghost var fs, u := Abs(), uio.State();
      var off := uio.offset;
      var err, diskblock := Bmap(n, off / BLOCKSIZE, uio.write);
      if err != OK {
        NoProgress(uio.write, fs, Abs(), n, u);
        return err;
      }
      if diskblock == 0 {
        ChunkBytes(Abs(), n, off, BLOCKSIZE, ZeroBlock());
        assert Zeros(BLOCKSIZE) == ZeroBlock()[0..][..BLOCKSIZE];
        uio.MoveZeros(BLOCKSIZE);
        return OK;
      }
      OwnershipFacts();
      OneOwner(Abs(), owner, reserved, DataSlot(n, off / BLOCKSIZE), DataSlot(n, off / BLOCKSIZE));
      var blk := disk[diskblock];
      ChunkBytes(Abs(), n, off, BLOCKSIZE, blk);
      assert blk == blk[0..][..BLOCKSIZE];
      var out := DeviceIo(uio, diskblock, blk);
      if uio.write {
        ghost var mid, data := Abs(), Next(u, BLOCKSIZE);
        assert out == Patch(blk, 0, data);
        StoreChunk(n, off, diskblock, out, data);
        ChunkSame(fs, mid, Abs(), n, off / BLOCKSIZE, false);
        WroteNothing(fs, mid, n, off);
        WroteTwice(fs, mid, Abs(), n, off, [], data);
        assert [] + data == data;
      }
      e := OK;
    }

    /** sfs_rwblock as sfs_blockio calls it: the device sees the disk offset and a
        residue of one block; both are put back, advanced by what was moved. */
    method DeviceIo(uio: Uio, diskblock: nat, blk: Block) returns (out: seq<Byte>)
      requires Ok(uio.State()) && BLOCKSIZE <= uio.resid
      modifies uio
      ensures uio.write ==>
        out == Next(old(uio.State()), BLOCKSIZE) && uio.State() == Advance(old(uio.State()), BLOCKSIZE)
      ensures !uio.write ==> uio.State() == Deliver(old(uio.State()), blk)
    {
      var saveoff, saveres := uio.offset, uio.resid;
      uio.offset := diskblock * BLOCKSIZE;
      uio.resid := BLOCKSIZE;
      out := uio.Move(blk, BLOCKSIZE);
      assert blk[..BLOCKSIZE] == blk && blk[BLOCKSIZE..] == [];
      uio.offset := uio.offset - diskblock * BLOCKSIZE + saveoff;
      uio.resid := uio.resid + saveres - BLOCKSIZE;
    }

    /** Whole blocks of sfs_io. */
    method WholeBlocks(n: nat, uio: Uio, nblks: nat) returns (e: Errno)
      requires Valid() && n in vnodes && Ok(uio.State()) && uio.offset % BLOCKSIZE == 0
        && nblks * BLOCKSIZE <= uio.resid
      modifies this, freemap.v, uio
      ensures Valid() && live == old(live) && SameRefs(old(vnodes), vnodes)
      ensures uio.resid <= old(uio.resid) && Ok(uio.State())
      ensures Progress(uio.write, old(Abs()), Abs(), n, old(uio.State()), uio.State(), old(uio.resid) - uio.resid)
      ensures e == OK ==> uio.resid == old(uio.resid) - nblks * BLOCKSIZE
      ensures uio.resid < old(uio.resid) ==> uio.offset <= MAXBYTES
      ensures e != OK ==> uio.resid > 0
      ensures e == EINVAL ==> uio.offset >= MAXBYTES
      ensures e != OK ==> uio.offset % BLOCKSIZE == 0 && old(uio.offset) <= uio.offset
      ensures e == OK || e == EINVAL || (e == ENOSPC && uio.write)
      ensures uio.write ==>
        var lo := old(uio.offset) / BLOCKSIZE;
        RangeSpace(old(Abs()), Abs(), n, lo, if e == OK then lo + nblks else uio.offset / BLOCKSIZE, e == ENOSPC)
    {
      hide RangeSpace;
      hide ChunkSpace;
      hide Valid;
      hide Abs;
      hide Full;
      hide Progress;
      hide Unchanged;
      ghost var fs, u := Abs(), uio.State();
      ghost var lo := u.offset / BLOCKSIZE;
      UnchangedRefl(fs, n);
      NoProgress(uio.write, fs, fs, n, u);
      SameSpaceRefl(fs);
      RangeNone(fs, fs, n, lo);
      hide SameSpace;
      var i := 0;
      while i < nblks
        invariant 0 <= i <= nblks && Valid() && n in vnodes && live == old(live) && SameRefs(old(vnodes), vnodes)
        invariant Progress(uio.write, fs, Abs(), n, u, uio.State(), i * BLOCKSIZE)
        invariant i > 0 ==> u.offset + i * BLOCKSIZE <= MAXBYTES
        invariant uio.write ==> RangeSpace(fs, Abs(), n, lo, lo + i, false)
      {
        ghost var mid, v := Abs(), uio.State();
        ProgressOk(uio.write, fs, mid, n, u, v, i * BLOCKSIZE);
        BlockAligned(u.offset, i);
        e := BlockIo(n, uio);
        if uio.write { RangeStep(fs, mid, Abs(), n, lo, lo + i, e == ENOSPC); }
        ghost var j := if e == OK then BLOCKSIZE else 0;
        ProgressTwice(uio.write, fs, mid, Abs(), n, u, v, uio.State(), i * BLOCKSIZE, j);
        if e != OK {
          ProgressOk(uio.write, fs, Abs(), n, u, uio.State(), i * BLOCKSIZE);
          if uio.write && e == EINVAL { RangePast(fs, Abs(), n, lo, lo + i); }
          return;
        }
        i := i + 1;
      }
      ProgressOk(uio.write, fs, Abs(), n, u, uio.State(), i * BLOCKSIZE);
      e := OK;
    }

    /** The body of sfs_io: leading partial block, whole blocks, trailing partial block. */
    method IoChunks(n: nat, uio: Uio) returns (e: Errno)
      requires Valid() && n in vnodes && Ok(uio.State())
      modifies this, freemap.v, uio
      ensures Valid() && live == old(live) && SameRefs(old(vnodes), vnodes)
      ensures uio.resid <= old(uio.resid)
      ensures Progress(uio.write, old(Abs()), Abs(), n, old(uio.State()), uio.State(), old(uio.resid) - uio.resid)
      ensures IoResult(old(uio.State()), uio.State(), e)
      ensures e == OK || e == EINVAL || (e == ENOSPC && uio.write)
      ensures uio.write ==> WriteSpace(old(Abs()), Abs(), n, old(uio.State()), uio.State(), e)
    {
      hide Valid;
      hide Abs;
      hide Full;
      hide Progress;
      hide Unchanged;
      hide RangeSpace;
      hide ChunkSpace;
      ghost var fs, u := Abs(), uio.State();
      ghost var lo := u.offset / BLOCKSIZE;
      UnchangedRefl(fs, n);
      NoProgress(uio.write, fs, fs, n, u);
      SameSpaceRefl(fs);
      RangeNone(fs, fs, n, lo);
      hide SameSpace;
      ghost var k := 0;
      var blkoff := uio.offset % BLOCKSIZE;
      if blkoff != 0 {
        var len := BLOCKSIZE - blkoff;
        if len > uio.resid {
          len := uio.resid;
        }
        e := PartialIo(n, uio, blkoff, len);
        k := if e == OK then len else 0;
        ProgressOk(uio.write, fs, Abs(), n, u, uio.State(), k);
        if uio.write { RangeStep(fs, fs, Abs(), n, lo, lo, e == ENOSPC); }
        FirstChunk(u.offset, u.resid, len);
        if e != OK {
          if uio.write && e == EINVAL { RangePast(fs, Abs(), n, lo, lo); }
          return;
        }
        ChunkEnd(u.offset, len);
      }
      if uio.resid == 0 {
        return OK;
      }
      e := AlignedIo(n, uio, fs, u, k);
    }

    /** sfs_io from the first block boundary on, after k bytes. */
    method AlignedIo(n: nat, uio: Uio, ghost fs: Fs, ghost u: U, ghost k: nat) returns (e: Errno)
      requires Valid() && n in vnodes && Ok(uio.State()) && uio.offset % BLOCKSIZE == 0 && uio.resid > 0
      requires Progress(uio.write, fs, Abs(), n, u, uio.State(), k) && k == u.resid - uio.resid
      requires k > 0 ==> uio.offset <= MAXBYTES
      requires uio.write ==> RangeSpace(fs, Abs(), n, u.offset / BLOCKSIZE, uio.offset / BLOCKSIZE, false)
      modifies this, freemap.v, uio
      ensures Valid() && live == old(live) && SameRefs(old(vnodes), vnodes)
      ensures uio.resid <= u.resid && Progress(uio.write, fs, Abs(), n, u, uio.State(), u.resid - uio.resid)
      ensures IoResult(u, uio.State(), e)
      ensures e == OK || e == EINVAL || (e == ENOSPC && uio.write)
      ensures uio.write ==> WriteSpace(fs, Abs(), n, u, uio.State(), e)
    {
      hide Valid;
      hide Abs;
      hide Full;
      hide Progress;
      hide Unchanged;
      hide RangeSpace;
      hide ChunkSpace;
      hide IoResult;
      hide BlockEnd;
      ghost var a, ua, lo := Abs(), uio.State(), u.offset / BLOCKSIZE;
      ProgressOk(uio.write, fs, a, n, u, ua, k);
      var nblks := uio.resid / BLOCKSIZE;
      e := WholeBlocks(n, uio, nblks);
      ghost var b, ub := Abs(), uio.State();
      ProgressOk(uio.write, a, b, n, ua, ub, ua.resid - ub.resid);
      ProgressTwice(uio.write, fs, a, b, n, u, ua, ub, k, ua.resid - ub.resid);
      BlockAligned(ua.offset, nblks);
      ghost var m := if e == OK then ua.offset / BLOCKSIZE + nblks else ub.offset / BLOCKSIZE;
      if uio.write { RangeTwice(fs, a, b, n, lo, ua.offset / BLOCKSIZE, m, e == ENOSPC); }
      if e != OK || uio.resid == 0 {
        EndsAligned(u, ub, e);
        return;
      }
      e := LastIo(n, uio, fs, u);
    }

    /** The trailing partial block of sfs_io. */
    method LastIo(n: nat, uio: Uio, ghost fs: Fs, ghost u: U) returns (e: Errno)
      requires Valid() && n in vnodes && Ok(uio.State()) && uio.offset % BLOCKSIZE == 0 && 0 < uio.resid < BLOCKSIZE
      requires uio.resid <= u.resid && Progress(uio.write, fs, Abs(), n, u, uio.State(), u.resid - uio.resid)
      requires uio.resid < u.resid ==> uio.offset <= MAXBYTES
      requires uio.write ==> RangeSpace(fs, Abs(), n, u.offset / BLOCKSIZE, uio.offset / BLOCKSIZE, false)
      modifies this, freemap.v, uio
      ensures Valid() && live == old(live) && SameRefs(old(vnodes), vnodes)
      ensures uio.resid <= u.resid && Progress(uio.write, fs, Abs(), n, u, uio.State(), u.resid - uio.resid)
      ensures IoResult(u, uio.State(), e)
      ensures e == OK || e == EINVAL || (e == ENOSPC && uio.write)
      ensures uio.write ==> WriteSpace(fs, Abs(), n, u, uio.State(), e)
    {
      hide Valid;
      hide Abs;
      hide Full;
      hide Progress;
      hide Unchanged;
      hide RangeSpace;
      hide ChunkSpace;
      hide IoResult;
      hide BlockEnd;
      ghost var b, ub := Abs(), uio.State();
      ghost var lo, m := u.offset / BLOCKSIZE, ub.offset / BLOCKSIZE;
      ProgressOk(uio.write, fs, b, n, u, ub, u.resid - ub.resid);
      var len := uio.resid;
      e := PartialIo(n, uio, 0, len);
      ghost var j := if e == OK then len else 0;
      ProgressOk(uio.write, b, Abs(), n, ub, uio.State(), j);
      ProgressTwice(uio.write, fs, b, Abs(), n, u, ub, uio.State(), u.resid - ub.resid, j);
      if uio.write {
        RangeStep(fs, b, Abs(), n, lo, m, e == ENOSPC);
        if e == EINVAL { RangePast(fs, Abs(), n, lo, m); }
      }
      EndsInside(u, ub, uio.State(), e);
    }

    /** Change fields of the loaded inode n other than its pointers. */
    method UpdateInode(n: nat, i: Inode)
      requires Valid() && n in vnodes && SamePointers(i, vnodes[n].inode)
      modifies this`vnodes
      ensures Valid() && Abs() == old(Abs()).(inodes := old(Inodes())[n := i]) && SameRefs(old(vnodes), vnodes)
      ensures SameBytes(old(Abs()), Abs()) && forall s :: BlockIn(Abs(), s) == BlockIn(old(Abs()), s)
      ensures vnodes[n] == old(vnodes)[n].(inode := i, dirty := true) && forall m :: m in vnodes && m != n ==>
        vnodes[m] == old(vnodes)[m]
    {
      hide Ownership;
      hide SameBytes;
      hide BlockIn;
      hide DecodeInode;
      hide Used;
      hide MapOk;
      hide Stored;
      hide CacheOk;
      hide Listed;
      hide SameRefs;
      hide Table;
      VnodeFacts(n);
      ListedVnode(vtable, vnodes, n, vnodes[n].(inode := i, dirty := true));
      MetaOk(Abs(), owner, reserved, n, i);
      TableVnode(disk, vnodes, live, n, vnodes[n].(inode := i, dirty := true));
      vnodes := vnodes[n := vnodes[n].(inode := i, dirty := true)];
    }

    /** sfs_write: changes exactly the bytes it moved, and the size if it ends past
        it. It falls short only at the largest file size or on a full disk. */
    method Write(n: nat, uio: Uio) returns (e: Errno)
      requires Valid() && n in vnodes && Ok(uio.State()) && uio.write
      requires uio.offset < 0x8000_0000 && vnodes[n].inode.size < 0x8000_0000
      modifies this, freemap.v, uio
      ensures Valid() && live == old(live) && SameRefs(old(vnodes), vnodes)
      ensures WriteDone(old(Abs()), Abs(), n, old(uio.State()), uio.State(), e)
      ensures e == OK || e == EINVAL || e == ENOSPC
    {
      hide RangeSpace;
      hide SameSpace;
      hide BlockEnd;
      hide Valid;
      hide Abs;
      hide Full;
      hide Wrote;
      hide FileWritten;
      hide IoResult;
      ghost var fs, u := Abs(), uio.State();
      InTable(n);
      e := IoChunks(n, uio);
      assert uio.resid <= u.resid by { ResultOk(u, uio.State(), e); }
      ghost var data := Next(u, u.resid - uio.resid);
      if data != [] { WroteBelowMax(fs, Abs(), n, u.offset, data); }
      ProgressOk(true, fs, Abs(), n, u, uio.State(), u.resid - uio.resid);
      ghost var mid := Abs();
      GrowSize(n, uio.offset, fs, u.offset, data);
      RangeSame(fs, mid, Abs(), n, u.offset / BLOCKSIZE,
                if e == OK then BlockEnd(u.offset, u.resid) else uio.offset / BLOCKSIZE, e == ENOSPC);
    }

    lemma InTable(n: nat)
      requires Valid() && n in vnodes
      ensures n in Inodes() && Inodes()[n] == vnodes[n].inode && n in Abs().inodes && Abs().inodes[n] == vnodes[n].inode
    {
    }

    lemma VnodeFacts(n: nat)
      requires Valid() && n in vnodes
      ensures Inodes().Keys == live && n in live && Inodes()[n] == vnodes[n].inode
      ensures vnodes[n].refcount > 0 && InodeOk(vnodes[n].inode)
    {
    }

    lemma TableFacts()
      requires Valid()
      ensures Abs().inodes == Inodes() && Abs().inodes.Keys == live && NOINO !in live && vnodes.Keys <= live
      ensures forall n :: n in live ==> Abs().inodes[n] == Current(n)
      ensures forall n :: n in vnodes ==> vnodes[n].refcount > 0
    {
      hide Ownership;
      hide DecodeInode;
    }

    lemma OwnershipFacts()
      requires Valid()
      ensures Ownership(Abs(), owner, reserved) && |disk| == nblocks
    {
    }

    /** sfs_read: delivers exactly the bytes of the file in its range, up to the end
        of the file, and changes nothing. */
    method Read(n: nat, uio: Uio) returns (e: Errno)
      requires Valid() && n in vnodes && Ok(uio.State()) && !uio.write && uio.offset < 0x8000_0000 && uio.resid < TWO32
      modifies this, freemap.v, uio
      ensures Valid() && live == old(live) && SameRefs(old(vnodes), vnodes) && Abs() == old(Abs())
      ensures ReadDone(Abs(), n, old(uio.State()), uio.State(), e)
    {
      hide Valid;
      hide Abs;
      hide Full;
      hide Wrote;
      hide FileBytes;
      hide IoResult;
      hide ReadDone;
      hide ReadLength;
      hide ToSigned;
      hide ToWord;
      hide Deliver;
      hide Inodes;
      ghost var fs, u := Abs(), uio.State();
      InTable(n);
      var size := ToSigned(vnodes[n].inode.size);
      var endpos := ToSigned(ToWord(uio.offset + uio.resid));
      if uio.offset >= size {
        ReadAtEnd(fs, n, u);
        return OK;
      }
      ReadExtra(vnodes[n].inode.size, uio.offset, uio.resid);
      var extraresid := 0;
      if endpos > size {
        extraresid := endpos - size;
        assert uio.resid > extraresid;
        uio.resid := uio.resid - extraresid;
      }
      ghost var v := uio.State();
      e := IoChunks(n, uio);
      ReadCut(fs, n, u, v, uio.State(), e, extraresid);
      uio.resid := uio.resid + extraresid;
    }

    /** The end of sfs_io for a write that has reached offset `end`. */
    method GrowSize(n: nat, end: nat, ghost fs: Fs, ghost off: nat, ghost data: seq<Byte>)
      requires Valid() && n in vnodes && n in fs.inodes && end < 0x8000_0000 && fs.inodes[n].size < 0x8000_0000
      requires Wrote(fs, Abs(), n, off, data) && end == off + |data|
      modifies this`vnodes
      ensures Valid() && FileWritten(fs, Abs(), n, off, data) && SameRefs(old(vnodes), vnodes)
      ensures SameSpace(old(Abs()), Abs())
    {
      hide SameSpace;
      hide Ownership;
      hide BlockIn;
      hide ByteAt;
      hide DecodeInode;
      hide Used;
      hide MapOk;
      hide Stored;
      ghost var mid := Abs();
      assert mid.inodes[n].size == fs.inodes[n].size;
      SameSpaceRefl(mid);
      if end > ToSigned(vnodes[n].inode.size) {
        UpdateInode(n, vnodes[n].inode.(size := end));
        SlotsSame(mid, Abs());
      }
      assert mid.inodes[n].size == fs.inodes[n].size;
      WrittenFromWrote(fs, mid, Abs(), n, off, data);
    }

    // ----- Truncation

    /** sfs_truncate to length 0: every block of the file is freed once, no other is. */
    method Truncate(n: nat)
      requires Valid() && n in vnodes
      modifies this, freemap.v
      ensures Valid() && Abs() == FreeFile(old(Abs()), n, Emptied(old(vnodes)[n].inode))
      ensures live == old(live) && disk == old(disk) && SameRefs(old(vnodes), vnodes) && vtable == old(vtable)
      ensures forall m :: m in vnodes && m != n ==> vnodes[m] == old(vnodes)[m]
      ensures vnodes[n].inode == Emptied(old(vnodes)[n].inode)
    {
      hide Ownership;
      hide BlockIn;
      hide ByteAt;
      hide FileBlocks;
      hide BlocksBelow;
      hide DecodeInode;
      hide Words;
      hide Used;
      hide MapOk;
      hide Stored;
      hide CacheOk;
      hide Listed;
      hide SameRefs;
      hide Table;
      ghost var fs := Abs();
      VnodeFacts(n);
      FreeDirect(n);
      FreeIndirect(n, fs, old(vnodes)[n].inode);
      ghost var i := Emptied(old(vnodes)[n].inode);
      var v := vnodes[n].(inode := vnodes[n].inode.(size := 0), dirty := true);
      assert v.inode == i;
      TableVnode(disk, old(vnodes), live, n, v);
      ListedVnode(vtable, old(vnodes), n, v);
      vnodes := vnodes[n := v];
      assert vnodes == old(vnodes)[n := v];
      FreeFileOk(fs, owner, reserved, n, i);
      if freemapdirty {
        StoredDirty(disk, nblocks, reserved, old(freemapdirty), old(freemap.v[..]), freemap.v[..]);
      }
      owner := Without(owner, FileBlocks(fs, n));
      assert Abs() == FreeFile(fs, n, i);
    }

    /** The loop over the direct blocks. */
    method FreeDirect(n: nat)
      requires Valid() && n in vnodes
      modifies this`vnodes, this`freemapdirty, freemap.v
      ensures MapOk() && Used() == old(Used()) - BlocksBelow(old(Abs()), n, NDIRECT)
      ensures freemapdirty || (!old(freemapdirty) && freemap.v[..] == old(freemap.v[..]))
      ensures n in vnodes && vnodes == old(vnodes)[n := vnodes[n]] && vnodes[n].refcount == old(vnodes)[n].refcount
      ensures vnodes[n].inode == old(vnodes)[n].inode.(direct := seq(15, _ => 0))
    {
      hide Ownership;
      hide BlocksBelow;
      hide DecodeInode;
      hide Words;
      hide Used;
      hide MapOk;
      hide Stored;
      ghost var fs, i0 := Abs(), vnodes[n].inode;
      InTable(n);
      assert BlocksBelow(fs, n, 0) == {} by { NoneBelow(fs, n); }
      var blocklen := 0;
      var i := 0;
      while i < NDIRECT
        invariant 0 <= i <= NDIRECT && MapOk() && Used() == fs.used - BlocksBelow(fs, n, i)
        invariant freemapdirty || (!old(freemapdirty) && freemap.v[..] == old(freemap.v[..]))
        invariant n in vnodes && vnodes == old(vnodes)[n := vnodes[n]] && vnodes[n].refcount == old(vnodes)[n].refcount
        invariant vnodes[n].inode == i0.(direct := vnodes[n].inode.direct) && |vnodes[n].inode.direct| == NDIRECT
        invariant forall fb :: 0 <= fb < NDIRECT ==> vnodes[n].inode.direct[fb] == if fb < i then 0 else i0.direct[fb]
      {
        var block := vnodes[n].inode.direct[i];
        BlocksBelowStep(fs, owner, reserved, n, i);
        assert BlockIn(fs, DataSlot(n, i)) == block;
        if i >= blocklen && block != 0 {
          Bfree(block);
          vnodes := vnodes[n := vnodes[n].(inode := WithDirect(vnodes[n].inode, i, 0), dirty := true)];
        }
        i := i + 1;
      }
      assert vnodes[n].inode.direct == seq(15, _ => 0);
    }

    /** The indirect block: all its entries, then itself. fs is the state before. */
    method FreeIndirect(n: nat, ghost fs: Fs, ghost i0: Inode)
      requires Ownership(fs, owner, reserved) && fs.disk == disk && |disk| == nblocks && n in vnodes && n in fs.inodes
        && fs.inodes[n] == i0
      requires MapOk() && Used() == fs.used - BlocksBelow(fs, n, NDIRECT) && vnodes[n].inode.indirect == i0.indirect
      modifies this`vnodes, this`freemapdirty, freemap.v
      ensures MapOk() && Used() == fs.used - FileBlocks(fs, n)
      ensures freemapdirty || (!old(freemapdirty) && freemap.v[..] == old(freemap.v[..]))
      ensures n in vnodes && vnodes == old(vnodes)[n := vnodes[n]] && vnodes[n].refcount == old(vnodes)[n].refcount
      ensures vnodes[n].inode == old(vnodes)[n].inode.(indirect := 0)
    {
      hide Ownership;
      hide BlocksBelow;
      hide FileBlocks;
      hide Words;
      hide Used;
      hide MapOk;
      hide Stored;
      var idblock := vnodes[n].inode.indirect;
      AllBlocksBelow(fs, owner, reserved, n);
      assert BlockIn(fs, IndirectSlot(n)) == idblock;
      var blocklen, baseblock, highblock := 0, NDIRECT, NDIRECT + DBPERIDB - 1;
      if blocklen < highblock && idblock != 0 {
        var idbuf := Words(disk[idblock]);
        var hasnonzero := false;
        var j := 0;
        while j < DBPERIDB
          invariant 0 <= j <= DBPERIDB && MapOk() && Used() == fs.used - BlocksBelow(fs, n, NDIRECT + j)
          invariant |idbuf| == DBPERIDB && !hasnonzero && vnodes == old(vnodes)
          invariant freemapdirty || (!old(freemapdirty) && freemap.v[..] == old(freemap.v[..]))
          invariant forall k :: 0 <= k < DBPERIDB ==> idbuf[k] == if k < j then 0 else Words(disk[idblock])[k]
        {
          BlocksBelowStep(fs, owner, reserved, n, NDIRECT + j);
          assert BlockIn(fs, DataSlot(n, NDIRECT + j)) == idbuf[j];
          if blocklen < baseblock + j && idbuf[j] != 0 {
            Bfree(idbuf[j]);
            idbuf := idbuf[j := 0];
          }
          if idbuf[j] != 0 {
            hasnonzero := true;
          }
          j := j + 1;
        }
        if !hasnonzero {
          Bfree(idblock);
          vnodes := vnodes[n := vnodes[n].(inode := vnodes[n].inode.(indirect := 0), dirty := true)];
        }
      } else {
        NoIndirect(fs, n);
      }
    }

    lemma NoIndirect(fs: Fs, n: nat)
      requires n in fs.inodes && fs.inodes[n].indirect == 0
      ensures BlocksBelow(fs, n, NDIRECT) == BlocksBelow(fs, n, MAXBLOCKS)
    {
      hide Words;
      assert forall fb :: NDIRECT <= fb < MAXBLOCKS ==> BlockIn(fs, DataSlot(n, fb)) == 0;
    }

    // ----- The table of loaded vnodes

    /** sfs_sync_inode: afterwards the disk holds the inode; no file changes. */
    method SyncInode(n: nat)
      requires Valid() && n in vnodes
      modifies this`disk, this`vnodes
      ensures Valid() && Inodes() == old(Inodes()) && SameBytes(old(Abs()), Abs())
      ensures forall s :: BlockIn(Abs(), s) == BlockIn(old(Abs()), s)
      ensures vnodes == old(vnodes)[n := old(vnodes)[n].(dirty := false)] && InodeAt(disk, n) == vnodes[n].inode
    {
      hide Ownership;
      hide SameBytes;
      hide BlockIn;
      hide DecodeInode;
      hide EncodeInode;
      hide Used;
      hide MapOk;
      hide Stored;
      hide Table;
      ghost var fs := Abs();
      InTable(n);
      if vnodes[n].dirty {
        InodeBlock(n);
        WriteInodeOk(fs, owner, reserved, n, EncodeInode(vnodes[n].inode));
        TableSync(disk, vnodes, live, n);
        StoredElsewhere(disk, nblocks, reserved, freemapdirty, freemap.v[..], n, EncodeInode(vnodes[n].inode));
        disk := disk[n := EncodeInode(vnodes[n].inode)];
        vnodes := vnodes[n := vnodes[n].(dirty := false)];
        assert Abs() == fs.(disk := disk);
      } else {
        assert vnodes == vnodes[n := vnodes[n].(dirty := false)];
        assert SameBytes(fs, fs) by { UnchangedRefl(fs, 0); }
      }
    }

    /** Write block j of the free map. */
    method StoreMapBlock(j: nat)
      requires Valid() && freemapdirty && j < BitBlocks(nblocks)
      modifies this`disk
      ensures Valid() && Inodes() == old(Inodes()) && SameBytes(old(Abs()), Abs())
      ensures forall s :: BlockIn(Abs(), s) == BlockIn(old(Abs()), s)
      ensures BLOCKSIZE * (j + 1) <= freemap.v.Length && MAP_LOCATION + j < |disk|
      ensures disk == old(disk)[MAP_LOCATION + j := MapBlock(freemap.v[..], j)]
    {
      hide Ownership;
      hide SameBytes;
      hide BlockIn;
      hide DecodeInode;
      hide Used;
      hide MapOk;
      ghost var fs := Abs();
      MapFacts(j);
      hide Stored;
      var b, blk := MAP_LOCATION + j, MapBlock(freemap.v[..], j);
      WriteReservedOk(fs, owner, reserved, b, blk);
      StoredMapBlock(disk, nblocks, reserved, freemap.v[..], j, blk);
      TableWrite(disk, vnodes, live, b, blk);
      disk := disk[b := blk];
      assert Abs() == fs.(disk := disk);
    }

    lemma MapFacts(j: nat)
      requires Valid() && j < BitBlocks(nblocks)
      ensures MAP_LOCATION + BitBlocks(nblocks) <= |disk| && freemap.v.Length == BLOCKSIZE * BitBlocks(nblocks)
      ensures MAP_LOCATION + j in reserved
    {
      hide Ownership;
      assert InMap(MAP_LOCATION + j, nblocks);
    }

    /** The end of sfs_sync: the free map is written if it is dirty (sfs_mapio, writing). */
    method SyncMap()
      requires Valid()
      modifies this`disk, this`freemapdirty
      ensures Valid() && !freemapdirty && Inodes() == old(Inodes()) && SameBytes(old(Abs()), Abs())
      ensures forall s :: BlockIn(Abs(), s) == BlockIn(old(Abs()), s)
    {
      hide Ownership;
      hide SameBytes;
      hide BlockIn;
      hide DecodeInode;
      hide Used;
      hide MapOk;
      hide CacheOk;
      hide Listed;
      hide Table;
      ghost var fs := Abs();
      assert SameBytes(fs, fs) by { UnchangedRefl(fs, 0); }
      if freemapdirty {
        var j := 0;
        while j < BitBlocks(nblocks)
          invariant 0 <= j <= BitBlocks(nblocks) && Valid() && freemapdirty && Inodes() == fs.inodes
            && SameBytes(fs, Abs())
          invariant forall s :: BlockIn(Abs(), s) == BlockIn(fs, s)
          invariant freemap.v.Length == BLOCKSIZE * BitBlocks(nblocks) && MAP_LOCATION + BitBlocks(nblocks) <= |disk|
          invariant forall k :: 0 <= k < j ==> MapBlock(freemap.v[..], k) == disk[MAP_LOCATION + k]
        {
          ghost var mid := Abs();
          StoreMapBlock(j);
          SameBytesTwice(fs, mid, Abs());
          j := j + 1;
        }
        freemapdirty := false;
      }
    }

    /** sfs_sync: afterwards every loaded inode and the free map are on disk, and no file has changed. */
    method Sync()
      requires Valid()
      modifies this`disk, this`vnodes, this`freemapdirty
      ensures Valid() && !freemapdirty && Inodes() == old(Inodes()) && SameBytes(old(Abs()), Abs())
      ensures forall s :: BlockIn(Abs(), s) == BlockIn(old(Abs()), s)
      ensures SameRefs(old(vnodes), vnodes) && forall n :: n in vnodes ==> !vnodes[n].dirty
    {
      hide Valid;
      hide Inodes;
      hide SameBytes;
      hide BlockIn;
      hide Abs;
      ghost var fs := Abs();
      assert SameBytes(fs, fs) by { UnchangedRefl(fs, 0); }
      ListedFacts();
      var i := 0;
      while i < |vtable|
        invariant 0 <= i <= |vtable| && Valid() && Inodes() == old(Inodes()) && SameBytes(fs, Abs())
        invariant forall s :: BlockIn(Abs(), s) == BlockIn(fs, s)
        invariant SameRefs(old(vnodes), vnodes) && forall k :: 0 <= k < |vtable| ==> vtable[k] in vnodes
        invariant forall k :: 0 <= k < i ==> !vnodes[vtable[k]].dirty
      {
        ghost var mid := Abs();
        SyncInode(vtable[i]);
        SameBytesTwice(fs, mid, Abs());
        i := i + 1;
      }
      ListedFacts();
      ghost var mid := Abs();
      SyncMap();
      SameBytesTwice(fs, mid, Abs());
    }

    lemma ListedFacts()
      requires Valid()
      ensures forall n :: n in vnodes ==> exists k :: 0 <= k < |vtable| && vtable[k] == n
      ensures forall k :: 0 <= k < |vtable| ==> vtable[k] in vnodes
    {
      hide Ownership;
      forall n | n in vnodes ensures exists k :: 0 <= k < |vtable| && vtable[k] == n {
        assert n in vtable;
      }
    }

    /** After sfs_sync the disk alone holds the file system. */
    lemma Synced()
      requires Valid() && !freemapdirty && forall n :: n in vnodes ==> !vnodes[n].dirty
      ensures ImageOk(disk, live, owner) && ImageFs(disk, live) == Abs()
    {
      hide Ownership;
      hide DecodeInode;
      hide MapBytes;
      StoredMap(disk, reserved, freemap.v[..]);
      hide Bitmap.IsSet;
      assert Table(disk, map[], live) == Inodes();
      BeyondEnd();
      assert ImageFs(disk, live).used == Used();
    }

    /** Bits past the last block are marked. */
    lemma BeyondEnd()
      requires MapOk()
      ensures forall b :: nblocks <= b < 8 * freemap.v.Length ==> b in Bitmap.Marked(freemap.v[..])
    {
      hide Bitmap.Marked;
      forall b | nblocks <= b < 8 * freemap.v.Length ensures b in Bitmap.Marked(freemap.v[..]) {
        if b < freemap.nbits { assert b in freemap.Bits(); }
      }
    }

    /** The block of a live inode is in range and in use. */
    lemma InodeBlock(n: nat)
      requires Valid() && n in live
      ensures 0 < n < nblocks < 0x1_0000_0000 && n in Used() && n !in reserved
    {
      assert BlockIn(Abs(), InodeSlot(n)) == n;
      OneOwner(Abs(), owner, reserved, InodeSlot(n), InodeSlot(n));
    }

    /** The search loop of sfs_loadvnode. The panic about unallocated blocks cannot happen. */
    method FindVnode(n: nat) returns (found: bool)
      requires Valid()
      ensures found <==> n in vnodes
    {
      hide Ownership;
      hide BlockIn;
      hide DecodeInode;
      hide Used;
      hide MapOk;
      hide Stored;
      var i := 0;
      while i < |vtable|
        invariant 0 <= i <= |vtable|
        invariant forall k :: 0 <= k < i ==> vtable[k] != n
      {
        var m := vtable[i];
        assert m in vtable;
        InodeBlock(m);
        var used := Bused(m);
        if !used {
          assert false;  // panic: found inode in unallocated block
        }
        if m == n {
          return true;
        }
        i := i + 1;
      }
      assert n !in vtable;
      found := false;
    }

    /** sfs_loadvnode: find inode n in the table, or load it. A new object is given its type. */
    method LoadVnode(n: nat, forcetype: nat)
      requires Valid() && n in live && forcetype <= TYPE_DIR
      requires forcetype == TYPE_INVAL ==> Current(n).itype == TYPE_FILE || Current(n).itype == TYPE_DIR
      requires forcetype != TYPE_INVAL ==> n !in vnodes && Current(n).itype == TYPE_INVAL
      modifies this`vnodes, this`vtable
      ensures Valid() && n in vnodes
      ensures forcetype == TYPE_INVAL ==> Abs() == old(Abs()) && vnodes[n].inode == old(Current(n))
      ensures forcetype != TYPE_INVAL ==>
        Abs() == old(Abs()).(inodes := old(Inodes())[n := vnodes[n].inode]) && vnodes[n].dirty
        && vnodes[n].inode == old(Current(n)).(itype := forcetype)
      ensures vnodes[n].refcount == if n in old(vnodes) then old(vnodes)[n].refcount + 1 else 1
      ensures vnodes == old(vnodes)[n := vnodes[n]]
    {
      hide Ownership;
      hide BlockIn;
      hide DecodeInode;
      hide Used;
      hide MapOk;
      hide Stored;
      var found := FindVnode(n);
      if found {
        IncRef(n);
        return;
      }
      InodeBlock(n);
      var used := Bused(n);
      if !used {
        assert false;  // panic: tried to load inode from unallocated block
      }
      AddVnode(n, forcetype);
    }

    /** VOP_INCREF. */
    method IncRef(n: nat)
      requires Valid() && n in vnodes
      modifies this`vnodes
      ensures Valid() && Abs() == old(Abs())
      ensures vnodes == old(vnodes)[n := old(vnodes)[n].(refcount := old(vnodes)[n].refcount + 1)]
    {
      hide Ownership;
      hide DecodeInode;
      hide Used;
      hide MapOk;
      hide Stored;
      vnodes := vnodes[n := vnodes[n].(refcount := vnodes[n].refcount + 1)];
      assert Inodes() == old(Inodes());
    }

    /** Read inode n from its block into a new vnode. */
    method AddVnode(n: nat, forcetype: nat)
      requires Valid() && n in live && n !in vnodes && forcetype <= TYPE_DIR
      modifies this`vnodes, this`vtable
      ensures Valid()
      ensures n in vnodes && vnodes == old(vnodes)[n := vnodes[n]] && vnodes[n].refcount == 1
      ensures forcetype == TYPE_INVAL ==> Abs() == old(Abs()) && vnodes[n].inode == old(Current(n))
      ensures forcetype != TYPE_INVAL ==>
        Abs() == old(Abs()).(inodes := old(Inodes())[n := vnodes[n].inode]) && vnodes[n].dirty
        && vnodes[n].inode == old(Current(n)).(itype := forcetype)
    {
      hide Ownership;
      hide DecodeInode;
      hide Used;
      hide MapOk;
      hide Stored;
      hide CacheOk;
      hide Table;
      ghost var fs := Abs();
      TableFacts();
      InodeBlock(n);
      var inode := DecodeInode(disk[n]);
      var dirty := false;
      if forcetype != TYPE_INVAL {
        inode := inode.(itype := forcetype);
        dirty := true;
        MetaOk(fs, owner, reserved, n, inode);
      }
      TableLoad(disk, vnodes, live, n, Vnode(inode, dirty, 1));
      vnodes := vnodes[n := Vnode(inode, dirty, 1)];
      vtable := vtable + [n];
      assert Inodes() == if forcetype == TYPE_INVAL then fs.inodes else fs.inodes[n := inode];
    }

    /** sfs_makeobj: a fresh inode of the given type. */
    method MakeObj(itype: nat) returns (r: Bitmap.Result<nat>)
      requires Valid() && 0 < itype <= TYPE_DIR
      modifies this, freemap.v
      ensures Valid()
      ensures r.Enospc? ==> Abs() == old(Abs()) && live == old(live) && vnodes == old(vnodes) && Full()
      ensures r.Ok? ==>
        && r.value !in old(live) && live == old(live) + {r.value} && r.value != 0
        && Inodes() == old(Inodes())[r.value := EmptyInode().(itype := itype)]
        && SameBytes(old(Abs()), Abs())
        && (forall s: Slot :: s.n != r.value ==> BlockIn(Abs(), s) == BlockIn(old(Abs()), s))
        && r.value !in old(Used()) && Used() == old(Used()) + {r.value}
        && vnodes == old(vnodes)[r.value := Vnode(EmptyInode().(itype := itype), true, 1)]
    {
      hide Ownership;
      hide BlockIn;
      hide SameBytes;
      hide DecodeInode;
      hide Used;
      hide MapOk;
      hide Stored;
      r := NewInode();
      if r.Ok? {
        assert Current(r.value) == Inodes()[r.value];
        ghost var mid := Abs();
        LoadVnode(r.value, itype);
        assert SameBytes(mid, Abs()) && forall s :: BlockIn(Abs(), s) == BlockIn(mid, s) by {
          MetaOk(mid, owner, reserved, r.value, vnodes[r.value].inode);
        }
        SameBytesTwice(old(Abs()), mid, Abs());
      }
    }

    /** sfs_balloc for an inode: the cleared block reads as an inode without blocks. */
    method NewInode() returns (r: Bitmap.Result<nat>)
      requires Valid()
      modifies this, freemap.v
      ensures Valid() && vnodes == old(vnodes) && vtable == old(vtable)
      ensures r.Enospc? ==> Abs() == old(Abs()) && live == old(live) && Full()
      ensures r.Ok? ==>
        && r.value !in old(live) && live == old(live) + {r.value} && r.value != 0
        && Inodes() == old(Inodes())[r.value := EmptyInode()]
        && SameBytes(old(Abs()), Abs())
        && (forall s: Slot :: s.n != r.value ==> BlockIn(Abs(), s) == BlockIn(old(Abs()), s))
        && r.value !in old(Used()) && Used() == old(Used()) + {r.value}
    {
      hide Ownership;
      hide SameBytes;
      hide DecodeInode;
      hide Used;
      hide MapOk;
      hide Stored;
      hide Words;
      ghost var fs := Abs();
      r := Balloc();
      if r.Ok? {
        var b := r.value;
        AllocInodeOk(fs, owner, reserved, b, EmptyInode());
        StoredAlloc(fs, owner, nblocks, reserved, old(freemapdirty), old(freemap.v[..]), freemap.v[..], b);
        TableWrite(old(disk), vnodes, live, b, ZeroBlock());
        ZeroInode();
        live := live + {b};
        owner := owner[b := InodeSlot(b)];
        assert Inodes() == fs.inodes[b := EmptyInode()];
        assert Abs() == AllocInode(fs, b, EmptyInode());
      }
    }

    /** Remove vnode n from the table. */
    method Unlist(n: nat)
      requires Listed(vtable, vnodes) && n in vnodes
      modifies this`vnodes, this`vtable
      ensures vnodes == old(vnodes) - {n} && Listed(vtable, vnodes)
    {
      var ix := 0;
      while vtable[ix] != n
        invariant 0 <= ix < |vtable| && n in vtable[ix..]
        decreases |vtable| - ix
      {
        ix := ix + 1;
      }
      ghost var before := vtable;
      vtable := vtable[..ix] + vtable[ix + 1..];
      vnodes := vnodes - {n};
      RemovedAt(before, ix);
    }

    lemma RemovedAt(t: seq<nat>, ix: nat)
      requires ix < |t| && forall i, j :: 0 <= i < j < |t| ==> t[i] != t[j]
      ensures var r := t[..ix] + t[ix + 1..];
              && (forall i, j :: 0 <= i < j < |r| ==> r[i] != r[j])
              && forall m :: m in r <==> m in t && m != t[ix]
    {
      var r := t[..ix] + t[ix + 1..];
      assert t == t[..ix] + [t[ix]] + t[ix + 1..];
      forall m ensures m in r <==> m in t && m != t[ix] {
        if m in r {
          var i :| 0 <= i < |r| && r[i] == m;
          assert m == if i < ix then t[i] else t[i + 1];
        }
      }
    }

    /** sfs_reclaim of a linked file: nothing is lost. */
    method ReclaimLinked(n: nat)
      requires Valid() && n in vnodes && vnodes[n].inode.linkcount > 0
      modifies this`disk, this`vnodes, this`vtable
      ensures Valid() && vnodes == old(vnodes) - {n}
      ensures Inodes() == old(Inodes()) && SameBytes(old(Abs()), Abs())
      ensures forall s :: BlockIn(Abs(), s) == BlockIn(old(Abs()), s)
    {
      hide Ownership;
      hide SameBytes;
      hide BlockIn;
      hide DecodeInode;
      hide Used;
      hide MapOk;
      hide Stored;
      SyncInode(n);
      TableDrop(disk, vnodes, live, n);
      ghost var fs := Abs();
      Unlist(n);
      assert Abs() == fs;
    }

    /** sfs_reclaim of an unlinked file: its blocks and its inode are freed, once each. */
    method ReclaimUnlinked(n: nat)
      requires Valid() && n in vnodes && vnodes[n].inode.linkcount == 0
      modifies this, freemap.v
      ensures Valid() && vnodes == old(vnodes) - {n} && live == old(live) - {n}
      ensures Inodes() == old(Inodes()) - {n}
      ensures Used() == old(Used()) - FileBlocks(old(Abs()), n) - {n}
      ensures forall m: nat, p: nat :: m != n ==> ByteAt(Abs(), m, p) == ByteAt(old(Abs()), m, p)
      ensures forall s: Slot :: s.n != n ==> BlockIn(Abs(), s) == BlockIn(old(Abs()), s)
    {
      hide Valid;
      hide Used;
      hide Table;
      ghost var fs0 := Abs();
      InTable(n);
      OwnershipFacts();
      Truncate(n);
      ghost var fs1 := Abs();
      SyncInode(n);
      ghost var fs2 := Abs();
      DropInode(n);
      DroppedFile(fs0, fs1, fs2, Abs(), old(owner), reserved, n, Emptied(old(vnodes)[n].inode));
    }

    /** vnode_decref, with sfs_reclaim when the last reference is dropped. Only an
        unlinked file goes away with it; every other file is as it was. */
    method DecRef(n: nat)
      requires Valid() && n in vnodes
      modifies this, freemap.v
      ensures Valid()
      ensures var v := old(vnodes)[n];
              var gone := v.refcount == 1 && v.inode.linkcount == 0;
              && live == (if gone then old(live) - {n} else old(live))
              && Inodes() == (if gone then old(Inodes()) - {n} else old(Inodes()))
              && vnodes == (if v.refcount > 1 then old(vnodes)[n := v.(refcount := v.refcount - 1)]
                else old(vnodes) - {n})
              && (gone ==> Used() == old(Used()) - FileBlocks(old(Abs()), n) - {n})
              && (!gone ==> Used() == old(Used()))
              && (forall m: nat, p: nat :: m != n || !gone ==> ByteAt(Abs(), m, p) == ByteAt(old(Abs()), m, p))
              && (forall s: Slot :: s.n != n || !gone ==> BlockIn(Abs(), s) == BlockIn(old(Abs()), s))
              && (!gone ==> freemapdirty == old(freemapdirty))
    {
      hide Ownership;
      hide BlockIn;
      hide ByteAt;
      hide FileBlocks;
      hide DecodeInode;
      hide Used;
      hide MapOk;
      hide Stored;
      if vnodes[n].refcount > 1 {
        vnodes := vnodes[n := vnodes[n].(refcount := vnodes[n].refcount - 1)];
        assert Inodes() == old(Inodes());
      } else if vnodes[n].inode.linkcount > 0 {
        ReclaimLinked(n);
      } else {
        ReclaimUnlinked(n);
      }
    }

    /** Free the inode block of an emptied, unlinked file and forget the vnode. */
    method DropInode(n: nat)
      requires Valid() && n in vnodes && NoBlocks(vnodes[n].inode)
      modifies this, freemap.v
      ensures Valid() && vnodes == old(vnodes) - {n} && live == old(live) - {n}
      ensures Abs() == FreeInode(old(Abs()), n) && SameBytes(old(Abs()), Abs())
      ensures forall s :: BlockIn(Abs(), s) == if s == InodeSlot(n) then 0 else BlockIn(old(Abs()), s)
    {
      hide Ownership;
      hide BlockIn;
      hide SameBytes;
      hide DecodeInode;
      hide Used;
      hide MapOk;
      hide Stored;
      hide CacheOk;
      hide Listed;
      hide Table;
      ghost var fs := Abs();
      VnodeFacts(n);
      InodeBlock(n);
      TableForget(disk, vnodes, live, n);
      FreeInodeOk(fs, owner, reserved, n);
      Bfree(n);
      StoredDirty(disk, nblocks, reserved, old(freemapdirty), old(freemap.v[..]), freemap.v[..]);
      Unlist(n);
      live := live - {n};
      owner := Without(owner, {n});
      assert Inodes() == fs.inodes - {n};
    }
  }

  /** Truncation, write-back and discarding of file n, taken together. */
  lemma DroppedFile(fs0: Fs, fs1: Fs, fs2: Fs, fs3: Fs, owner: map<nat, Slot>, reserved: set<nat>, n: nat, i: Inode)
    requires Ownership(fs0, owner, reserved) && n in fs0.inodes && InodeOk(i) && NoBlocks(i)
    requires fs1 == FreeFile(fs0, n, i)
    requires fs2.inodes == fs1.inodes && fs2.used == fs1.used && SameBytes(fs1, fs2)
      && forall s :: BlockIn(fs2, s) == BlockIn(fs1, s)
    requires fs3 == FreeInode(fs2, n) && SameBytes(fs2, fs3)
    requires forall s :: BlockIn(fs3, s) == if s == InodeSlot(n) then 0 else BlockIn(fs2, s)
    ensures fs3.inodes == fs0.inodes - {n} && fs3.used == fs0.used - FileBlocks(fs0, n) - {n}
    ensures forall m: nat, p: nat :: m != n ==> ByteAt(fs3, m, p) == ByteAt(fs0, m, p)
    ensures forall s: Slot :: s.n != n ==> BlockIn(fs3, s) == BlockIn(fs0, s)
  {
    hide Ownership;
    hide BlockIn;
    hide ByteAt;
    hide FileBlocks;
    FreeFileOk(fs0, owner, reserved, n, i);
    forall m: nat, p: nat | m != n ensures ByteAt(fs3, m, p) == ByteAt(fs0, m, p) {
      assert ByteAt(fs1, m, p) == ByteAt(fs0, m, p);
      assert ByteAt(fs2, m, p) == ByteAt(fs1, m, p);
    }
  }
}
