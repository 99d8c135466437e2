/** What SFS stores, seen from outside: a file is a byte sequence, the directory a
    map from names to inode numbers, and link counts count the directory slots. */
module SfsView {
  import opened Arith
  import opened SfsFormat
  import opened SfsBlocks
  import opened Sfs

  // ----- Files as byte sequences

  function Contents(fs: Fs, n: nat): (c: seq<Byte>)
    requires n in fs.inodes
    ensures |c| == fs.inodes[n].size
  {
    FileBytes(fs, n, 0, fs.inodes[n].size)
  }

  /** c with `data` placed at off; a gap between them is filled with zeros. */
  function Overwrite(c: seq<Byte>, off: nat, data: seq<Byte>): (r: seq<Byte>)
    ensures |r| == Max(|c|, off + |data|)
  {
    seq<Byte>(Max(|c|, off + |data|), p requires 0 <= p =>
      if off <= p < off + |data| then data[p - off] else if p < |c| then c[p] else 0)
  }

  /** A write is Overwrite on its own file and nothing on any other. */
  lemma WriteOverwrites(fs: Fs, fs': Fs, n: nat, off: nat, data: seq<Byte>)
    requires ZeroTails(fs) && FileWritten(fs, fs', n, off, data)
    ensures Contents(fs', n) == Overwrite(Contents(fs, n), off, data)
    ensures forall m :: m in fs.inodes && m != n ==> m in fs'.inodes && Contents(fs', m) == Contents(fs, m)
  {
    hide ByteAt;
    hide BlockIn;
    forall p | 0 <= p < fs'.inodes[n].size ensures Contents(fs', n)[p] == Overwrite(Contents(fs, n), off, data)[p] {
      assert p >= fs.inodes[n].size ==> ByteAt(fs, n, p) == 0;
    }
    forall m | m in fs.inodes && m != n ensures m in fs'.inodes && Contents(fs', m) == Contents(fs, m) {
      assert m in fs'.inodes;
      assert SameMeta(fs'.inodes[m], fs.inodes[m]);
      forall p: nat | p < fs.inodes[m].size ensures ByteAt(fs', m, p) == ByteAt(fs, m, p) {}
    }
  }

  /** k bytes of c from off on, with zeros past its end. */
  function Slice(c: seq<Byte>, off: nat, k: nat): (r: seq<Byte>)
    ensures |r| == k
  {
    seq<Byte>(k, i requires 0 <= i => if off + i < |c| then c[off + i] else 0)
  }

  lemma BytesSlice(fs: Fs, n: nat, off: nat, k: nat)
    requires ZeroTails(fs) && n in fs.inodes
    ensures FileBytes(fs, n, off, k) == Slice(Contents(fs, n), off, k)
  {
    hide ByteAt;
    var a, b := FileBytes(fs, n, off, k), Slice(Contents(fs, n), off, k);
    forall i | 0 <= i < k ensures a[i] == b[i] {
      assert off + i >= fs.inodes[n].size ==> ByteAt(fs, n, off + i) == 0;
    }
  }

  /** What a read delivers is the slice of the contents it asked for. */
  lemma ReadDelivers(fs: Fs, n: nat, u: Uio.U, u': Uio.U, e: Errno)
    requires ZeroTails(fs) && ReadDone(fs, n, u, u', e)
    ensures u' == Uio.Deliver(u, Slice(Contents(fs, n), u.offset, u.resid - u'.resid))
    ensures e == OK && u.offset + u.resid < 0x8000_0000 ==>
      var end := u.offset + u.resid - u'.resid; end == u.offset || end == u.offset + u.resid || end == |Contents(fs, n)|
  {
    hide ByteAt;
    BytesSlice(fs, n, u.offset, u.resid - u'.resid);
    ReachIs(u.offset, ReadLength(fs.inodes[n].size, u.offset, u.resid));
    if u.offset < fs.inodes[n].size && u.resid < TWO32 { ReadLengthIs(fs.inodes[n].size, u.offset, u.resid); }
  }

  /** Writing and reading back: the bytes just written come out again. */
  lemma ReadBack(c: seq<Byte>, off: nat, data: seq<Byte>)
    ensures Overwrite(c, off, data)[off..off + |data|] == data
  {
  }

  // ----- The directory

  function SlotCount(fs: Fs): nat {
    if ROOT_LOCATION in fs.inodes then fs.inodes[ROOT_LOCATION].size / DIRENT else 0
  }

  function EntryAt(fs: Fs, k: nat): Entry { DecodeEntry(FileBytes(fs, ROOT_LOCATION, k * DIRENT, DIRENT)) }

  function Slots(fs: Fs): (d: seq<Entry>)
    ensures |d| == SlotCount(fs)
  {
    seq(SlotCount(fs), k requires 0 <= k => EntryAt(fs, k))
  }

  /** Slot k, or a new slot at the end, becomes e. */
  function Put(d: seq<Entry>, k: nat, e: Entry): seq<Entry> {
    if k < |d| then d[k := e] else d + [e]
  }

  predicate InUse(e: Entry) { e.ino != NOINO }

  ghost predicate Unique(d: seq<Entry>) {
    forall i, j :: 0 <= i < j < |d| && InUse(d[i]) && InUse(d[j]) ==> d[i].name != d[j].name
  }

  /** The directory as a map. */
  ghost function Names(d: seq<Entry>): map<seq<Byte>, nat>
    requires Unique(d)
  {
    map k | 0 <= k < |d| && InUse(d[k]) :: d[k].name := d[k].ino
  }

  function Inos(d: seq<Entry>): seq<nat> { seq(|d|, k requires 0 <= k < |d| => d[k].ino) }

  /** The number of slots that name inode n. */
  function Links(d: seq<Entry>, n: nat): nat { multiset(Inos(d))[n] }

  /** The root directory: whole slots, no holes, at most the largest file. */
  ghost predicate RootOk(fs: Fs) {
    && ROOT_LOCATION in fs.inodes
    && var r := fs.inodes[ROOT_LOCATION];
       && r.itype == TYPE_DIR && r.linkcount > 0 && r.size % DIRENT == 0 && r.size <= MAXBYTES
       && forall p :: 0 <= p < r.size ==> BlockIn(fs, DataSlot(ROOT_LOCATION, p / BLOCKSIZE)) != 0
  }

  ghost predicate DirOk(fs: Fs) { RootOk(fs) && Unique(Slots(fs)) && ZeroTails(fs) }

  /** Used slots name existing files, and link counts count them. */
  ghost predicate Linked(d: seq<Entry>, inodes: map<nat, Inode>) {
    && NOINO !in inodes
    && (forall k :: 0 <= k < |d| && InUse(d[k]) ==> d[k].ino in inodes && d[k].ino != ROOT_LOCATION)
    && (forall n :: n in inodes && n != ROOT_LOCATION ==>
          inodes[n].itype == TYPE_FILE && inodes[n].linkcount == Links(d, n))
  }

  /** Nothing changed but files in X. */
  ghost predicate Kept(fs: Fs, fs': Fs, x: set<nat>) {
    && fs'.inodes.Keys - x == fs.inodes.Keys - x
    && (forall n :: n in fs.inodes && n !in x ==> n in fs'.inodes && SameMeta(fs'.inodes[n], fs.inodes[n]))
    && (forall n: nat, p: nat :: n !in x ==> ByteAt(fs', n, p) == ByteAt(fs, n, p))
    && (forall s: Slot :: s.n !in x && BlockIn(fs, s) != 0 ==> BlockIn(fs', s) != 0)
  }

  lemma KeptTwice(a: Fs, b: Fs, c: Fs, x: set<nat>)
    requires Kept(a, b, x) && Kept(b, c, x)
    ensures Kept(a, c, x)
  {
    hide ByteAt;
    hide BlockIn;
    forall n | n in a.inodes && n !in x ensures n in c.inodes && SameMeta(c.inodes[n], a.inodes[n]) {
      assert n in b.inodes;
    }
    forall n: nat, p: nat | n !in x ensures ByteAt(c, n, p) == ByteAt(a, n, p) {
      assert ByteAt(b, n, p) == ByteAt(a, n, p);
    }
    forall n ensures n in c.inodes.Keys - x <==> n in a.inodes.Keys - x {
      assert n in b.inodes.Keys - x <==> n in a.inodes.Keys - x;
      assert n in c.inodes.Keys - x <==> n in b.inodes.Keys - x;
    }
  }

  /** The directory depends on the root's size and bytes only. */
  lemma DirFrame(fs: Fs, fs': Fs, x: set<nat>)
    requires Kept(fs, fs', x) && ROOT_LOCATION !in x && RootOk(fs)
    ensures RootOk(fs') && Slots(fs') == Slots(fs)
  {
    hide ByteAt;
    hide BlockIn;
    assert SameMeta(fs'.inodes[ROOT_LOCATION], fs.inodes[ROOT_LOCATION]);
    forall k | 0 <= k < SlotCount(fs) ensures EntryAt(fs', k) == EntryAt(fs, k) {
      assert FileBytes(fs', ROOT_LOCATION, k * DIRENT, DIRENT) == FileBytes(fs, ROOT_LOCATION, k * DIRENT, DIRENT);
    }
  }

  /** A slot lies within a block. */
  lemma SlotInBlock(k: nat)
    ensures (k * DIRENT) % BLOCKSIZE + DIRENT <= BLOCKSIZE
  {
    ModIs(64 * k, 512, k / 8, 64 * (k % 8));
  }

  /** sfs_writedir that succeeds: one slot changes. */
  lemma SlotWritten(fs: Fs, fs': Fs, k: nat, e: Entry)
    requires RootOk(fs) && k <= SlotCount(fs) && (k + 1) * DIRENT <= MAXBYTES && NameOk(e.name)
    requires FileWritten(fs, fs', ROOT_LOCATION, k * DIRENT, EncodeEntry(e))
    ensures RootOk(fs') && Slots(fs') == Put(Slots(fs), k, e)
    ensures Kept(fs, fs', {ROOT_LOCATION})
  {
    hide ByteAt;
    hide BlockIn;
    hide DecodeEntry;
    hide EncodeEntry;
    var data := EncodeEntry(e);
    EntryRoundTrip(e);
    forall j: nat ensures EntryAt(fs', j) == if j == k then e else EntryAt(fs, j) {
      if j == k {
        assert FileBytes(fs', ROOT_LOCATION, j * DIRENT, DIRENT) == data;
      } else {
        assert FileBytes(fs', ROOT_LOCATION, j * DIRENT, DIRENT) == FileBytes(fs, ROOT_LOCATION, j * DIRENT, DIRENT);
      }
    }
    assert Slots(fs') == Put(Slots(fs), k, e);
  }

  /** sfs_writedir that fails: the directory is as it was. */
  lemma SlotNotWritten(fs: Fs, fs': Fs, k: nat)
    requires RootOk(fs) && k <= SlotCount(fs) && FileWritten(fs, fs', ROOT_LOCATION, k * DIRENT, [])
    ensures RootOk(fs') && Slots(fs') == Slots(fs) && Kept(fs, fs', {})
  {
    hide ByteAt;
    hide BlockIn;
    assert Kept(fs, fs', {});
    DirFrame(fs, fs', {});
  }

  // ----- Names and link counts

  ghost predicate NamedAt(d: seq<Entry>, nm: seq<Byte>, k: nat) { k < |d| && InUse(d[k]) && d[k].name == nm }

  lemma NamesHas(d: seq<Entry>, nm: seq<Byte>, k: nat)
    requires Unique(d) && NamedAt(d, nm, k)
    ensures nm in Names(d) && Names(d)[nm] == d[k].ino
  {
  }

  lemma NamesWitness(d: seq<Entry>, nm: seq<Byte>) returns (k: nat)
    requires Unique(d) && nm in Names(d)
    ensures NamedAt(d, nm, k) && Names(d)[nm] == d[k].ino
  {
    k :| 0 <= k < |d| && InUse(d[k]) && d[k].name == nm;
  }

  /** A new name in a free slot. */
  lemma NamesAdd(d: seq<Entry>, k: nat, e: Entry)
    requires Unique(d) && k <= |d| && (k < |d| ==> !InUse(d[k])) && InUse(e) && e.name !in Names(d)
    ensures Unique(Put(d, k, e)) && Names(Put(d, k, e)) == Names(d)[e.name := e.ino]
  {
    hide Names;
    var d' := Put(d, k, e);
    forall j | 0 <= j < |d| && InUse(d[j]) ensures d[j].name != e.name { NamesHas(d, d[j].name, j); }
    assert Unique(d');
    NamesHas(d', e.name, k);
    forall nm | nm in Names(d) ensures nm in Names(d') && Names(d')[nm] == Names(d)[nm] {
      var j := NamesWitness(d, nm);
      NamesHas(d', nm, j);
    }
    forall nm | nm in Names(d') && nm != e.name ensures nm in Names(d) {
      var j := NamesWitness(d', nm);
      NamesHas(d, nm, j);
    }
  }

  /** The name in slot k goes away. */
  lemma NamesRemove(d: seq<Entry>, k: nat, e: Entry)
    requires Unique(d) && k < |d| && InUse(d[k]) && !InUse(e)
    ensures Unique(Put(d, k, e)) && Names(Put(d, k, e)) == Names(d) - {d[k].name}
  {
    hide Names;
    var d' := Put(d, k, e);
    assert Unique(d');
    forall nm | nm in Names(d) && nm != d[k].name ensures nm in Names(d') && Names(d')[nm] == Names(d)[nm] {
      var j := NamesWitness(d, nm);
      NamesHas(d', nm, j);
    }
    forall nm | nm in Names(d') ensures nm in Names(d) && nm != d[k].name {
      var j := NamesWitness(d', nm);
      NamesHas(d, nm, j);
    }
  }

  /** Every slot holds a name. */
  ghost predicate AllUsed(d: seq<Entry>) { forall k :: 0 <= k < |d| ==> InUse(d[k]) }

  /** A free slot at the end. */
  lemma NamesSkip(f: seq<Entry>, e: Entry)
    requires Unique(f) && !InUse(e)
    ensures Unique(f + [e]) && Names(f + [e]) == Names(f)
  {
    hide Names;
    var d := f + [e];
    forall nm | nm in Names(f) ensures nm in Names(d) && Names(d)[nm] == Names(f)[nm] {
      var j := NamesWitness(f, nm);
      NamesHas(d, nm, j);
    }
    forall nm | nm in Names(d) ensures nm in Names(f) {
      var j := NamesWitness(d, nm);
      NamesHas(f, nm, j);
    }
  }

  lemma AllUsedStep(f: seq<Entry>, e: Entry)
    ensures AllUsed(f + [e]) <==> AllUsed(f) && InUse(e)
  {
    var d := f + [e];
    assert d[|f|] == e && forall k :: 0 <= k < |f| ==> d[k] == f[k];
  }

  lemma NewName(f: seq<Entry>, e: Entry)
    requires Unique(f + [e]) && InUse(e)
    ensures Unique(f) && e.name !in Names(f)
  {
    var d := f + [e];
    assert forall k :: 0 <= k < |f| ==> d[k] == f[k];
    assert d[|f|] == e;
    assert Unique(f);
    hide Names;
    if e.name in Names(f) { var k := NamesWitness(f, e.name); }
  }

  /** There are as many names as slots exactly if no slot is free. */
  lemma {:induction false} NamesCount(d: seq<Entry>)
    requires Unique(d)
    ensures |Names(d)| <= |d| && (|Names(d)| == |d| <==> AllUsed(d))
  {
    if d == [] {
      assert Names(d) == map[];
    } else {
      var f, e := d[..|d| - 1], d[|d| - 1];
      assert d == f + [e];
      assert Unique(f);
      hide Names;
      hide Unique;
      NamesCount(f);
      AllUsedStep(f, e);
      hide AllUsed;
      if InUse(e) {
        NewName(f, e);
        NamesAdd(f, |f|, e);
        assert Put(f, |f|, e) == d;
      } else {
        NamesSkip(f, e);
      }
    }
  }

  lemma LinksPut(d: seq<Entry>, k: nat, e: Entry, n: nat)
    requires k <= |d|
    ensures Links(Put(d, k, e), n)
         == Links(d, n) - (if k < |d| && d[k].ino == n then 1 else 0) + (if e.ino == n then 1 else 0)
  {
    var s := Inos(d);
    if k < |d| {
      assert Inos(Put(d, k, e)) == s[k := e.ino];
    } else {
      assert Inos(Put(d, k, e)) == s + [e.ino];
    }
  }

  /** A link count is at most the number of slots, so it fits in 16 bits. */
  lemma LinksBounded(d: seq<Entry>, n: nat)
    ensures Links(d, n) <= |d|
  {
    assert Links(d, n) <= |multiset(Inos(d))|;
  }

  lemma LinksPositive(d: seq<Entry>, k: nat)
    requires k < |d|
    ensures Links(d, d[k].ino) > 0
  {
    assert Inos(d)[k] in multiset(Inos(d));
  }
}
