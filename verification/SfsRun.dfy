/** Whole runs of SFS calls refine a file system that is only a map from names to
    files, the bytes of each file, and who holds it. */
module SfsRun {
  import opened Arith
  import opened SfsFormat
  import opened SfsBlocks
  import opened SfsSpace
  import opened Sfs
  import opened SfsView
  import opened SfsDir
  import Uio

  type Name = seq<Byte>

  const SLOTS: nat := 1144     // directory slots in the largest file

  /** The simple file system. Files are known by inode number. `free` are the blocks that
      can still be given to files; `blocks` says which blocks of each file, and of the
      directory, exist (MAXBLOCKS stands for the indirect block); the directory has
      room for `slots` names before it has to grow. */
  datatype View = View(names: map<Name, nat>, files: map<nat, seq<Byte>>, refs: map<nat, nat>, free: set<nat>,
                       blocks: map<nat, set<nat>>, slots: nat)

  /** Files that have no name and that nobody holds are erased. */
  function Collect(v: View): View {
    v.(files := map n | n in v.files && (n in v.names.Values || n in v.refs) :: v.files[n],
       blocks := map n | n in v.blocks && (n == ROOT_LOCATION || n in v.names.Values || n in v.refs) :: v.blocks[n])
  }

  ghost function BlocksOf(fs: Fs): map<nat, set<nat>> { map n | n in fs.inodes :: Mapped(fs, n) }

  ghost function ViewOf(fs: Fs, refs: map<nat, nat>): View
    requires DirOk(fs)
  {
    View(Names(Slots(fs)), map n | n in fs.inodes && n != ROOT_LOCATION :: Contents(fs, n), refs, Free(fs),
         BlocksOf(fs), |Slots(fs)|)
  }

  // ----- Space, on the view

  lemma GrewBlocks(a: Fs, b: Fs, n: nat, s: set<nat>)
    requires Grew(a, b, n, s) && n in a.inodes && b.inodes.Keys == a.inodes.Keys
    ensures n in BlocksOf(a) && s !! BlocksOf(a)[n] && BlocksOf(b) == BlocksOf(a)[n := BlocksOf(a)[n] + s]
  {
    hide Mapped;
    hide Free;
  }

  lemma SameBlocks(a: Fs, b: Fs)
    requires SameSpace(a, b) && b.inodes.Keys == a.inodes.Keys
    ensures BlocksOf(b) == BlocksOf(a)
  {
    hide Mapped;
    hide Free;
  }

  lemma ErasedBlocks(a: Fs, b: Fs, n: nat)
    requires Erased(a, b, n) && n in a.inodes && b.inodes.Keys == a.inodes.Keys - {n}
    ensures BlocksOf(b) == BlocksOf(a) - {n}
    ensures n in BlocksOf(a) && Free(a) + {n} <= Free(b) && |Free(b)| == |Free(a)| + |BlocksOf(a)[n]| + 1
  {
    hide Mapped;
    hide Free;
  }

  // ----- What the view says of a state

  lemma NamedIffLinked(a: Fs, loaded: set<nat>, n: nat)
    requires Consistent(a, loaded)
    ensures n in Names(Slots(a)).Values <==> n in a.inodes && n != ROOT_LOCATION && a.inodes[n].linkcount > 0
  {
    hide ByteAt;
    hide BlockIn;
    hide Slots;
    hide Names;
    var d := Slots(a);
    if n in Names(d).Values {
      var nm :| nm in Names(d) && Names(d)[nm] == n;
      var k := NamesWitness(d, nm);
      NamedIsLinked(a, loaded, k);
    }
    if n in a.inodes && n != ROOT_LOCATION && a.inodes[n].linkcount > 0 {
      var k := LinksWitness(d, n);
      NamesHas(d, d[k].name, k);
    }
  }

  lemma LinksWitness(d: seq<Entry>, n: nat) returns (k: nat)
    requires Links(d, n) > 0
    ensures k < |d| && d[k].ino == n
  {
    assert n in multiset(Inos(d));
    k :| 0 <= k < |Inos(d)| && Inos(d)[k] == n;
  }

  /** There is no garbage: every file has a name or is held. */
  lemma NoGarbage(a: Fs, refs: map<nat, nat>)
    requires Consistent(a, refs.Keys)
    ensures Collect(ViewOf(a, refs)) == ViewOf(a, refs)
  {
    hide ByteAt;
    hide BlockIn;
    hide Slots;
    hide Names;
    hide Contents;
    hide DirOk;
    hide Linked;
    var v := ViewOf(a, refs);
    forall n | n in v.files ensures n in v.names.Values || n in v.refs {
      NamedIffLinked(a, refs.Keys, n);
    }
  }

  lemma KeptContents(a: Fs, b: Fs, x: set<nat>, n: nat)
    requires Kept(a, b, x) && n in a.inodes && n !in x
    ensures n in b.inodes && Contents(b, n) == Contents(a, n)
  {
    hide ByteAt;
    hide BlockIn;
    assert SameMeta(b.inodes[n], a.inodes[n]);
  }

  lemma KeptKeys(a: Fs, b: Fs, x: set<nat>, n: nat)
    requires Kept(a, b, x) && n !in x
    ensures n in b.inodes <==> n in a.inodes
  {
    hide ByteAt;
    hide BlockIn;
    assert n in b.inodes.Keys - x <==> n in a.inodes.Keys - x;
  }

  /** Nothing happened to any file or name. */
  lemma KeptView(a: Fs, b: Fs, refs: map<nat, nat>)
    requires DirOk(a) && DirOk(b) && Kept(a, b, {}) && Slots(b) == Slots(a)
    ensures ViewOf(b, refs) == ViewOf(a, refs).(free := Free(b), blocks := BlocksOf(b))
    ensures b.inodes.Keys == a.inodes.Keys
  {
    hide ByteAt;
    hide BlockIn;
    hide Slots;
    hide Names;
    hide Contents;
    hide DirOk;
    hide Kept;
    hide Free;
    hide BlocksOf;
    DirUnique(a);
    forall n ensures n in b.inodes <==> n in a.inodes { KeptKeys(a, b, {}, n); }
    forall n | n in a.inodes ensures Contents(b, n) == Contents(a, n) { KeptContents(a, b, {}, n); }
  }

  lemma SameContents(a: Fs, b: Fs, n: nat, delta: int)
    requires OnlyLinks(a, b, n, delta)
    ensures Contents(b, n) == Contents(a, n)
  {
    hide ByteAt;
    hide BlockIn;
  }

  /** A change to the links of n touches the contents of no file. */
  lemma LinksView(a: Fs, b: Fs, refs: map<nat, nat>, n: nat, delta: int)
    requires DirOk(a) && DirOk(b) && OnlyLinks(a, b, n, delta) && n != ROOT_LOCATION
    requires ROOT_LOCATION in a.inodes && ROOT_LOCATION in b.inodes
    ensures ViewOf(b, refs)
         == ViewOf(a, refs).(names := ViewOf(b, refs).names, free := Free(b), blocks := BlocksOf(b),
                             slots := |Slots(b)|)
    ensures b.inodes.Keys == a.inodes.Keys
  {
    hide Free;
    hide BlocksOf;
    hide ByteAt;
    hide BlockIn;
    hide Slots;
    hide Names;
    hide Contents;
    hide DirOk;
    hide Kept;
    forall m | m != ROOT_LOCATION && m != n ensures m in b.inodes <==> m in a.inodes {
      KeptKeys(a, b, {ROOT_LOCATION, n}, m);
    }
    forall m | m in a.inodes && m != ROOT_LOCATION ensures Contents(b, m) == Contents(a, m) {
      if m == n { SameContents(a, b, n, delta); } else { KeptContents(a, b, {ROOT_LOCATION, n}, m); }
    }
  }

  lemma RootIn(a: Fs)
    requires DirOk(a)
    ensures ROOT_LOCATION in a.inodes && |Slots(a)| <= SLOTS
  {
    hide BlockIn;
    hide ByteAt;
  }

  // ----- Each call, on the view

  lemma LinkView(a: Fs, b: Fs, refs: map<nat, nat>, name: Name, n: Word, e: Errno, slot: nat)
    requires LinkDone(a, b, name, n, e, slot) && n != ROOT_LOCATION
    ensures var v := ViewOf(a, refs);
            && b.inodes.Keys == a.inodes.Keys
            && ViewOf(b, refs) == v.(names := if e == OK then v.names[name := n] else v.names, free := Free(b),
                                     blocks := BlocksOf(b), slots := |Slots(b)|)
  {
    hide Free;
    hide BlocksOf;
    hide LinkSpace;
    RootIn(a);
    RootIn(b);
    hide Slots;
    hide Names;
    hide Contents;
    hide DirOk;
    hide Kept;
    hide OnlyLinks;
    if e == OK {
      LinksView(a, b, refs, n, 1);
    } else {
      KeptView(a, b, refs);
    }
  }

  lemma RenameView(a: Fs, b: Fs, refs: map<nat, nat>, n1: Name, n2: Name, e: Errno)
    requires RenameDone(a, b, n1, n2, e) && Consistent(a, refs.Keys)
    ensures var v := ViewOf(a, refs);
            && b.inodes.Keys == a.inodes.Keys
            && ViewOf(b, refs) == v.(names := if e == OK
              && n1 in v.names then (v.names - {n1})[n2 := v.names[n1]] else v.names, free := Free(b),
                                     blocks := BlocksOf(b), slots := |Slots(b)|)
  {
    hide Free;
    hide BlocksOf;
    hide LinkSpace;
    hide SameSpace;
    RootIn(a);
    RootIn(b);
    hide Slots;
    hide Names;
    hide Contents;
    hide DirOk;
    hide Kept;
    hide OnlyLinks;
    hide Linked;
    hide Refusal;
    if e == OK {
      DirUnique(a);
      var n := Names(Slots(a))[n1];
      NamedIffLinked(a, refs.Keys, n);
      LinksView(a, b, refs, n, 0);
    } else {
      KeptView(a, b, refs);
    }
  }

  lemma RemoveView(a: Fs, b: Fs, refs: map<nat, nat>, name: Name, e: Errno)
    requires RemoveDone(a, b, refs.Keys, name, e) && Consistent(a, refs.Keys) && Consistent(b, refs.Keys)
    ensures var v := ViewOf(a, refs);
            ViewOf(b, refs) == if e == OK then Collect(v.(names := v.names - {name}, free := Free(b))) else v
  {
    hide Free;
    hide BlocksOf;
    hide Erased;
    hide SameSpace;
    RootIn(a);
    RootIn(b);
    hide ByteAt;
    hide BlockIn;
    hide Slots;
    hide Names;
    hide Contents;
    hide DirOk;
    hide Kept;
    hide OnlyLinks;
    hide Linked;
    if e == OK {
      DirUnique(a);
      DirUnique(b);
      var n := Names(Slots(a))[name];
      NamedIffLinked(a, refs.Keys, n);
      NoGarbage(b, refs);
      if n !in refs && a.inodes[n].linkcount == 1 {
        GoneView(a, b, refs, {ROOT_LOCATION, n}, n);
      } else {
        LinksView(a, b, refs, n, -1);
        SameBlocks(a, b);
      }
    }
  }

  /** File n is gone; it has no name left, and nobody holds it. */
  lemma GoneView(a: Fs, b: Fs, refs: map<nat, nat>, x: set<nat>, n: nat)
    requires DirOk(a) && Consistent(b, refs.Keys) && n !in b.inodes && n !in refs && x <= {ROOT_LOCATION, n}
      && Kept(a, b, x)
    requires Erased(a, b, n) && n in a.inodes && n != ROOT_LOCATION && |Slots(b)| == |Slots(a)|
    ensures ViewOf(b, refs) == Collect(ViewOf(a, refs).(names := ViewOf(b, refs).names, free := Free(b)))
    ensures b.inodes.Keys == a.inodes.Keys - {n}
  {
    hide Free;
    hide Erased;
    hide ByteAt;
    hide BlockIn;
    hide Slots;
    hide Names;
    hide Contents;
    hide DirOk;
    hide Linked;
    KeptMore(a, b, x, {ROOT_LOCATION, n});
    hide Kept;
    DirUnique(b);
    RootIn(a);
    ConsistentDir(b, refs.Keys);
    RootIn(b);
    NoGarbage(b, refs);
    NamedIffLinked(b, refs.Keys, n);
    forall m | m != ROOT_LOCATION && m != n ensures m in b.inodes <==> m in a.inodes {
      KeptKeys(a, b, {ROOT_LOCATION, n}, m);
    }
    forall m | m in b.inodes && m != ROOT_LOCATION ensures Contents(b, m) == Contents(a, m) {
      KeptContents(a, b, {ROOT_LOCATION, n}, m);
    }
    ErasedBlocks(a, b, n);
    GoneCollected(ViewOf(a, refs), ViewOf(b, refs), n);
  }

  /** The view loses file n, which is garbage, and nothing else. */
  lemma GoneCollected(va: View, vb: View, n: nat)
    requires Collect(vb) == vb && vb.refs == va.refs && vb.slots == va.slots && n !in vb.names.Values && n !in vb.refs
    requires n != ROOT_LOCATION
    requires vb.files.Keys == va.files.Keys - {n} && (forall m :: m in vb.files ==> vb.files[m] == va.files[m])
    requires vb.blocks == va.blocks - {n}
    ensures vb == Collect(va.(names := vb.names, free := vb.free))
  {
    var w := Collect(va.(names := vb.names, free := vb.free));
    forall m | m in vb.files ensures m in w.files {
      assert m in Collect(vb).files;
    }
    forall m | m in vb.blocks ensures m in w.blocks {
      assert m in Collect(vb).blocks;
    }
    assert w.files == vb.files;
    assert w.blocks == vb.blocks;
  }

  lemma NotRoot(a: Fs, loaded: set<nat>, n: nat)
    requires Consistent(a, loaded) && n in a.inodes && a.inodes[n].linkcount == 0
    ensures n != ROOT_LOCATION
  {
    hide BlockIn;
    hide ByteAt;
  }

  /** VOP_DECREF on the view. */
  lemma ReleaseView(a: Fs, b: Fs, refs: map<nat, nat>, refs': map<nat, nat>, n: nat, gone: bool)
    requires Consistent(a, refs.Keys) && Consistent(b, refs'.Keys) && Slots(b) == Slots(a) && n in refs && n in a.inodes
    requires refs' == Dropped(refs, n) && gone == (refs[n] == 1 && a.inodes[n].linkcount == 0)
    requires refs[n] > 0
    requires Kept(a, b, if gone then {n} else {}) && b.inodes == if gone then a.inodes - {n} else a.inodes
    requires if gone then Erased(a, b, n) else SameSpace(a, b)
    ensures ViewOf(b, refs') == Collect(ViewOf(a, refs).(refs := refs', free := Free(b)))
  {
    hide Free;
    hide BlocksOf;
    hide Erased;
    hide SameSpace;
    hide ByteAt;
    hide BlockIn;
    hide Slots;
    hide Names;
    hide Contents;
    hide DirOk;
    hide Kept;
    hide Linked;
    DirUnique(a);
    if gone {
      NotRoot(a, refs.Keys, n);
      GoneView(a, b, refs', {n}, n);
    } else {
      KeptView(a, b, refs');
      SameBlocks(a, b);
      NoGarbage(b, refs');
    }
  }

  lemma EmptyContents(a: Fs, n: nat)
    requires n in a.inodes && a.inodes[n].size == 0
    ensures Contents(a, n) == []
  {
  }

  lemma CreatView(a: Fs, b: Fs, refs: map<nat, nat>, name: Name, excl: bool, e: Errno, ino: nat)
    requires CreatDone(a, b, name, excl, e, ino)
    ensures var v := ViewOf(a, refs);
            && (e != OK || name in v.names ==> ViewOf(b, refs) == v.(free := Free(b), blocks := BlocksOf(b)))
            && (e == OK && name !in v.names && ino != ROOT_LOCATION ==>
                  && b.inodes.Keys == a.inodes.Keys + {ino}
                  && ViewOf(b, refs) == v.(names := v.names[name := ino], files := v.files[ino := []],
                                           free := Free(b), blocks := BlocksOf(b), slots := |Slots(b)|))
            && (e != OK ==> b.inodes.Keys == a.inodes.Keys)
  {
    hide BlocksOf;
    hide NewSpace;
    hide SameSpace;
    hide DirFull;
    hide SlotsWith;
    hide Slots;
    hide Names;
    hide DirOk;
    hide Kept;
    hide ByteAt;
    hide BlockIn;
    hide Free;
    hide Contents;
    RootIn(a);
    RootIn(b);
    DirUnique(a);
    if e != OK {
      KeptView(a, b, refs);
    } else if name !in Names(Slots(a)) && ino != ROOT_LOCATION {
      EmptyContents(b, ino);
      forall m | m != ROOT_LOCATION && m != ino ensures m in b.inodes
        <==> m in a.inodes { KeptKeys(a, b, {ROOT_LOCATION, ino}, m); }
      forall m | m in a.inodes && m != ROOT_LOCATION && m != ino ensures Contents(b, m) == Contents(a, m) {
        KeptContents(a, b, {ROOT_LOCATION, ino}, m);
      }
    }
  }

  /** One file got new contents. */
  lemma ChangedView(a: Fs, b: Fs, refs: map<nat, nat>, n: nat, c: seq<Byte>)
    requires DirOk(a) && DirOk(b) && Slots(b) == Slots(a) && Kept(a, b, {n}) && n in a.inodes && n in b.inodes
    requires n != ROOT_LOCATION && Contents(b, n) == c
    ensures ViewOf(b, refs) == var v := ViewOf(a, refs);
                               v.(files := v.files[n := c], free := Free(b), blocks := BlocksOf(b))
    ensures b.inodes.Keys == a.inodes.Keys
  {
    hide Free;
    hide BlocksOf;
    hide Slots;
    hide Names;
    hide DirOk;
    hide Kept;
    hide Contents;
    DirUnique(a);
    forall m | m != n ensures m in b.inodes <==> m in a.inodes { KeptKeys(a, b, {n}, m); }
    forall m | m in a.inodes && m != n ensures Contents(b, m) == Contents(a, m) { KeptContents(a, b, {n}, m); }
  }

  /** A write to a file leaves the directory alone. */
  lemma WriteKeeps(a: Fs, b: Fs, loaded: set<nat>, n: nat, off: nat, data: seq<Byte>)
    requires Consistent(a, loaded) && FileWritten(a, b, n, off, data) && n != ROOT_LOCATION && off < 0x8000_0000
    ensures Consistent(b, loaded) && Slots(b) == Slots(a) && Kept(a, b, {n}) && n in b.inodes
  {
    hide ByteAt;
    hide BlockIn;
    hide Slots;
    assert Kept(a, b, {n});
    DirFrame(a, b, {n});
    WriteZeroTails(a, b, n, off, data);
    KeptMetas(a, b, {n});
    MetasLinked(Slots(a), a.inodes, b.inodes, n);
  }

  lemma MetasLinked(d: seq<Entry>, inodes: map<nat, Inode>, inodes': map<nat, Inode>, n: nat)
    requires Linked(d, inodes) && SameMetas(inodes, inodes', {n}) && n in inodes && n != ROOT_LOCATION
    requires inodes'[n].itype == inodes[n].itype && inodes'[n].linkcount == inodes[n].linkcount
    ensures Linked(d, inodes')
  {
    forall m | m in inodes' && m != ROOT_LOCATION
      ensures inodes'[m].itype == TYPE_FILE && inodes'[m].linkcount == Links(d, m)
    {
      assert m != n ==> m in inodes && m !in {n};
    }
  }

  lemma TruncateKeeps(a: Fs, b: Fs, owner: map<nat, Slot>, reserved: set<nat>, loaded: set<nat>, n: nat)
    requires Consistent(a, loaded) && Ownership(a, owner, reserved) && n in a.inodes && n != ROOT_LOCATION
    requires b == FreeFile(a, n, Emptied(a.inodes[n]))
    ensures Consistent(b, loaded) && Slots(b) == Slots(a) && Kept(a, b, {n}) && n in b.inodes && Contents(b, n) == []
  {
    hide Ownership;
    hide ByteAt;
    hide BlockIn;
    hide Slots;
    FreeFileOk(a, owner, reserved, n, Emptied(a.inodes[n]));
    assert Kept(a, b, {n});
    DirFrame(a, b, {n});
    KeptZeroTails(a, b, {n});
    KeptMetas(a, b, {n});
    MetasLinked(Slots(a), a.inodes, b.inodes, n);
  }

  // ----- Calls and what they may do

  datatype Call =
    | Open(name: Name)
    | Create(name: Name, excl: bool)
    | Hardlink(name: Name, n: nat)
    | Delete(name: Name)
    | Move(n1: Name, n2: Name)
    | ReadAt(n: nat, off: nat, len: nat)
    | WriteAt(n: nat, off: nat, data: seq<Byte>)
    | Clear(n: nat)
    | Close(n: nat)
    | Flush

  /** Denied: the caller holds no such file. */
  datatype Reply = Denied | Reply(e: Errno, ino: nat, data: seq<Byte>, moved: nat)

  /** The file the caller must hold for the call, if any. */
  predicate Permitted(v: View, c: Call) {
    match c
    case Hardlink(_, n) => n in v.refs
    case ReadAt(n, _, _) => n in v.refs
    case WriteAt(n, _, _) => n in v.refs
    case Clear(n) => n in v.refs
    case Close(n) => n in v.refs
    case _ => true
  }

  /** Names are C strings, offsets of type off_t and not negative, lengths of type size_t. */
  predicate WellFormed(c: Call) {
    match c
    case Create(name, _) => 0 !in name
    case Hardlink(name, _) => 0 !in name
    case Move(_, n2) => 0 !in n2
    case ReadAt(_, off, len) => off < 0x8000_0000 && len < TWO32
    case WriteAt(_, off, data) => off < 0x8000_0000
    case _ => true
  }

  /** Taking a reference to the file with that name. */
  predicate Opened(v: View, name: Name, r: Reply, v': View)
    requires r.Reply? && name in v.names
  {
    r.e == OK && r.ino == v.names[name] && v' == v.(refs := Taken(v.refs, r.ino))
  }

  /** File n, or the directory, gets the blocks s. */
  predicate Grows(v: View, n: nat, s: set<nat>, v': View) {
    && n in v.blocks && s !! v.blocks[n] && v'.blocks == v.blocks[n := v.blocks[n] + s]
    && v'.free <= v.free && |v'.free| + |s| == |v.free|
  }

  /** The directory blocks that one more name needs. */
  function NameNeeds(v: View): set<nat> {
    if |v.names| < v.slots || ROOT_LOCATION !in v.blocks then {}
    else Lacking(v.blocks[ROOT_LOCATION], SlotBlock(v.slots), SlotBlock(v.slots) + 1)
  }

  function SlotsAfter(v: View): nat { if |v.names| < v.slots then v.slots else v.slots + 1 }

  /** Space only comes back from file n, if it is erased: its blocks and that of its inode. */
  predicate Recovers(v: View, n: nat, v': View) {
    && n in v.files && n in v.blocks && v'.blocks.Keys + {n} == v.blocks.Keys
    && if n in v'.files then v'.free == v.free && v'.blocks == v.blocks
       else v.free + {n} <= v'.free && |v'.free| == |v.free| + |v.blocks[n]| + 1 && v'.blocks == v.blocks - {n}
  }

  /** The new names after a call, if it succeeds; why it may not. Out of space, the
      directory may be left with an indirect block that has no entries. */
  predicate Renamed(v: View, name: Name, names': map<Name, nat>, e: Errno, v': View) {
    if name in v.names then e == EEXIST && v' == v
    else if |name| + 1 > NAMELEN then e == ENAMETOOLONG && v' == v
    else if |v.free| < |NameNeeds(v)| then
      && e == ENOSPC && v' == v.(free := v'.free, blocks := v'.blocks)
      && Grows(v, ROOT_LOCATION, Scrap(|v.free|), v')
    else if |v.names| == SLOTS then e == EINVAL && v' == v
    else
      && e == OK && v' == v.(names := names', slots := SlotsAfter(v), free := v'.free, blocks := v'.blocks)
      && Grows(v, ROOT_LOCATION, NameNeeds(v), v')
  }

  /** Making a file with a new name. Its inode takes a block, which a failure gives back. */
  predicate Created(v: View, name: Name, r: Reply, v': View)
    requires r.Reply?
  {
    if v.free == {} then r.e == ENOSPC && v' == v
    else if |name| + 1 > NAMELEN then r.e == ENAMETOOLONG && v' == v
    else if |v.free| - 1 < |NameNeeds(v)| then
      && r.e == ENOSPC && v' == v.(free := v'.free, blocks := v'.blocks)
      && Grows(v, ROOT_LOCATION, Scrap(|v.free| - 1), v')
    else if |v.names| == SLOTS then r.e == EINVAL && v' == v
    else
      && r.e == OK && r.ino !in v.files && r.ino !in v.blocks && r.ino in v.free && ROOT_LOCATION in v.blocks
      && v'.free <= v.free - {r.ino} && |v'.free| + |NameNeeds(v)| + 1 == |v.free|
      && v' == View(v.names[name := r.ino], v.files[r.ino := []], Taken(v.refs, r.ino), v'.free,
                    v.blocks[ROOT_LOCATION := v.blocks[ROOT_LOCATION] + NameNeeds(v)][r.ino := {}], SlotsAfter(v))
  }

  /** A read delivers its range of the file, up to the end of the file unless the end of the
      range overflows, and fails exactly if it then goes past the largest file. */
  predicate ReadReply(c: seq<Byte>, off: nat, len: nat, r: Reply)
    requires r.Reply? && |c| < TWO32
  {
    var all := ReadLength(|c|, off, len);
    && r.data == Slice(c, off, |r.data|)
    && if off >= ToSigned(|c|) then r.e == OK && r.data == []
       else |r.data| == Reach(off, all) && r.e == if PastMax(off, all) then EINVAL else OK
  }

  /** How far a write at off gets with blocks b there and f more to be had: to its end, to
      the end of the largest file, or to the first block for which there are too few. */
  predicate WriteReply(b: set<nat>, f: nat, off: nat, data: seq<Byte>, r: Reply)
    requires r.Reply?
  {
    var lo, hi, m := off / BLOCKSIZE, BlockEnd(off, |data|), (off + r.moved) / BLOCKSIZE;
    && r.moved <= |data|
    && if f < |Lacking(b, lo, hi)| then
         && r.e == ENOSPC && m < hi && (r.moved > 0 ==> (off + r.moved) % BLOCKSIZE == 0)
         && |Lacking(b, lo, m)| <= f < |Lacking(b, lo, m + 1)|
       else r.moved == Reach(off, |data|) && r.e == if PastMax(off, |data|) then EINVAL else OK
  }

  /** The blocks it takes. */
  function WriteTakes(b: set<nat>, f: nat, off: nat, data: seq<Byte>, r: Reply): set<nat>
    requires r.Reply?
  {
    var lo, hi, m := off / BLOCKSIZE, BlockEnd(off, |data|), (off + r.moved) / BLOCKSIZE;
    if r.e == ENOSPC then Lacking(b, lo, m) + Scrap(if f > |Lacking(b, lo, m)| then 1 else 0) else Lacking(b, lo, hi)
  }

  /** The whole specification. */
  predicate Allowed(v: View, c: Call, r: Reply, v': View) {
    if r.Denied? then !Permitted(v, c) && v' == v
    else match c
      case Open(name) =>
        if name in v.names then Opened(v, name, r, v') else r.e == ENOENT && v' == v
      case Create(name, excl) =>
        if name !in v.names then Created(v, name, r, v')
        else if excl then r.e == EEXIST && v' == v
        else Opened(v, name, r, v')
      case Hardlink(name, n) => Renamed(v, name, v.names[name := n], r.e, v')
      case Delete(name) =>
        if name !in v.names then r.e == ENOENT && v' == v
        else
          && r.e == OK && v' == Collect(v.(names := v.names - {name}, free := v'.free))
          && Recovers(v, v.names[name], v')
      case Move(n1, n2) =>
        if n1 in v.names then Renamed(v, n2, (v.names - {n1})[n2 := v.names[n1]], r.e, v') else r.e == ENOENT && v' == v
      case ReadAt(n, off, len) => n in v.files && |v.files[n]| < TWO32 && ReadReply(v.files[n], off, len, r) && v' == v
      case WriteAt(n, off, data) =>
        && n in v.files && n in v.blocks && WriteReply(v.blocks[n], |v.free|, off, data, r)
        && Grows(v, n, WriteTakes(v.blocks[n], |v.free|, off, data, r), v')
        && v' == v.(files := v.files[n := Overwrite(v.files[n], off, data[..r.moved])], free := v'.free,
                    blocks := v'.blocks)
      case Clear(n) =>
        && r.e == OK && n in v.blocks && v.free <= v'.free && |v'.free| == |v.free| + |v.blocks[n]|
        && v' == v.(files := v.files[n := []], free := v'.free, blocks := v.blocks[n := {}])
      case Close(n) =>
        r.e == OK && v' == Collect(v.(refs := Dropped(v.refs, n), free := v'.free)) && Recovers(v, n, v')
      case Flush => r.e == OK && v' == v
  }

  // ----- The file system in a state

  /** References other than to the root directory. */
  ghost function Held(v: map<nat, Vnode>): map<nat, nat> { Refs(v) - {ROOT_LOCATION} }

  ghost predicate Ready(fs: Sfs)
    reads fs, fs.freemap.v
  {
    fs.Valid() && Consistent(fs.Abs(), fs.vnodes.Keys)
  }

  ghost function Seen(fs: Sfs): View
    requires Ready(fs)
    reads fs, fs.freemap.v
  {
    ViewOf(fs.Abs(), Held(fs.vnodes))
  }

  lemma HeldTaken(r: map<nat, nat>, n: nat)
    ensures Taken(r, n) - {ROOT_LOCATION} == if n == ROOT_LOCATION then r - {n} else Taken(r - {ROOT_LOCATION}, n)
  {
  }

  lemma HeldDropped(r: map<nat, nat>, n: nat)
    requires n in r
    ensures Dropped(r, n) - {ROOT_LOCATION} == if n == ROOT_LOCATION then r - {n} else Dropped(r - {ROOT_LOCATION}, n)
  {
  }

  /** The root always has links, so it need not be held. */
  lemma ConsistentHeld(a: Fs, v: map<nat, Vnode>)
    requires Consistent(a, v.Keys)
    ensures Consistent(a, Held(v).Keys)
  {
    hide BlockIn;
    hide ByteAt;
    hide Slots;
    RefsAt(v);
  }

  lemma ViewRefs(a: Fs, refs: map<nat, nat>, refs': map<nat, nat>)
    requires DirOk(a)
    ensures ViewOf(a, refs') == ViewOf(a, refs).(refs := refs')
    ensures ViewOf(a, refs).names == Names(Slots(a)) && ViewOf(a, refs).refs == refs && ViewOf(a, refs).free == Free(a)
    ensures ViewOf(a, refs).blocks == BlocksOf(a) && ViewOf(a, refs).slots == |Slots(a)|
    ensures ViewOf(a, refs).files.Keys == a.inodes.Keys - {ROOT_LOCATION}
  {
  }

  lemma OpenAllowed(a: Fs, r: map<nat, nat>, r': map<nat, nat>, name: Name, e: Errno, ino: nat)
    requires DirOk(a) && e == (if name in Names(Slots(a)) then OK else ENOENT)
    requires e == OK ==> ino == Names(Slots(a))[name] && ino != ROOT_LOCATION && r' == Taken(r, ino)
    requires e != OK ==> r' == r
    ensures Allowed(ViewOf(a, r - {ROOT_LOCATION}), Open(name), Reply(e, ino, [], 0), ViewOf(a, r' - {ROOT_LOCATION}))
  {
    hide Names;
    hide Slots;
    hide DirOk;
    hide ViewOf;
    hide Taken;
    hide Collect;
    HeldTaken(r, ino);
    ViewRefs(a, r - {ROOT_LOCATION}, r' - {ROOT_LOCATION});
  }

  method DoOpen(fs: Sfs, name: Name) returns (r: Reply)
    requires Ready(fs) && ROOT_LOCATION in fs.vnodes
    modifies fs, fs.freemap.v
    ensures Ready(fs) && ROOT_LOCATION in fs.vnodes && r.Reply? && Allowed(old(Seen(fs)), Open(name), r, Seen(fs))
  {
    hide Sfs.Valid;
    hide Sfs.Abs;
    hide DirOk;
    hide Linked;
    hide ViewOf;
    hide Refs;
    hide Taken;
    hide Allowed;
    var e, ino, slot := LookOnce(fs, name);
    r := Reply(e, ino, [], 0);
    OpenAllowed(fs.Abs(), old(Refs(fs.vnodes)), Refs(fs.vnodes), name, e, ino);
  }

  /** What the directory needs for one more name, seen from the state and from the view. */
  lemma NeedsSame(a: Fs, h: map<nat, nat>)
    requires DirOk(a)
    ensures var v := ViewOf(a, h);
            && NameNeeds(v) == DirNeed(a) && SlotsAfter(v) == SlotsWith(Slots(a))
            && (|v.names| == SLOTS <==> DirFull(Slots(a)))
  {
    hide ViewOf;
    hide DirOk;
    hide Names;
    hide Slots;
    hide Lacking;
    hide AllUsed;
    DirUnique(a);
    RootIn(a);
    NamesCount(Slots(a));
    ViewRefs(a, h, h);
  }

  /** The view after a link or a rename. */
  lemma LinkRenamed(a: Fs, b: Fs, h: map<nat, nat>, name: Name, names': map<Name, nat>, e: Errno)
    requires DirOk(a) && DirOk(b) && b.inodes.Keys == a.inodes.Keys && LinkSpace(a, b, e)
    requires Refusal(Slots(a), name, e) && if e == OK then |Slots(b)| == SlotsWith(Slots(a)) else Slots(b) == Slots(a)
    requires var v := ViewOf(a, h);
             ViewOf(b, h) == v.(names := if e == OK then names' else v.names, free := Free(b), blocks := BlocksOf(b),
                                slots := |Slots(b)|)
    ensures Renamed(ViewOf(a, h), name, names', e, ViewOf(b, h))
  {
    hide ViewOf;
    hide DirOk;
    hide Names;
    hide Slots;
    hide DirNeed;
    hide NameNeeds;
    hide SlotsWith;
    hide SlotsAfter;
    hide DirFull;
    hide BlocksOf;
    hide Unique;
    hide Grew;
    hide SameSpace;
    hide Free;
    hide Scrap;
    hide Renamed;
    RootIn(a);
    DirUnique(a);
    NeedsSame(a, h);
    ViewRefs(a, h, h);
    ViewRefs(b, h, h);
    if e == OK {
      GrewView(a, b, h, DirNeed(a));
    } else if e == ENOSPC {
      GrewView(a, b, h, Scrap(|Free(a)|));
    } else {
      SameBlocks(a, b);
      SameFreeBlocks(a, b);
    }
    RenamedIs(ViewOf(a, h), name, names', e, ViewOf(b, h));
  }

  lemma GrewView(a: Fs, b: Fs, h: map<nat, nat>, s: set<nat>)
    requires DirOk(a) && DirOk(b) && b.inodes.Keys == a.inodes.Keys && Grew(a, b, ROOT_LOCATION, s)
    ensures Grows(ViewOf(a, h), ROOT_LOCATION, s, ViewOf(b, h))
  {
    hide ViewOf;
    hide DirOk;
    hide Grew;
    hide BlocksOf;
    hide Free;
    RootIn(a);
    ViewRefs(a, h, h);
    ViewRefs(b, h, h);
    GrewBlocks(a, b, ROOT_LOCATION, s);
    GrewSpace(a, b, ROOT_LOCATION, s);
  }

  /** The cases of Renamed, by the reply. */
  lemma RenamedIs(v: View, name: Name, names': map<Name, nat>, e: Errno, v': View)
    requires e == EEXIST <==> name in v.names
    requires e == ENAMETOOLONG <==> name !in v.names && |name| + 1 > NAMELEN
    requires e == EINVAL <==> name !in v.names && |name| + 1 <= NAMELEN && |v.names| == SLOTS
    requires e != ENOENT && e != EBUSY && (e == EINVAL ==> NameNeeds(v) == {})
    requires e == OK ==>
      && |NameNeeds(v)| <= |v.free| && Grows(v, ROOT_LOCATION, NameNeeds(v), v')
      && v' == v.(names := names', slots := SlotsAfter(v), free := v'.free, blocks := v'.blocks)
    requires e == ENOSPC ==>
      && |v.free| < |NameNeeds(v)| && Grows(v, ROOT_LOCATION, Scrap(|v.free|), v')
      && v' == v.(free := v'.free, blocks := v'.blocks)
    requires e != OK && e != ENOSPC ==> v' == v
    ensures Renamed(v, name, names', e, v')
  {
    hide Grows;
    hide NameNeeds;
    hide SlotsAfter;
    hide Scrap;
  }

  /** The view after a new file is made, or is not. */
  lemma CreateCreated(a: Fs, b: Fs, h: map<nat, nat>, name: Name, excl: bool, e: Errno, ino: nat, vb: View)
    requires CreatDone(a, b, name, excl, e, ino) && name !in Names(Slots(a))
    requires b.inodes.Keys == if e == OK then a.inodes.Keys + {ino} else a.inodes.Keys
    requires var v := ViewOf(a, h);
             vb == if e == OK
                   then View(v.names[name := ino], v.files[ino := []], Taken(v.refs, ino), Free(b), BlocksOf(b),
                     |Slots(b)|)
                   else v.(free := Free(b), blocks := BlocksOf(b))
    ensures Created(ViewOf(a, h), name, Reply(e, ino, [], 0), vb)
  {
    hide ViewOf;
    hide DirOk;
    hide Names;
    hide Slots;
    hide DirNeed;
    hide NameNeeds;
    hide SlotsWith;
    hide SlotsAfter;
    hide DirFull;
    hide BlocksOf;
    hide Unique;
    hide Kept;
    hide Taken;
    RootIn(a);
    DirUnique(a);
    NeedsSame(a, h);
    ViewRefs(a, h, h);
    hide Grew;
    hide SameSpace;
    hide Free;
    hide Scrap;
    hide Mapped;
    if e == OK {
      BornBlocks(a, b, ino);
    } else if e == ENOSPC && Free(a) != {} {
      GrewBlocks(a, b, ROOT_LOCATION, Scrap(|Free(a)| - 1));
      GrewSpace(a, b, ROOT_LOCATION, Scrap(|Free(a)| - 1));
    } else {
      SameBlocks(a, b);
      SameFreeBlocks(a, b);
    }
  }

  lemma BornBlocks(a: Fs, b: Fs, ino: nat)
    requires NewSpace(a, b, OK, ino) && ROOT_LOCATION in a.inodes && ino !in a.inodes
    requires b.inodes.Keys == a.inodes.Keys + {ino}
    ensures ROOT_LOCATION in BlocksOf(a) && ino !in BlocksOf(a)
    ensures BlocksOf(b) == BlocksOf(a)[ROOT_LOCATION := BlocksOf(a)[ROOT_LOCATION] + DirNeed(a)][ino := {}]
  {
    hide Mapped;
    hide Free;
    hide DirNeed;
    NotThere(a, ino);
    var x, y := BlocksOf(b), BlocksOf(a)[ROOT_LOCATION := BlocksOf(a)[ROOT_LOCATION] + DirNeed(a)][ino := {}];
    assert x.Keys == y.Keys;
    forall m | m in x ensures x[m] == y[m] {
      if m != ROOT_LOCATION { assert Mapped(b, m) == Mapped(a, m); }
    }
  }

  lemma CreateAllowed(a: Fs, b: Fs, r: map<nat, nat>, r': map<nat, nat>, name: Name, excl: bool, e: Errno, ino: nat)
    requires CreatDone(a, b, name, excl, e, ino) && Consistent(a, r.Keys)
    requires r' == if e == OK then Taken(r, ino) else r
    ensures Allowed(ViewOf(a, r - {ROOT_LOCATION}), Create(name, excl), Reply(e, ino, [], 0),
      ViewOf(b, r' - {ROOT_LOCATION}))
  {
    hide Names;
    hide Slots;
    hide DirOk;
    hide ViewOf;
    hide Taken;
    hide Collect;
    hide Linked;
    hide Kept;
    hide NewSpace;
    hide BlocksOf;
    hide Free;
    hide SameSpace;
    hide Created;
    hide DirFull;
    hide SlotsWith;
    var h, h' := r - {ROOT_LOCATION}, r' - {ROOT_LOCATION};
    DirUnique(a);
    RootIn(a);
    if name in Names(Slots(a)) { NamedIffLinked(a, r.Keys, Names(Slots(a))[name]); }
    HeldTaken(r, ino);
    CreatView(a, b, h, name, excl, e, ino);
    ViewRefs(a, h, h');
    ViewRefs(b, h, h');
    if name !in Names(Slots(a)) {
      CreateCreated(a, b, h, name, excl, e, ino, ViewOf(b, h'));
    } else if excl {
      SameBlocks(a, b);
      SameFreeBlocks(a, b);
    }
  }

  lemma SameFreeBlocks(a: Fs, b: Fs)
    requires SameSpace(a, b)
    ensures Free(b) == Free(a)
  {
  }

  method DoCreate(fs: Sfs, name: Name, excl: bool) returns (r: Reply)
    requires Ready(fs) && ROOT_LOCATION in fs.vnodes && 0 !in name
    modifies fs, fs.freemap.v
    ensures Ready(fs) && ROOT_LOCATION in fs.vnodes && r.Reply?
      && Allowed(old(Seen(fs)), Create(name, excl), r, Seen(fs))
  {
    hide Sfs.Valid;
    hide Sfs.Abs;
    hide DirOk;
    hide Linked;
    hide ViewOf;
    hide Refs;
    hide Taken;
    hide Allowed;
    hide CreatDone;
    var e, ino := Creat(fs, name, excl);
    r := Reply(e, ino, [], 0);
    RefsAt(old(fs.vnodes));
    RefsAt(fs.vnodes);
    TakenHas(old(Refs(fs.vnodes)), ino);
    CreateAllowed(old(fs.Abs()), fs.Abs(), old(Refs(fs.vnodes)), Refs(fs.vnodes), name, excl, e, ino);
  }

  lemma LinkAllowed(a: Fs, b: Fs, h: map<nat, nat>, name: Name, n: Word, e: Errno, slot: nat)
    requires LinkDone(a, b, name, n, e, slot) && n != ROOT_LOCATION
    ensures Allowed(ViewOf(a, h), Hardlink(name, n), Reply(e, n, [], 0), ViewOf(b, h))
  {
    hide Names;
    hide Slots;
    hide DirOk;
    hide ViewOf;
    hide Collect;
    hide Kept;
    hide OnlyLinks;
    hide LinkSpace;
    hide BlocksOf;
    hide Free;
    hide Renamed;
    hide Refusal;
    hide SlotsWith;
    hide Filled;
    DirUnique(a);
    LinkView(a, b, h, name, n, e, slot);
    ViewRefs(a, h, h);
    LinkRenamed(a, b, h, name, ViewOf(a, h).names[name := n], e);
  }

  method DoLink(fs: Sfs, name: Name, n: nat) returns (r: Reply)
    requires Ready(fs) && ROOT_LOCATION in fs.vnodes && 0 !in name && n in Held(fs.vnodes)
    modifies fs, fs.freemap.v
    ensures Ready(fs) && ROOT_LOCATION in fs.vnodes && r.Reply?
      && Allowed(old(Seen(fs)), Hardlink(name, n), r, Seen(fs))
  {
    hide Sfs.Valid;
    hide Sfs.Abs;
    hide DirOk;
    hide Linked;
    hide ViewOf;
    hide Refs;
    hide Taken;
    hide Allowed;
    hide LinkDone;
    RefsAt(fs.vnodes);
    fs.TableFacts();
    fs.InodeBlock(n);
    var e, slot := Link(fs, name, n);
    r := Reply(e, n, [], 0);
    RefsAt(fs.vnodes);
    LinkAllowed(old(fs.Abs()), fs.Abs(), Held(fs.vnodes), name, n, e, slot);
  }

  lemma DeleteAllowed(a: Fs, b: Fs, v: map<nat, Vnode>, h: map<nat, nat>, name: Name, e: Errno)
    requires RemoveDone(a, b, v.Keys, name, e) && Consistent(a, v.Keys) && Consistent(b, v.Keys) && h == Held(v)
    ensures Allowed(ViewOf(a, h), Delete(name), Reply(e, 0, [], 0), ViewOf(b, h))
  {
    hide Names;
    hide Slots;
    hide DirOk;
    hide ViewOf;
    hide Collect;
    hide Kept;
    hide OnlyLinks;
    hide Linked;
    hide BlocksOf;
    hide Free;
    hide Erased;
    hide SameSpace;
    DirUnique(a);
    ConsistentHeld(a, v);
    ConsistentHeld(b, v);
    RefsAt(v);
    if e == OK { NamedIffLinked(a, v.Keys, Names(Slots(a))[name]); }
    RemoveView(a, b, h, name, e);
    ViewRefs(a, h, h);
    ViewRefs(b, h, h);
    if e == OK {
      RemovedKeys(a, b, v.Keys, name);
      var n := Names(Slots(a))[name];
      RootIn(a);
      RootIn(b);
      BlockKeys(a);
      if n !in v && a.inodes[n].linkcount == 1 {
        WithRoot(b.inodes.Keys, a.inodes.Keys - {n});
        ErasedBlocks(a, b, n);
      } else {
        WithRoot(b.inodes.Keys, a.inodes.Keys);
        SameBlocks(a, b);
        SameFreeBlocks(a, b);
      }
    }
  }

  lemma WithRoot(x: set<nat>, y: set<nat>)
    requires ROOT_LOCATION in x && ROOT_LOCATION in y && x - {ROOT_LOCATION} == y - {ROOT_LOCATION}
    ensures x == y
  {
    assert x == (x - {ROOT_LOCATION}) + {ROOT_LOCATION} && y == (y - {ROOT_LOCATION}) + {ROOT_LOCATION};
  }

  lemma BlockKeys(a: Fs)
    ensures BlocksOf(a).Keys == a.inodes.Keys
  {
  }

  /** Which files a removal erases. */
  lemma RemovedKeys(a: Fs, b: Fs, loaded: set<nat>, name: Name)
    requires RemoveDone(a, b, loaded, name, OK)
    ensures var n := Names(Slots(a))[name];
            if n !in loaded && a.inodes[n].linkcount == 1
            then b.inodes.Keys - {ROOT_LOCATION} == a.inodes.Keys - {n} - {ROOT_LOCATION} && n !in b.inodes
            else b.inodes.Keys - {ROOT_LOCATION} == a.inodes.Keys - {ROOT_LOCATION}
  {
    hide Names;
    hide Slots;
    hide DirOk;
    hide ByteAt;
    hide BlockIn;
    DirUnique(a);
    var n := Names(Slots(a))[name];
    forall m | m != ROOT_LOCATION && m != n ensures m in b.inodes <==> m in a.inodes {
      assert m in b.inodes.Keys - {ROOT_LOCATION, n} <==> m in a.inodes.Keys - {ROOT_LOCATION, n};
    }
  }

  method DoDelete(fs: Sfs, name: Name) returns (r: Reply)
    requires Ready(fs) && ROOT_LOCATION in fs.vnodes
    modifies fs, fs.freemap.v
    ensures Ready(fs) && ROOT_LOCATION in fs.vnodes && r.Reply? && Allowed(old(Seen(fs)), Delete(name), r, Seen(fs))
  {
    hide Sfs.Valid;
    hide Sfs.Abs;
    hide DirOk;
    hide Linked;
    hide ViewOf;
    hide Refs;
    hide Taken;
    hide Allowed;
    hide RemoveDone;
    var e := Remove(fs, name);
    r := Reply(e, 0, [], 0);
    RefsAt(old(fs.vnodes));
    RefsAt(fs.vnodes);
    DeleteAllowed(old(fs.Abs()), fs.Abs(), fs.vnodes, Held(fs.vnodes), name, e);
  }

  lemma MoveAllowed(a: Fs, b: Fs, v: map<nat, Vnode>, h: map<nat, nat>, n1: Name, n2: Name, e: Errno)
    requires RenameDone(a, b, n1, n2, e) && Consistent(a, v.Keys) && h == Held(v)
    ensures Allowed(ViewOf(a, h), Move(n1, n2), Reply(e, 0, [], 0), ViewOf(b, h))
  {
    hide Names;
    hide Slots;
    hide DirOk;
    hide ViewOf;
    hide Collect;
    hide Kept;
    hide OnlyLinks;
    hide Linked;
    hide LinkSpace;
    hide SameSpace;
    hide BlocksOf;
    hide Free;
    hide Renamed;
    hide Refusal;
    hide SlotsWith;
    DirUnique(a);
    ConsistentHeld(a, v);
    RenameView(a, b, h, n1, n2, e);
    ViewRefs(a, h, h);
    if n1 in Names(Slots(a)) {
      LinkRenamed(a, b, h, n2, (ViewOf(a, h).names - {n1})[n2 := ViewOf(a, h).names[n1]], e);
    } else {
      SameBlocks(a, b);
      SameFreeBlocks(a, b);
    }
  }

  method DoMove(fs: Sfs, n1: Name, n2: Name) returns (r: Reply)
    requires Ready(fs) && ROOT_LOCATION in fs.vnodes && 0 !in n2
    modifies fs, fs.freemap.v
    ensures Ready(fs) && ROOT_LOCATION in fs.vnodes && r.Reply? && Allowed(old(Seen(fs)), Move(n1, n2), r, Seen(fs))
  {
    hide Sfs.Valid;
    hide Sfs.Abs;
    hide DirOk;
    hide Linked;
    hide ViewOf;
    hide Refs;
    hide Taken;
    hide Allowed;
    hide RenameDone;
    var e := Rename(fs, n1, n2);
    r := Reply(e, 0, [], 0);
    RefsAt(old(fs.vnodes));
    RefsAt(fs.vnodes);
    MoveAllowed(old(fs.Abs()), fs.Abs(), fs.vnodes, Held(fs.vnodes), n1, n2, e);
  }

  lemma ReadAllowed(a: Fs, h: map<nat, nat>, n: nat, u: Uio.U, u': Uio.U, e: Errno, len: nat)
    requires DirOk(a) && n in a.inodes && n != ROOT_LOCATION && ReadDone(a, n, u, u', e)
    requires u == Uio.U(Uio.Zeros(len), 0, len, u.offset, len)
    ensures u'.resid <= len && len - u'.resid <= |u'.mem|
    ensures Allowed(ViewOf(a, h), ReadAt(n, u.offset, len), Reply(e, n, u'.mem[..len - u'.resid], len - u'.resid),
      ViewOf(a, h))
  {
    hide Names;
    hide Slots;
    hide DirOk;
    hide Collect;
    hide ByteAt;
    var k := len - u'.resid;
    var data := FileBytes(a, n, u.offset, k);
    assert u'.mem[..k] == data;
    DirZeros(a);
    BytesSlice(a, n, u.offset, k);
  }

  lemma DirZeros(a: Fs)
    requires DirOk(a)
    ensures ZeroTails(a)
  {
  }

  method DoRead(fs: Sfs, n: nat, off: nat, len: nat) returns (r: Reply)
    requires Ready(fs) && ROOT_LOCATION in fs.vnodes && n in Held(fs.vnodes) && off < 0x8000_0000 && len < TWO32
    modifies fs, fs.freemap.v
    ensures Ready(fs) && ROOT_LOCATION in fs.vnodes && r.Reply?
      && Allowed(old(Seen(fs)), ReadAt(n, off, len), r, Seen(fs))
  {
    hide Sfs.Valid;
    hide Sfs.Abs;
    hide DirOk;
    hide Linked;
    hide ViewOf;
    hide Refs;
    hide Taken;
    hide Allowed;
    hide ReadDone;
    RefsAt(fs.vnodes);
    fs.InTable(n);
    var uio := new Uio.Uio(Uio.Zeros(len), off, false);
    ghost var u := uio.State();
    var e := fs.Read(n, uio);
    RefsSame(old(fs.vnodes), fs.vnodes);
    ReadAllowed(fs.Abs(), Held(fs.vnodes), n, u, uio.State(), e, len);
    r := Reply(e, n, uio.mem[..len - uio.resid], len - uio.resid);
  }

  /** The reply to a write says how far it got and what it took. */
  lemma WriteReplied(a: Fs, b: Fs, n: nat, u: Uio.U, u': Uio.U, e: Errno)
    requires WriteSpace(a, b, n, u, u', e) && IoResult(u, u', e) && (e == OK || e == ENOSPC || e == EINVAL)
    requires |u.mem| == u.resid && u'.offset == u.offset + u.resid - u'.resid
    ensures var r := Reply(e, n, [], u.resid - u'.resid);
            && WriteReply(Mapped(a, n), |Free(a)|, u.offset, u.mem, r)
            && Grew(a, b, n, WriteTakes(Mapped(a, n), |Free(a)|, u.offset, u.mem, r))
  {
    hide Mapped;
    hide Free;
    hide Lacking;
    hide Grew;
    WriteFails(a, b, n, u, u', e);
    assert u.offset + (u.resid - u'.resid) == u'.offset;
    if e != ENOSPC { ResultReach(u, u', e); }
  }

  lemma WriteAllowed(a: Fs, b: Fs, loaded: set<nat>, h: map<nat, nat>, n: nat, u: Uio.U, u': Uio.U, e: Errno)
    requires Consistent(a, loaded) && n in a.inodes && n != ROOT_LOCATION && WriteDone(a, b, n, u, u', e)
    requires u == Uio.U(u.mem, 0, |u.mem|, u.offset, |u.mem|) && u.offset < 0x8000_0000
    requires e == OK || e == EINVAL || e == ENOSPC
    ensures Consistent(b, loaded) && u'.resid <= u.resid
    ensures Allowed(ViewOf(a, h), WriteAt(n, u.offset, u.mem), Reply(e, n, [], u.resid - u'.resid), ViewOf(b, h))
  {
    hide Names;
    hide Slots;
    hide Linked;
    hide RootOk;
    hide Collect;
    hide ByteAt;
    hide BlockIn;
    hide FileWritten;
    hide Kept;
    hide ZeroTails;
    hide Contents;
    hide WriteSpace;
    hide IoResult;
    hide WriteReply;
    hide WriteTakes;
    hide Grew;
    hide Free;
    hide Mapped;
    ResultOk(u, u', e);
    var k := u.resid - u'.resid;
    var data, r := Uio.Next(u, k), Reply(e, n, [], k);
    assert data == u.mem[..k];
    WriteKeeps(a, b, loaded, n, u.offset, data);
    WriteOverwrites(a, b, n, u.offset, data);
    ChangedView(a, b, h, n, Contents(b, n));
    WriteReplied(a, b, n, u, u', e);
    GrewBlocks(a, b, n, WriteTakes(Mapped(a, n), |Free(a)|, u.offset, u.mem, r));
    GrewSpace(a, b, n, WriteTakes(Mapped(a, n), |Free(a)|, u.offset, u.mem, r));
  }

  lemma GrewSpace(a: Fs, b: Fs, n: nat, s: set<nat>)
    requires Grew(a, b, n, s)
    ensures Free(b) <= Free(a) && |Free(b)| + |s| == |Free(a)|
  {
  }

  lemma FileSizes(a: Fs, n: nat)
    requires DirOk(a) && n in a.inodes
    ensures a.inodes[n].size < 0x8000_0000
  {
  }

  method DoWrite(fs: Sfs, n: nat, off: nat, data: seq<Byte>) returns (r: Reply)
    requires Ready(fs) && ROOT_LOCATION in fs.vnodes && n in Held(fs.vnodes) && off < 0x8000_0000
    modifies fs, fs.freemap.v
    ensures Ready(fs) && ROOT_LOCATION in fs.vnodes && r.Reply?
      && Allowed(old(Seen(fs)), WriteAt(n, off, data), r, Seen(fs))
  {
    hide Sfs.Valid;
    hide Sfs.Abs;
    hide DirOk;
    hide Linked;
    hide ViewOf;
    hide Refs;
    hide Taken;
    hide Allowed;
    hide WriteDone;
    RefsAt(fs.vnodes);
    fs.InTable(n);
    var uio := new Uio.Uio(data, off, true);
    ghost var u := uio.State();
    FileSizes(fs.Abs(), n);
    var e := fs.Write(n, uio);
    RefsSame(old(fs.vnodes), fs.vnodes);
    WriteAllowed(old(fs.Abs()), fs.Abs(), fs.vnodes.Keys, Held(fs.vnodes), n, u, uio.State(), e);
    r := Reply(e, n, [], |data| - uio.resid);
  }

  lemma ClearedBlocks(a: Fs, b: Fs, n: nat)
    requires Cleared(a, b, n) && n in a.inodes && b.inodes.Keys == a.inodes.Keys
    ensures n in BlocksOf(a) && BlocksOf(b) == BlocksOf(a)[n := {}]
    ensures Free(a) <= Free(b) && |Free(b)| == |Free(a)| + |BlocksOf(a)[n]|
  {
    hide Mapped;
    hide Free;
  }

  lemma NumberOf(fs: Sfs, n: nat)
    requires fs.Valid() && n in fs.vnodes
    ensures n != 0
  {
    hide Sfs.Valid;
    fs.TableFacts();
  }

  method DoClear(fs: Sfs, n: nat) returns (r: Reply)
    requires Ready(fs) && ROOT_LOCATION in fs.vnodes && n in Held(fs.vnodes)
    modifies fs, fs.freemap.v
    ensures Ready(fs) && ROOT_LOCATION in fs.vnodes && r.Reply? && Allowed(old(Seen(fs)), Clear(n), r, Seen(fs))
  {
    hide Sfs.Valid;
    hide Sfs.Abs;
    hide DirOk;
    hide Linked;
    hide ViewOf;
    hide Refs;
    hide Taken;
    hide Contents;
    hide Kept;
    hide FreeFile;
    hide Cleared;
    hide BlocksOf;
    hide Free;
    RefsAt(fs.vnodes);
    fs.InTable(n);
    fs.OwnershipFacts();
    fs.Truncate(n);
    RefsSame(old(fs.vnodes), fs.vnodes);
    TruncateKeeps(old(fs.Abs()), fs.Abs(), old(fs.owner), fs.reserved, fs.vnodes.Keys, n);
    ChangedView(old(fs.Abs()), fs.Abs(), Held(fs.vnodes), n, []);
    NumberOf(fs, n);
    FreeFileSpace(old(fs.Abs()), old(fs.owner), fs.reserved, n, Emptied(old(fs.vnodes)[n].inode));
    ClearedBlocks(old(fs.Abs()), fs.Abs(), n);
    ViewRefs(old(fs.Abs()), Held(fs.vnodes), Held(fs.vnodes));
    r := Reply(OK, n, [], 0);
  }

  lemma CloseAllowed(a: Fs, b: Fs, h: map<nat, nat>, h': map<nat, nat>, n: nat, gone: bool)
    requires Consistent(a, h.Keys) && Consistent(b, h'.Keys) && Slots(b) == Slots(a) && n in h && n in a.inodes
      && n != ROOT_LOCATION
    requires h' == Dropped(h, n) && h[n] > 0 && gone == (h[n] == 1 && a.inodes[n].linkcount == 0)
    requires Kept(a, b, if gone then {n} else {}) && b.inodes == if gone then a.inodes - {n} else a.inodes
    requires if gone then Erased(a, b, n) else SameSpace(a, b)
    ensures Allowed(ViewOf(a, h), Close(n), Reply(OK, n, [], 0), ViewOf(b, h'))
  {
    hide Erased;
    hide SameSpace;
    hide BlocksOf;
    hide DirOk;
    hide Linked;
    hide ViewOf;
    hide Dropped;
    hide Kept;
    hide Slots;
    hide Collect;
    hide Free;
    ReleaseView(a, b, h, h', n, gone);
    ViewRefs(a, h, h);
    ViewRefs(b, h', h');
    BlockKeys(a);
    if gone {
      ErasedBlocks(a, b, n);
    } else {
      SameBlocks(a, b);
      SameFreeBlocks(a, b);
    }
  }

  method DoClose(fs: Sfs, n: nat) returns (r: Reply)
    requires Ready(fs) && ROOT_LOCATION in fs.vnodes && n in Held(fs.vnodes)
    modifies fs, fs.freemap.v
    ensures Ready(fs) && ROOT_LOCATION in fs.vnodes && r.Reply? && Allowed(old(Seen(fs)), Close(n), r, Seen(fs))
  {
    hide Sfs.Valid;
    hide Sfs.Abs;
    hide DirOk;
    hide Linked;
    hide ViewOf;
    hide Refs;
    hide Dropped;
    hide Kept;
    hide Slots;
    hide Collect;
    hide Free;
    hide Erased;
    hide SameSpace;
    hide Allowed;
    ghost var a, v := fs.Abs(), fs.vnodes;
    RefsAt(v);
    fs.TableFacts();
    fs.InTable(n);
    ConsistentHeld(a, v);
    Release(fs, n);
    RefsAt(fs.vnodes);
    HeldDropped(Refs(v), n);
    DroppedHas(Refs(v), n);
    ConsistentHeld(fs.Abs(), fs.vnodes);
    CloseAllowed(a, fs.Abs(), Held(v), Held(fs.vnodes), n, v[n].refcount == 1 && v[n].inode.linkcount == 0);
    r := Reply(OK, n, [], 0);
  }

  /** sfs_sync changes no view. */
  method SyncView(fs: Sfs)
    requires Ready(fs)
    modifies fs, fs.freemap.v
    ensures Ready(fs) && Seen(fs) == old(Seen(fs)) && fs.vnodes.Keys == old(fs.vnodes).Keys
    ensures Clean(fs)
  {
    hide Sfs.Valid;
    hide Sfs.Abs;
    hide Sfs.Inodes;
    hide DirOk;
    hide Linked;
    hide BlockIn;
    hide SameBytes;
    hide Slots;
    hide Kept;
    hide ViewOf;
    hide Refs;
    hide Free;
    hide SameSpace;
    hide BlocksOf;
    ghost var a := fs.Abs();
    fs.TableFacts();
    UsedFacts(fs);
    fs.Sync();
    fs.TableFacts();
    UsedFacts(fs);
    SlotsSame(a, fs.Abs());
    SameFreeBlocks(a, fs.Abs());
    SameBlocks(a, fs.Abs());
    RefsSame(old(fs.vnodes), fs.vnodes);
    ReleaseKept(a, fs.Abs(), fs.vnodes.Keys, fs.vnodes.Keys);
    KeptView(a, fs.Abs(), Held(fs.vnodes));
    ViewRefs(a, Held(fs.vnodes), Held(fs.vnodes));
  }

  method DoFlush(fs: Sfs) returns (r: Reply)
    requires Ready(fs) && ROOT_LOCATION in fs.vnodes
    modifies fs, fs.freemap.v
    ensures Ready(fs) && ROOT_LOCATION in fs.vnodes && r.Reply? && Allowed(old(Seen(fs)), Flush, r, Seen(fs))
    ensures Clean(fs)
  {
    hide Sfs.Valid;
    hide Sfs.Abs;
    hide Consistent;
    hide ViewOf;
    SyncView(fs);
    r := Reply(OK, 0, [], 0);
  }

  lemma DroppedHas(r: map<nat, nat>, n: nat)
    ensures r.Keys - {n} <= Dropped(r, n).Keys
  {
  }

  /** A call that a caller holding a reference to the root makes. */
  method Dispatch(fs: Sfs, c: Call) returns (r: Reply)
    requires Ready(fs) && ROOT_LOCATION in fs.vnodes && WellFormed(c) && Permitted(Seen(fs), c)
    modifies fs, fs.freemap.v
    ensures Ready(fs) && ROOT_LOCATION in fs.vnodes && r.Reply? && Allowed(old(Seen(fs)), c, r, Seen(fs))
    ensures c.Flush? ==> Clean(fs)
  {
    hide Sfs.Valid;
    hide Sfs.Abs;
    hide Consistent;
    hide Allowed;
    hide Refs;
    match c
    case Open(name) => r := DoOpen(fs, name);
    case Create(name, excl) => r := DoCreate(fs, name, excl);
    case Hardlink(name, n) => r := DoLink(fs, name, n);
    case Delete(name) => r := DoDelete(fs, name);
    case Move(n1, n2) => r := DoMove(fs, n1, n2);
    case ReadAt(n, off, len) => r := DoRead(fs, n, off, len);
    case WriteAt(n, off, data) => r := DoWrite(fs, n, off, data);
    case Clear(n) => r := DoClear(fs, n);
    case Close(n) => r := DoClose(fs, n);
    case Flush => r := DoFlush(fs);
  }

  /** sfs_getroot: a reference to the root, which no view shows. */
  method GetRoot(fs: Sfs)
    requires Ready(fs)
    modifies fs`vnodes, fs`vtable
    ensures Ready(fs) && ROOT_LOCATION in fs.vnodes && Seen(fs) == old(Seen(fs))
  {
    hide Sfs.Valid;
    hide Sfs.Abs;
    hide DirOk;
    hide Linked;
    hide Refs;
    hide Taken;
    RootThere(fs.Abs(), fs.vnodes.Keys);
    Load(fs, ROOT_LOCATION);
    HeldTaken(old(Refs(fs.vnodes)), ROOT_LOCATION);
  }

  /** And giving it back. */
  method PutRoot(fs: Sfs)
    requires Ready(fs) && ROOT_LOCATION in fs.vnodes
    modifies fs, fs.freemap.v
    ensures Ready(fs) && Seen(fs) == old(Seen(fs)) && (old(Clean(fs)) ==> Clean(fs))
  {
    hide Clean;
    hide Sfs.Valid;
    hide Sfs.Abs;
    hide Linked;
    hide BlockIn;
    hide ByteAt;
    hide Slots;
    hide Names;
    hide Refs;
    hide Dropped;
    hide Kept;
    hide ViewOf;
    hide ZeroTails;
    hide Erased;
    hide SameSpace;
    hide BlocksOf;
    hide Free;
    fs.InTable(ROOT_LOCATION);
    RefsAt(fs.vnodes);
    HeldDropped(Refs(fs.vnodes), ROOT_LOCATION);
    Release(fs, ROOT_LOCATION);
    KeptView(old(fs.Abs()), fs.Abs(), Held(fs.vnodes));
    SameBlocks(old(fs.Abs()), fs.Abs());
    SameFreeBlocks(old(fs.Abs()), fs.Abs());
    ViewRefs(old(fs.Abs()), Held(fs.vnodes), Held(fs.vnodes));
  }

  /** A disk from which everything can be read back: mounting it gives this file system. */
  ghost predicate OnDisk(fs: Sfs)
    reads fs, fs.freemap.v
  {
    ImageOk(fs.disk, fs.live, fs.owner) && ImageFs(fs.disk, fs.live) == fs.Abs()
  }

  /** Any run of calls, by any callers: every reply and every change is one the
      simple file system allows, and after a sync the disk alone holds it. */
  method Run(fs: Sfs, calls: seq<Call>) returns (replies: seq<Reply>, ghost views: seq<View>)
    requires Ready(fs) && forall c :: c in calls ==> WellFormed(c)
    modifies fs, fs.freemap.v
    ensures Ready(fs) && |replies| == |calls| && |views| == |calls| + 1
    ensures views[0] == old(Seen(fs)) && views[|calls|] == Seen(fs)
    ensures forall i :: 0 <= i < |calls| ==> Allowed(views[i], calls[i], replies[i], views[i + 1])
    ensures calls != [] && calls[|calls| - 1].Flush? ==> OnDisk(fs)
  {
    hide OnDisk;
    hide Sfs.Valid;
    hide Sfs.Abs;
    hide Consistent;
    hide Allowed;
    hide ViewOf;
    hide Refs;
    replies := [];
    views := [Seen(fs)];
    var i := 0;
    while i < |calls|
      invariant 0 <= i <= |calls| && Ready(fs) && |replies| == i && |views| == i + 1
      invariant views[0] == old(Seen(fs)) && views[i] == Seen(fs)
      invariant forall j :: 0 <= j < i ==> Allowed(views[j], calls[j], replies[j], views[j + 1])
      invariant i > 0 && calls[i - 1].Flush? ==> OnDisk(fs)
    {
      var r := Do(fs, calls[i]);
      replies := replies + [r];
      views := views + [Seen(fs)];
      i := i + 1;
    }
  }

  method Do(fs: Sfs, c: Call) returns (r: Reply)
    requires Ready(fs) && WellFormed(c)
    modifies fs, fs.freemap.v
    ensures Ready(fs) && Allowed(old(Seen(fs)), c, r, Seen(fs))
    ensures c.Flush? ==> OnDisk(fs)
  {
    hide Sfs.Valid;
    hide Sfs.Abs;
    hide Consistent;
    hide ViewOf;
    hide Refs;
    hide ImageOk;
    hide ImageFs;
    var ok := Holds(fs, c);
    if !ok {
      return Denied;
    }
    hide Allowed;
    GetRoot(fs);
    r := Dispatch(fs, c);
    PutRoot(fs);
    if c.Flush? { fs.Synced(); }
  }

  /** Whether the caller can have the vnode the call needs. */
  method Holds(fs: Sfs, c: Call) returns (ok: bool)
    requires Ready(fs)
    ensures ok <==> Permitted(Seen(fs), c)
  {
    hide Sfs.Valid;
    hide Sfs.Abs;
    hide Linked;
    hide DirOk;
    RefsAt(fs.vnodes);
    match c
    case Hardlink(_, n) => ok := n in fs.vnodes && n != ROOT_LOCATION;
    case ReadAt(n, _, _) => ok := n in fs.vnodes && n != ROOT_LOCATION;
    case WriteAt(n, _, _) => ok := n in fs.vnodes && n != ROOT_LOCATION;
    case Clear(n) => ok := n in fs.vnodes && n != ROOT_LOCATION;
    case Close(n) => ok := n in fs.vnodes && n != ROOT_LOCATION;
    case _ => ok := true;
  }

  /** The number of a file is not that of a free block. */
  lemma FilesNotFree(fs: Sfs)
    requires Ready(fs)
    ensures Seen(fs).files.Keys !! Seen(fs).free
  {
    hide Sfs.Valid;
    hide Sfs.Abs;
    hide Sfs.Used;
    hide Consistent;
    hide ViewOf;
    fs.TableFacts();
    UsedFacts(fs);
    ConsistentDir(fs.Abs(), fs.vnodes.Keys);
    ViewRefs(fs.Abs(), Held(fs.vnodes), Held(fs.vnodes));
    forall n | n in Seen(fs).files ensures n !in Seen(fs).free { fs.InodeBlock(n); }
  }

  lemma ConsistentDir(a: Fs, loaded: set<nat>)
    requires Consistent(a, loaded)
    ensures DirOk(a)
  {
  }

  // ----- Reads

  /** A read that starts inside the file stops at its end exactly if its range ends below
      2^31 or the file has the largest size. */
  lemma ReadStops(c: seq<Byte>, off: nat, len: nat, r: Reply)
    requires r.Reply? && off < |c| < TWO32 && len < TWO32 && ReadReply(c, off, len, r)
    ensures off + |r.data| <= |c| <==> off + len < 0x8000_0000 || |c| >= MAXBYTES
  {
    ReachIs(off, ReadLength(|c|, off, len));
    if |c| < 0x8000_0000 { ReadLengthIs(|c|, off, len); }
  }

  // ----- File sizes

  ghost predicate Sized(v: View) { forall n :: n in v.files ==> |v.files[n]| <= MAXBYTES }

  /** A write keeps a file within the largest size exactly if it does not start past
      it. Also a write that moves nothing extends the file to its offset. */
  lemma WriteSize(v: View, n: nat, off: nat, data: seq<Byte>, r: Reply, v': View)
    requires r.Reply? && Allowed(v, WriteAt(n, off, data), r, v')
    ensures |v'.files[n]| <= MAXBYTES <==> |v.files[n]| <= MAXBYTES && off <= MAXBYTES
  {
    hide Lacking;
    MovedInside(v.blocks[n], |v.free|, off, data, r);
    hide WriteReply;
    hide WriteTakes;
  }

  /** Bytes are moved below the largest file size only. */
  lemma MovedInside(b: set<nat>, f: nat, off: nat, data: seq<Byte>, r: Reply)
    requires r.Reply? && WriteReply(b, f, off, data, r)
    ensures r.moved <= |data| && (r.moved > 0 ==> off + r.moved <= MAXBYTES)
  {
    hide Lacking;
    var lo, m := off / BLOCKSIZE, (off + r.moved) / BLOCKSIZE;
    ReachIs(off, |data|);
    if f < |Lacking(b, lo, BlockEnd(off, |data|))| && m >= MAXBLOCKS { LackingPast(b, lo, m, m + 1); }
  }

  /** So a file can get too long: by writing nothing past the end of the last block. */
  lemma TooLongExample(v: View, n: nat, r: Reply, v': View)
    requires r.Reply? && Allowed(v, WriteAt(n, MAXBYTES + 1, []), r, v')
    ensures |v'.files[n]| > MAXBYTES
  {
    WriteSize(v, n, MAXBYTES + 1, [], r, v');
  }

  predicate StartsInside(c: Call) { c.WriteAt? ==> c.off <= MAXBYTES }

  lemma StepSized(v: View, c: Call, r: Reply, v': View)
    requires Sized(v) && Allowed(v, c, r, v') && StartsInside(c)
    ensures Sized(v')
  {
    hide Taken;
    hide Dropped;
    hide Grows;
    hide NameNeeds;
    hide SlotsAfter;
    hide WriteTakes;
    hide WriteReply;
    hide ReadReply;
    if r.Reply? && c.WriteAt? {
      WriteSize(v, c.n, c.off, c.data, r, v');
    }
  }

  /** In a run without such writes no file ever exceeds the largest size. */
  lemma {:induction false} RunSized(views: seq<View>, calls: seq<Call>, replies: seq<Reply>, i: nat)
    requires |views| == |calls| + 1 && |replies| == |calls| && i <= |calls| && Sized(views[0])
    requires forall j :: 0 <= j < |calls| ==>
      Allowed(views[j], calls[j], replies[j], views[j + 1]) && StartsInside(calls[j])
    ensures Sized(views[i])
  {
    hide Allowed;
    hide Sized;
    if i > 0 {
      RunSized(views, calls, replies, i - 1);
      StepSized(views[i - 1], calls[i - 1], replies[i - 1], views[i]);
    }
  }

  // ----- No block is lost

  /** The blocks that files and the directory have, with those of their inodes. */
  ghost function BlockCount(m: map<nat, set<nat>>): nat
    decreases |m|
  {
    if m == map[] then 0
    else
      var k :| k in m;
      assert |m - {k}| < |m| by { Fewer(m, k); }
      1 + |m[k]| + BlockCount(m - {k})
  }

  lemma Fewer(m: map<nat, set<nat>>, k: nat)
    requires k in m
    ensures |m - {k}| == |m| - 1
  {
    assert (m - {k}).Keys == m.Keys - {k};
    assert |m.Keys - {k}| == |m.Keys| - 1;
  }

  lemma {:induction false} CountWithout(m: map<nat, set<nat>>, k: nat)
    requires k in m
    ensures BlockCount(m) == 1 + |m[k]| + BlockCount(m - {k})
    decreases |m|
  {
    var j :| j in m && BlockCount(m) == 1 + |m[j]| + BlockCount(m - {j});
    if j != k {
      Fewer(m, j);
      Fewer(m, k);
      CountWithout(m - {j}, k);
      CountWithout(m - {k}, j);
      assert m - {j} - {k} == m - {k} - {j};
    }
  }

  lemma CountUpdate(m: map<nat, set<nat>>, k: nat, s: set<nat>)
    ensures BlockCount(m[k := s]) == BlockCount(m) + |s| + if k in m then -|m[k]| else 1
  {
    CountWithout(m[k := s], k);
    assert m[k := s] - {k} == m - {k};
    if k in m { CountWithout(m, k); } else { assert m - {k} == m; }
  }

  ghost function Space(v: View): nat { |v.free| + BlockCount(v.blocks) }

  lemma GrowsSpace(v: View, n: nat, s: set<nat>, v': View)
    requires Grows(v, n, s, v')
    ensures Space(v') == Space(v)
  {
    CountUpdate(v.blocks, n, v.blocks[n] + s);
    assert |v.blocks[n] + s| == |v.blocks[n]| + |s|;
  }

  lemma CreatedKeeps(v: View, name: Name, r: Reply, v': View)
    requires r.Reply? && Created(v, name, r, v')
    ensures Space(v') == Space(v)
  {
    hide Lacking;
    hide Space;
    hide NameNeeds;
    hide Grows;
    if v' == v {
    } else if r.e == OK {
      NeedsNew(v);
      BornKeeps(v, NameNeeds(v), r.ino, v');
    } else {
      GrowsSpace(v, ROOT_LOCATION, Scrap(|v.free| - 1), v');
    }
  }

  lemma BornKeeps(v: View, need: set<nat>, ino: nat, v': View)
    requires ROOT_LOCATION in v.blocks && ino !in v.blocks && need !! v.blocks[ROOT_LOCATION]
    requires v'.blocks == v.blocks[ROOT_LOCATION := v.blocks[ROOT_LOCATION] + need][ino := {}]
    requires |v'.free| + |need| + 1 == |v.free|
    ensures Space(v') == Space(v)
  {
    var both := v.blocks[ROOT_LOCATION] + need;
    assert |both| == |v.blocks[ROOT_LOCATION]| + |need|;
    CountUpdate(v.blocks, ROOT_LOCATION, both);
    CountUpdate(v.blocks[ROOT_LOCATION := both], ino, {});
  }

  lemma NeedsNew(v: View)
    requires ROOT_LOCATION in v.blocks
    ensures NameNeeds(v) !! v.blocks[ROOT_LOCATION]
  {
  }

  /** Every call keeps the sum of the free blocks and of those that files have. */
  lemma StepSpace(v: View, c: Call, r: Reply, v': View)
    requires Allowed(v, c, r, v')
    ensures Space(v') == Space(v)
  {
    hide Space;
    hide WriteReply;
    hide WriteTakes;
    hide Grows;
    hide Created;
    hide NameNeeds;
    if r.Reply? {
      match c
      case Create(name, excl) => if name !in v.names { CreatedKeeps(v, name, r, v'); } else { SameSpaces(v, v'); }
      case Hardlink(name, n) => RenamedKeeps(v, name, v.names[name := n], r.e, v');
      case Move(n1, n2) =>
        if n1 in v.names { RenamedKeeps(v, n2, (v.names - {n1})[n2 := v.names[n1]], r.e, v'); }
      case WriteAt(n, off, data) => GrowsSpace(v, n, WriteTakes(v.blocks[n], |v.free|, off, data, r), v');
      case Clear(n) => ClearedKeeps(v, n, v');
      case Delete(name) => if name in v.names { RecoversKeeps(v, v.names[name], v'); }
      case Close(n) => RecoversKeeps(v, n, v');
      case _ => SameSpaces(v, v');
    }
  }

  lemma SameSpaces(v: View, v': View)
    requires v'.free == v.free && v'.blocks == v.blocks
    ensures Space(v') == Space(v)
  {
  }

  lemma RenamedKeeps(v: View, name: Name, names': map<Name, nat>, e: Errno, v': View)
    requires Renamed(v, name, names', e, v')
    ensures Space(v') == Space(v)
  {
    hide Space;
    hide Grows;
    hide NameNeeds;
    if e == OK {
      GrowsSpace(v, ROOT_LOCATION, NameNeeds(v), v');
    } else if e == ENOSPC {
      GrowsSpace(v, ROOT_LOCATION, Scrap(|v.free|), v');
    }
  }

  lemma ClearedKeeps(v: View, n: nat, v': View)
    requires n in v.blocks && |v'.free| == |v.free| + |v.blocks[n]| && v'.blocks == v.blocks[n := {}]
    ensures Space(v') == Space(v)
  {
    CountUpdate(v.blocks, n, {});
  }

  lemma RecoversKeeps(v: View, n: nat, v': View)
    requires Recovers(v, n, v')
    ensures Space(v') == Space(v)
  {
    CountWithout(v.blocks, n);
  }

  /** Over any run no block is lost and none is made. */
  lemma {:induction false} RunSpace(views: seq<View>, calls: seq<Call>, replies: seq<Reply>, i: nat)
    requires |views| == |calls| + 1 && |replies| == |calls| && i <= |calls|
    requires forall j :: 0 <= j < |calls| ==> Allowed(views[j], calls[j], replies[j], views[j + 1])
    ensures Space(views[i]) == Space(views[0])
  {
    hide Allowed;
    hide Space;
    if i > 0 {
      RunSpace(views, calls, replies, i - 1);
      StepSpace(views[i - 1], calls[i - 1], replies[i - 1], views[i]);
    }
  }
}
