/** On-disk formats of SFS: blocks of 512 bytes, read as big-endian words, inodes
    and directory entries. */
module SfsFormat {

  import opened Arith

  const BLOCKSIZE: nat := 512
  const NDIRECT: nat := 15
  const DBPERIDB: nat := 128
  const MAXBLOCKS: nat := 143      // NDIRECT + DBPERIDB
  const MAXBYTES: nat := 73216     // MAXBLOCKS * BLOCKSIZE
  const NAMELEN: nat := 60
  const DIRENT: nat := 64          // sizeof(struct sfs_dir)

  const SB_LOCATION: nat := 0
  const ROOT_LOCATION: nat := 1
  const MAP_LOCATION: nat := 2
  const NOINO: nat := 0

  const TYPE_INVAL: nat := 0
  const TYPE_FILE: nat := 1
  const TYPE_DIR: nat := 2

  type Byte = b: int | 0 <= b < 256
  type Half = h: int | 0 <= h < 0x1_0000

  type Block = b: seq<Byte> | |b| == 512 witness seq(512, _ => 0)
  /** A cleared block. */
  function ZeroBlock(): Block { seq(512, _ => 0) }

  // ----- Words

  function GetWord(b: seq<Byte>, i: nat): Word
    requires i + 4 <= |b|
  {
    (b[i] as int) * 0x100_0000 + (b[i + 1] as int) * 0x1_0000 + (b[i + 2] as int) * 0x100 + (b[i + 3] as int)
  }

  /** Byte k, most significant first, of a word. */
  function WordByte(w: Word, k: nat): Byte
    requires k < 4
  {
    if k == 0 then w / 0x100_0000
    else if k == 1 then w / 0x1_0000 % 0x100
    else if k == 2 then w / 0x100 % 0x100
    else w % 0x100
  }

  function PutWord(w: Word): (s: seq<Byte>)
    ensures |s| == 4
  {
    [WordByte(w, 0), WordByte(w, 1), WordByte(w, 2), WordByte(w, 3)]
  }

  lemma WordRoundTrip(w: Word)
    ensures GetWord(PutWord(w), 0) == w
  {
    var a, b := w / 0x100, w / 0x1_0000;
    assert w == 0x100 * a + w % 0x100;
    ShiftBytes(w);
    assert a == 0x100 * b + a % 0x100;
    assert b == 0x100 * (w / 0x100_0000) + b % 0x100;
  }

  lemma ShiftBytes(w: Word)
    ensures w / 0x1_0000 == w / 0x100 / 0x100 && w / 0x100_0000 == w / 0x1_0000 / 0x100
  {
  }

  /** A block as the array of words the kernel overlays on it. */
  function Words(b: Block): (ws: seq<Word>)
    ensures |ws| == 128
  {
    seq(128, i requires 0 <= i < 128 => GetWord(b, 4 * i))
  }

  function FromWords(ws: seq<Word>): Block
    requires |ws| == 128
  {
    seq(512, i requires 0 <= i < 512 => WordByte(ws[i / 4], i % 4))
  }

  lemma WordsRoundTrip(ws: seq<Word>)
    requires |ws| == 128
    ensures Words(FromWords(ws)) == ws
  {
    forall i | 0 <= i < 128 ensures Words(FromWords(ws))[i] == ws[i] {
      WordStored(ws, i);
    }
  }

  /** Word i of the block, byte by byte. */
  lemma WordStored(ws: seq<Word>, i: nat)
    requires |ws| == 128 && i < 128
    ensures GetWord(FromWords(ws), 4 * i) == ws[i]
  {
    var b := FromWords(ws);
    hide WordByte;
    assert b[4 * i] == WordByte(ws[i], 0) && b[4 * i + 1] == WordByte(ws[i], 1);
    assert b[4 * i + 2] == WordByte(ws[i], 2) && b[4 * i + 3] == WordByte(ws[i], 3);
    hide FromWords;
    WordRoundTrip(ws[i]);
  }

  lemma ZeroWords()
    ensures Words(ZeroBlock()) == seq(128, _ => 0)
  {
  }

  // ----- Inodes

  datatype Inode = Inode(size: Word, itype: Half, linkcount: Half, direct: seq<Word>, indirect: Word)

  predicate InodeOk(i: Inode) { |i.direct| == NDIRECT }

  function InodeOf(ws: seq<Word>): (i: Inode)
    requires |ws| == 128
    ensures InodeOk(i)
  {
    Inode(ws[0], ws[1] / 0x1_0000, ws[1] % 0x1_0000, ws[2..17], ws[17])
  }

  function InodeWords(i: Inode): (ws: seq<Word>)
    requires InodeOk(i)
    ensures |ws| == 128
  {
    [i.size, i.itype * 0x1_0000 + i.linkcount] + i.direct + [i.indirect] + seq(110, _ => 0)
  }

  function DecodeInode(b: Block): (i: Inode)
    ensures InodeOk(i)
  {
    InodeOf(Words(b))
  }

  function EncodeInode(i: Inode): Block
    requires InodeOk(i)
  {
    FromWords(InodeWords(i))
  }

  function EmptyInode(): Inode { Inode(0, TYPE_INVAL, 0, seq(15, _ => 0), 0) }

  lemma InodeOfWords(i: Inode)
    requires InodeOk(i)
    ensures InodeOf(InodeWords(i)) == i
  {
    var ws := InodeWords(i);
    assert ws[2..17] == i.direct;
    assert ws[17] == i.indirect;
  }

  /** What is written to an inode's block is what is read back. */
  lemma InodeRoundTrip(i: Inode)
    requires InodeOk(i)
    ensures DecodeInode(EncodeInode(i)) == i
  {
    hide Words;
    hide FromWords;
    hide InodeWords;
    hide InodeOf;
    WordsRoundTrip(InodeWords(i));
    InodeOfWords(i);
  }

  /** struct sfs_inode: the size, the type and the link count as halves of a word, 15 block
      numbers, and that of the indirect block. */
  lemma InodeLayout(i: Inode)
    requires InodeOk(i)
    ensures var b := EncodeInode(i);
            && GetWord(b, 0) == i.size && GetWord(b, 68) == i.indirect
            && (b[4] as int) * 0x100 + b[5] == i.itype && (b[6] as int) * 0x100 + b[7] == i.linkcount
            && forall k :: 0 <= k < NDIRECT ==> GetWord(b, 8 + 4 * k) == i.direct[k]
  {
    var ws, b := InodeWords(i), EncodeInode(i);
    WordStored(ws, 0);
    WordStored(ws, 17);
    assert 4 * 0 == 0 && 4 * 17 == 68;
    assert ws[1] == i.itype * 0x1_0000 + i.linkcount;
    assert b[4] == WordByte(ws[1], 0) && b[5] == WordByte(ws[1], 1);
    assert b[6] == WordByte(ws[1], 2) && b[7] == WordByte(ws[1], 3);
    HalvesStored(i.itype, i.linkcount);
    forall k | 0 <= k < NDIRECT ensures GetWord(b, 8 + 4 * k) == i.direct[k] {
      WordStored(ws, 2 + k);
      assert ws[2 + k] == i.direct[k] && 4 * (2 + k) == 8 + 4 * k;
    }
  }

  lemma HalvesStored(h: Half, l: Half)
    ensures var w: Word := h * 0x1_0000 + l;
            && (WordByte(w, 0) as int) * 0x100 + WordByte(w, 1) == h
            && (WordByte(w, 2) as int) * 0x100 + WordByte(w, 3) == l
  {
    var w: Word := h * 0x1_0000 + l;
    ShiftBytes(w);
    assert w / 0x1_0000 == h;
    assert w / 0x100 % 0x100 == l / 0x100 by { assert w / 0x100 == h * 0x100 + l / 0x100; }
    assert w % 0x100 == l % 0x100;
  }

  /** Most significant byte first. */
  lemma BigEndian()
    ensures PutWord(0x0102_0304) == [1, 2, 3, 4] && GetWord([1, 2, 3, 4], 0) == 0x0102_0304
  {
  }

  /** A cleared block reads as an inode of invalid type without blocks. */
  lemma ZeroInode()
    ensures DecodeInode(ZeroBlock()) == EmptyInode()
  {
    ZeroWords();
    assert Words(ZeroBlock())[2..17] == seq(15, _ => 0);
  }

  // ----- Directory entries

  /** A name without the terminating null. */
  datatype Entry = Entry(ino: Word, name: seq<Byte>)

  predicate NameOk(name: seq<Byte>) { |name| + 1 <= NAMELEN && 0 !in name }

  /** The characters before the first null. */
  function CString(s: seq<Byte>): seq<Byte> {
    if s == [] || s[0] == 0 then [] else [s[0]] + CString(s[1..])
  }

  function EncodeEntry(e: Entry): (s: seq<Byte>)
    requires NameOk(e.name)
    ensures |s| == DIRENT
  {
    PutWord(e.ino) + e.name + seq(NAMELEN - |e.name|, _ => 0)
  }

  /** The last byte of the name field is taken as a null. */
  function DecodeEntry(s: seq<Byte>): Entry
    requires |s| == DIRENT
  {
    Entry(GetWord(s, 0), CString(s[4..DIRENT - 1]))
  }

  lemma {:induction false} CStringPadded(name: seq<Byte>, n: nat)
    requires 0 !in name
    ensures CString(name + seq(n, _ => 0)) == name
  {
    if name == [] {
      assert name + seq(n, _ => 0) == seq(n, _ => 0);
    } else {
      assert (name + seq(n, _ => 0))[1..] == name[1..] + seq(n, _ => 0);
      CStringPadded(name[1..], n);
    }
  }

  lemma EntryRoundTrip(e: Entry)
    requires NameOk(e.name)
    ensures DecodeEntry(EncodeEntry(e)) == e
  {
    var s := EncodeEntry(e);
    WordRoundTrip(e.ino);
    assert s[..4] == PutWord(e.ino);
    assert GetWord(s, 0) == GetWord(s[..4], 0);
    assert s[4..DIRENT - 1] == e.name + seq(DIRENT - 5 - |e.name|, _ => 0);
    CStringPadded(e.name, DIRENT - 5 - |e.name|);
  }

  /** struct sfs_dir: the inode number and the name with its null. */
  lemma EntryLayout(e: Entry)
    requires NameOk(e.name)
    ensures var s := EncodeEntry(e);
            GetWord(s, 0) == e.ino && s[4..4 + |e.name|] == e.name && s[4 + |e.name|] == 0
  {
    EntryRoundTrip(e);
  }

  // ----- The superblock and the map blocks

  const SFS_MAGIC: Word := 0xabad_f001
  const VOLNAME_SIZE: nat := 32
  const BLOCKBITS: nat := 4096     // BLOCKSIZE * CHAR_BIT

  /** SFS_BITBLOCKS: the number of blocks of the free map. */
  function BitBlocks(nblocks: nat): nat { (nblocks + BLOCKBITS - 1) / BLOCKBITS }

  /** SFS_BITMAPSIZE: the number of bits in them. */
  function BitmapSize(nblocks: nat): nat { BitBlocks(nblocks) * BLOCKBITS }

  predicate InMap(b: nat, nblocks: nat) { MAP_LOCATION <= b < MAP_LOCATION + BitBlocks(nblocks) }

  /** The superblock and the free map. */
  ghost function Reserved(nblocks: nat): set<nat> {
    {SB_LOCATION} + set b | 0 <= b < MAP_LOCATION + BitBlocks(nblocks) && InMap(b, nblocks)
  }

  predicate SuperOk(b: Block, nblocks: nat) { GetWord(b, 0) == SFS_MAGIC && GetWord(b, 4) == nblocks }
}
