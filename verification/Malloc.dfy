/** malloc.c as code over heap memory, proved against HeapBlocks. */
module Malloc {
  import opened Arith
  import opened HeapBlocks

  const STACKBASE: nat := 0x7fe0_0000     // USERSTACK - 512 * PAGE_SIZE
  const FAILED: Word := 0xffff_ffff       // (void *)-1

  /** What a call to malloc can end in. Outside is a pointer past the top of the heap. */
  datatype MallocResult = Ptr(p: nat) | Null | Outside(p: nat)

  /** How the search ends: at a block that fits, at the top, or past it. */
  datatype SearchResult = Found(mh: nat) | AtTop(rightprevblock: Field29) | RanOff

  datatype FreeResult = Freed | OutOfRange | CorruptHeader | AlreadyFree

  /** size rounded up to whole units, in the 32-bit arithmetic of size_t. */
  function RoundUp(size: nat): nat { (size + MBLOCKSIZE - 1) % TWO32 / 8 * 8 }

  /** The rounding serves the request exactly when size + 7 does not wrap. */
  lemma RoundUpServes(size: nat)
    requires size < TWO32
    ensures size <= RoundUp(size) <==> size <= TWO32 - 8
    ensures RoundUp(size) % 8 == 0 && RoundUp(size) < size + 8
  {
  }

  /** What sbrk is asked for, and how it moves the break: its argument is an int. */
  function Wanted(size: nat): Word { (RoundUp(size) + MBLOCKSIZE) % TWO32 }
  function Change(size: nat): int { ToSigned(Wanted(size)) }

  /** The break moves up exactly if the size with its header is below 2^31. */
  lemma ChangeIs(size: nat)
    requires size < TWO32
    ensures RoundUp(size) + 8 < 0x8000_0000 ==> Change(size) == RoundUp(size) + 8
    ensures RoundUp(size) + 8 >= 0x8000_0000 ==> Change(size) == RoundUp(size) + 8 - TWO32 <= 0
    ensures Change(size) % 8 == 0
  {
    hide RoundUp;
    RoundUpServes(size);
    RoundedSize(size);
  }

  lemma RoundedSize(size: nat)
    ensures RoundUp(size) % 8 == 0 && RoundUp(size) <= 0xffff_fff8 && RoundUp(size) == 8 * (RoundUp(size) / 8)
  {
  }

  class Heap {
    // the kernel's view of the heap region
    const vbase: nat
    var brk: nat
    // the library's
    var heapbase: nat
    var heaptop: nat
    var mem: seq<Unit>        // contents of [heapbase, heaptop)
    ghost var blocks: seq<Block>

    /** Memory is exactly the image of the block list. */
    ghost predicate Rep()
      reads this
    {
      && heapbase % 8 == 0 && heapbase >= 8 && 0 < vbase <= heapbase
      && heaptop == heapbase + 8 * |mem| && brk == heaptop < STACKBASE
      && Image(mem, blocks)
    }

    ghost predicate Valid()
      reads this
    {
      Rep() && NoAdjacentFree(blocks)
    }

    /** Data pointer of a header: M_DATA, as a byte address. */
    function DataPtr(mh: nat): nat
      reads this
    {
      heapbase + 8 * (mh + 1)
    }

    /** __malloc_init with the break at x, which is aligned upwards. */
    constructor (base: nat, x: nat)
      requires 0 < base <= x <= STACKBASE - 8
      ensures Valid() && blocks == [] && x <= heapbase < x + 8 && vbase == base
    {
      vbase := base;
      var adjusted := if x % 8 != 0 then x + (8 - x % 8) else x;
      heapbase, heaptop, brk := adjusted, adjusted, adjusted;
      mem := [];
      blocks := [];
    }

    /** The kernel lets the break move by the amount that malloc(size) asks for.
        `grant` stands for a kernel that may have no memory. */
    predicate Granted(size: nat, grant: bool)
      reads this
    {
      grant && vbase <= heaptop + Change(size) < STACKBASE
    }

    /** sbrk: the break stays between the start of the region and the stack. */
    method Sbrk(amount: int, grant: bool) returns (x: Word)
      requires Int32(amount) && 0 < vbase && brk < STACKBASE
      modifies this`brk
      ensures if grant && vbase <= old(brk) + amount < STACKBASE then x == old(brk) && brk == old(brk) + amount
              else x == FAILED && brk == old(brk)
    {
      var top := ToWord(brk + amount);
      if !grant || top >= STACKBASE || top < vbase {
        return FAILED;
      }
      x := brk;
      brk := top;
    }

    /** __malloc_sbrk. */
    method MallocSbrk(size: Word, grant: bool) returns (x: Word)
      requires Rep()
      modifies this`brk, this`heaptop
      ensures if grant && vbase <= old(heaptop) + ToSigned(size) < STACKBASE
              then x == old(heaptop) && brk == heaptop == old(heaptop) + ToSigned(size)
              else x == 0 && brk == heaptop == old(heaptop)
    {
      hide Image;
      x := Sbrk(ToSigned(size), grant);
      if x == FAILED {
        return 0;
      }
      if x != heaptop {
        assert false;  // errx: heap top moved itself
      }
      heaptop := ToWord(heaptop + size);
    }

    /** What the code reads in the header of block k. */
    lemma ReadHeader(k: nat)
      requires Rep() && k < |blocks|
      ensures blocks[k].End() <= |mem| && (blocks[k].End() == |mem| <==> k + 1 == |blocks|)
      ensures var h := mem[blocks[k].start];
              && MagicOk(h) && h.inuse == blocks[k].inuse
              && h.nextblock == blocks[k].Units() && h.prevblock == TagOf(blocks[..k], 0)
      ensures blocks[k].start == 0 <==> k == 0
      ensures EndOf(blocks[..k], 0) == blocks[k].start && EndOf(blocks[..k + 1], 0) == blocks[k].End()
      ensures k + 1 < |blocks| ==> blocks[k + 1].start == blocks[k].End()
    {
      ReadFull(mem, k);
    }

    /** What the loop reads in the header of block k, with the blocks in memory `full`. */
    lemma ReadFull(full: seq<Unit>, k: nat)
      requires Image(full, blocks) && |full| < 0x2000_0000 && k < |blocks|
      ensures blocks[k].End() <= |full| && (blocks[k].End() == |full| <==> k + 1 == |blocks|)
      ensures var h := full[blocks[k].start];
              && MagicOk(h) && h.inuse == blocks[k].inuse
              && h.nextblock == blocks[k].Units() && h.prevblock == TagOf(blocks[..k], 0)
      ensures blocks[k].start == 0 <==> k == 0
      ensures EndOf(blocks[..k], 0) == blocks[k].start && EndOf(blocks[..k + 1], 0) == blocks[k].End()
      ensures k + 1 < |blocks| ==> blocks[k + 1].start == blocks[k].End()
    {
      At(full, blocks, k);
    }

    // Below, a header pointer (mh) is the unit index of the header in the heap, and
    // sizes handed between the routines are in units.

    method SplitAt(mh: nat, size: nat, ghost k: nat)
      requires Rep() && k < |blocks| && mh == blocks[k].start && size <= |blocks[k].data|
      modifies this`mem, this`blocks
      ensures Rep()
      ensures blocks == Split(old(blocks), k, size)
    {
      hide Segment;
      ReadHeader(k);
      var oldsize := mem[mh].nextblock - 1;
      if oldsize - size < 2 {
        return;
      }
      SplitImage(mem, blocks, k, size);
      var mhnext := mh + mem[mh].nextblock;
      mem := mem[mh := mem[mh].(nextblock := Trunc(size + 1))];
      var mhnew := mh + mem[mh].nextblock;
      if mhnew == mhnext {
        assert false;  // errx: split screwed up
      }
      mem := mem[mhnew := Unit(Trunc(size + 1), false, MMAGIC, Trunc(oldsize - size), false, MMAGIC)];
      if mhnext != |mem| {
        mem := mem[mhnext := mem[mhnext].(prevblock := mem[mhnew].nextblock)];
      }
      assert mem == SplitStores(old(mem), mh, size, oldsize - size);
      blocks := Split(blocks, k, size);
    }

    /** The new header, stored at the old top of a heap that has grown by one block.
        `junk` is what the new memory holds. */
    method AddBlock(size: nat, rightprevblock: Field29, junk: int -> Unit)
      requires Image(mem, blocks) && NoAdjacentFree(blocks) && rightprevblock == TagOf(blocks, 0)
      requires heapbase % 8 == 0 && heapbase >= 8 && 0 < vbase <= heapbase
      requires heaptop == heapbase + 8 * (|mem| + size + 1) && brk == heaptop < STACKBASE
      modifies this`mem, this`blocks
      ensures Valid()
      ensures blocks == old(blocks) + [Block(|old(mem)|, true, seq(size, i => junk(i)))]
      ensures Live(blocks) == old(Live(blocks)) + {blocks[|old(blocks)|]} && blocks[|old(blocks)|] !in old(Live(blocks))
    {
      SegmentEnd(mem, 0, 0, blocks, |mem|);
      ghost var b := Block(|mem|, true, seq(size, i => junk(i)));
      var added := [Unit(rightprevblock, false, MMAGIC, Trunc(size + 1), true, MMAGIC)] + seq(size, i => junk(i));
      GrowImage(mem, blocks, added, b);
      GrowView(blocks, b);
      AppendNoAdjacentFree(blocks, b);
      mem := mem + added;
      blocks := blocks + [b];
    }

    /** The end of memory is a boundary of a valid heap. */
    lemma TopBoundary()
      requires Rep()
      ensures Boundary(blocks, |mem|) && EndOf(blocks, 0) == |mem|
      ensures forall k :: 0 <= k < |blocks| ==> blocks[k].start < |mem|
    {
      SegmentEnd(mem, 0, 0, blocks, |mem|);
      assert blocks[..|blocks|] == blocks;
      forall k | 0 <= k < |blocks| ensures blocks[k].start < |mem| { ReadHeader(k); }
    }

    lemma BoundaryAt(k: nat)
      requires k <= |blocks| && EndOf(blocks[..k], 0) == |mem|
      ensures Boundary(blocks, |mem|)
    {
    }

    lemma FirstFitIs(k: nat, s: nat)
      requires k < |blocks| && Fits(blocks[k], s) && forall j :: 0 <= j < k ==> !Fits(blocks[j], s)
      ensures FirstFit(blocks, s) == k
    {
      hide Fits;
    }

    /** Past the first k blocks, none of which fits, there is no fit below the top. */
    lemma NoFitBelow(full: seq<Unit>, k: nat, s: nat)
      requires Image(full, blocks) && k <= |blocks| && |mem| <= EndOf(blocks[..k], 0)
      requires forall j :: 0 <= j < k ==> !Fits(blocks[j], s)
      ensures FirstFit(blocks, s) < |blocks| ==> blocks[FirstFit(blocks, s)].start >= |mem|
    {
      hide Segment;
      var f := FirstFit(blocks, s);
      if f < |blocks| {
        SegmentOrdered(full, 0, 0, blocks, |full|);
        if k > 0 { assert blocks[k - 1].End() <= blocks[f].start; }
      }
    }

    /** The top lies strictly inside block k - 1. */
    lemma BetweenBlocks(full: seq<Unit>, k: nat)
      requires Image(full, blocks) && 0 < k <= |blocks| && blocks[k - 1].start < |mem| < blocks[k - 1].End()
      ensures !Boundary(blocks, |mem|)
    {
      hide Segment;
      SegmentOrdered(full, 0, 0, blocks, |full|);
      forall j | 0 <= j <= |blocks| ensures EndOf(blocks[..j], 0) != |mem| {
        if 0 < j < k { assert blocks[j - 1].End() <= blocks[k - 1].start; }
        if j > k { assert blocks[k - 1].End() <= blocks[j - 1].start; }
      }
    }

    /** The search loop of malloc, in a heap whose top may have dropped into or below the
        last blocks: `full` is the memory the blocks once had. The corruption checks in
        the loop never fire, and it runs off the end exactly if the top is no boundary. */
    method Search(s: nat, ghost full: seq<Unit>) returns (r: SearchResult)
      requires Image(full, blocks) && |full| < 0x2000_0000 && mem <= full
      ensures r.Found? <==> FirstFit(blocks, s) < |blocks| && blocks[FirstFit(blocks, s)].start < |mem|
      ensures r.Found? ==> r.mh == blocks[FirstFit(blocks, s)].start
      ensures r.AtTop? <==> !r.Found? && Boundary(blocks, |mem|)
      ensures r.AtTop? && mem == full ==> r.rightprevblock == TagOf(blocks, 0)
    {
      hide Segment;
      hide Image;
      hide FirstFit;
      hide Boundary;
      hide Header;
      var mh, rightprevblock: Field29 := 0, 0;
      ghost var k := 0;
      ImageEnd(full, blocks);
      if blocks != [] { ReadFull(full, 0); }
      while mh < |mem|
        invariant 0 <= k <= |blocks| && mh == EndOf(blocks[..k], 0) && rightprevblock == TagOf(blocks[..k], 0)
        invariant k == |blocks| ==> mh == |full|
        invariant k < |blocks| ==> mh == blocks[k].start < |full|
        invariant k > 0 ==> blocks[k - 1].start < |mem|
        invariant forall j :: 0 <= j < k ==> !Fits(blocks[j], s)
        decreases |blocks| - k
      {
        ReadFull(full, k);
        if !MagicOk(mem[mh]) || mem[mh].prevblock != rightprevblock {
          assert false;  // errx: Heap corrupt
        }
        if !mem[mh].inuse && mem[mh].nextblock - 1 >= s {
          FirstFitIs(k, s);
          return Found(mh);
        }
        rightprevblock := mem[mh].nextblock;
        mh := mh + mem[mh].nextblock;
        k := k + 1;
        if k < |blocks| { ReadFull(full, k); }
      }
      NoFitBelow(full, k, s);
      if mh != |mem| {
        BetweenBlocks(full, k);
        return RanOff;
      }
      BoundaryAt(k);
      assert mem == full ==> blocks[..k] == blocks;
      r := AtTop(rightprevblock);
    }

    method Malloc(size: nat, grant: bool, junk: int -> Unit) returns (r: MallocResult)
      requires Valid() && size < TWO32
      modifies this
      ensures heapbase == old(heapbase)
      // a block that fits is taken; otherwise the result is decided by the move of the break
      ensures r.Ptr? <==>
        || FirstFit(old(blocks), RoundUp(size) / 8) < |old(blocks)|
        || (old(Granted(size, grant)) && RoundUp(size) + 8 < 0x8000_0000)
      ensures r.Null? <==> FirstFit(old(blocks), RoundUp(size) / 8) == |old(blocks)| && !old(Granted(size, grant))
      // the lowest block that fits is taken; otherwise the heap grows
      ensures r.Ptr? ==>
        var s := RoundUp(size) / 8;
        var k := FirstFit(old(blocks), s);
        && blocks == (if k < |old(blocks)| then Carve(old(blocks), k, s)
                      else old(blocks) + [Block(|old(mem)|, true, seq(s, i => junk(i)))])
        && r.p == DataPtr(blocks[k].start)
        // the new block joins the client's view, which is otherwise unchanged
        && Live(blocks) == old(Live(blocks)) + {blocks[k]} && blocks[k] !in old(Live(blocks))
        && RoundUp(size) <= 8 * |blocks[k].data| <= RoundUp(size) + 8
        && Next(old(blocks), blocks)
      ensures !r.Ptr? ==> blocks == old(blocks)
      ensures r.Null? ==> mem == old(mem) && heaptop == old(heaptop)
      // a size of 2^31 or more, header included, lowers the top and leaves the heap as it was only for a drop of 0
      ensures r.Outside? ==>
        && r.p == old(heaptop) + 8 && brk == heaptop == old(heaptop) + RoundUp(size) + 8 - TWO32
        && mem == old(mem)[..if heaptop < heapbase then 0 else (heaptop - heapbase) / 8]
      ensures Valid() <==> !r.Outside? || RoundUp(size) + 8 == TWO32
    {
      hide Segment;
      hide RoundUp;
      hide Change;
      hide Carve;
      hide FirstFit;
      hide NoAdjacentFree;
      hide Live;
      hide Next;
      hide Boundary;
      RoundedSize(size);
      ChangeIs(size);
      var s := RoundUp(size) / 8;
      var found := Search(s, mem);
      TopBoundary();
      if found.Found? {
        NextCarve(blocks, s);
        Take(found.mh, s, FirstFit(blocks, s));
        return Ptr(DataPtr(found.mh));
      }
      NextGrow(blocks, seq(s, i => junk(i)));
      r := Extend(size, s, found.rightprevblock, grant, junk);
    }

    /** The end of malloc: ask for a header and s units, and store the header at what
        was the top. */
    method Extend(size: nat, s: nat, rightprevblock: Field29, grant: bool, junk: int -> Unit) returns (r: MallocResult)
      requires Valid() && size < TWO32 && RoundUp(size) == 8 * s && rightprevblock == TagOf(blocks, 0)
      modifies this
      ensures heapbase == old(heapbase)
      ensures r.Null? <==> !old(Granted(size, grant))
      ensures r.Ptr? <==> old(Granted(size, grant)) && 8 * s + 8 < 0x8000_0000
      ensures r.Ptr? ==>
        && Valid() && r.p == DataPtr(|old(mem)|)
        && blocks == old(blocks) + [Block(|old(mem)|, true, seq(s, i => junk(i)))]
        && Live(blocks) == old(Live(blocks)) + {blocks[|old(blocks)|]} && blocks[|old(blocks)|] !in old(Live(blocks))
      ensures !r.Ptr? ==> blocks == old(blocks)
      ensures r.Null? ==> Valid() && mem == old(mem) && heaptop == old(heaptop)
      ensures r.Outside? ==>
        && r.p == old(heaptop) + 8 && brk == heaptop == old(heaptop) + 8 * s + 8 - TWO32
        && mem == old(mem)[..if heaptop < heapbase then 0 else (heaptop - heapbase) / 8]
        && (Valid() <==> 8 * s + 8 == TWO32)
    {
      hide Segment;
      hide RoundUp;
      hide NoAdjacentFree;
      hide Live;
      hide Image;
      hide ToSigned;
      hide Wanted;
      ChangeIs(size);
      var top := heaptop;
      var mh := MallocSbrk(Wanted(size), grant);
      if mh == 0 {
        return Null;
      }
      if top < heaptop {
        AddBlock(s, rightprevblock, junk);
        return Ptr(top + 8);
      }
      Drop();
      return Outside(top + 8);
    }

    /** The library's memory ends at a top that has dropped. */
    method Drop()
      requires heapbase % 8 == 0 && heapbase >= 8 && 0 < vbase <= heapbase && NoAdjacentFree(blocks)
      requires Image(mem, blocks) && brk == heaptop < STACKBASE && heaptop % 8 == 0 && heaptop <= heapbase + 8 * |mem|
      modifies this`mem
      ensures mem == old(mem)[..if heaptop < heapbase then 0 else (heaptop - heapbase) / 8]
      ensures Valid() <==> heaptop == heapbase + 8 * old(|mem|)
    {
      hide Segment;
      SegmentEnd(mem, 0, 0, blocks, |mem|);
      var n := if heaptop < heapbase then 0 else (heaptop - heapbase) / 8;
      if n == |mem| {
        assert mem[..n] == mem;
      }
      mem := mem[..n];
      if Image(mem, blocks) { SegmentEnd(mem, 0, 0, blocks, |mem|); }
    }

    /** Split block k and mark it in use. */
    method Take(mh: nat, s: nat, ghost k: nat)
      requires Valid() && k < |blocks| && mh == blocks[k].start && Fits(blocks[k], s)
      modifies this`mem, this`blocks
      ensures Valid() && blocks == Carve(old(blocks), k, s) && blocks[k].start == mh
      ensures Live(blocks) == old(Live(blocks)) + {blocks[k]} && blocks[k] !in old(Live(blocks))
      ensures s <= |blocks[k].data| <= s + 1
    {
      hide Segment;
      CarveView(mem, blocks, k, s);
      SplitAt(mh, s, k);
      assert blocks[k].start == mh;
      MarkImage(mem, blocks, k, true);
      mem := mem[mh := mem[mh].(inuse := true)];
      blocks := Mark(blocks, k, true);
      CarveNoAdjacentFree(old(blocks), k, s);
    }

    lemma ReadPair(k: nat)
      requires Rep() && k + 1 < |blocks|
      ensures blocks[k].End() == blocks[k + 1].start < blocks[k + 1].End() <= |mem|
      ensures mem[blocks[k].start].nextblock == blocks[k].Units() == mem[blocks[k + 1].start].prevblock
      ensures mem[blocks[k + 1].start].nextblock == blocks[k + 1].Units()
      ensures mem[blocks[k].start].inuse == blocks[k].inuse
      ensures mem[blocks[k + 1].start].inuse == blocks[k + 1].inuse
    {
      ReadHeader(k);
      ReadHeader(k + 1);
      assert TagOf(blocks[..k + 1], 0) == blocks[k].Units();
    }

    /** __malloc_trymerge on the headers of blocks k and k+1. */
    method TryMerge(mh: nat, mhnext: nat, ghost k: nat)
      requires Rep() && k + 1 < |blocks| && mh == blocks[k].start && mhnext == blocks[k + 1].start
      modifies this`mem, this`blocks
      ensures Rep() && blocks == MergeAt(old(blocks), k)
    {
      hide Segment;
      ReadPair(k);
      if mem[mh].nextblock != mem[mhnext].prevblock {
        assert false;  // errx: Heap corrupt
      }
      if mem[mh].inuse || mem[mhnext].inuse {
        return;
      }
      MergeImage(mem, blocks, k);
      var n1, n2 := mem[mh].nextblock, mem[mhnext].nextblock;
      var mhnextnext := mhnext + n2;
      mem := mem[mh := mem[mh].(nextblock := Trunc(n1 + n2))];
      if mhnextnext != |mem| {
        mem := mem[mhnextnext := mem[mhnextnext].(prevblock := mem[mh].nextblock)];
      }
      mem := mem[mhnext := DEADBEEF];
      assert mem == MergeStores(old(mem), mh, n1, n2);
      blocks := MergeAt(blocks, k);
    }

    /** Mark block k free and wipe its data. */
    method WipeBlock(mh: nat, ghost k: nat)
      requires Rep() && k < |blocks| && mh == blocks[k].start
      modifies this`mem, this`blocks
      ensures Rep() && blocks == Wipe(old(blocks), k) && |mem| == old(|mem|)
    {
      ReadHeader(k);
      mem := mem[mh := mem[mh].(inuse := false)];
      var size := mem[mh].nextblock - 1;
      var i := 0;
      while i < size
        modifies this`mem
        invariant 0 <= i <= size && |mem| == |old(mem)|
        invariant mem[mh] == old(mem)[mh].(inuse := false)
        invariant forall j :: mh < j <= mh + i ==> mem[j] == DEADBEEF
        invariant forall j :: 0 <= j < |mem| && (j < mh || j > mh + i) ==> mem[j] == old(mem)[j]
      {
        mem := mem[mh + 1 + i := DEADBEEF];
        i := i + 1;
      }
      WipeImage(old(mem), mem, blocks, k);
      blocks := Wipe(blocks, k);
    }

    /** Unit index of the header that free(x) looks at. */
    function HeaderOf(x: nat): int
      reads this
    {
      (x - heapbase) / 8 - 1
    }

    /** x is outside the heap, or an aligned pointer whose header is a real one or
        does not look like one. Data forged to look like a header is excluded. */
    ghost predicate Checkable(x: nat)
      reads this
    {
      heapbase <= x < heaptop ==>
        && x % 8 == 0 && 0 <= HeaderOf(x) < |mem|
        && (FindStart(blocks, HeaderOf(x)) < |blocks| || !MagicOk(mem[HeaderOf(x)]))
    }

    /** Where the data pointers of the blocks are. */
    lemma LivePointers(x: nat)
      requires Rep()
      ensures forall k :: 0 <= k < |blocks| && x == DataPtr(blocks[k].start) ==>
        && x % 8 == 0 && HeaderOf(x) == blocks[k].start && FindStart(blocks, HeaderOf(x)) == k
        && heapbase < x && (x >= heaptop <==> blocks[k].data == [] && k + 1 == |blocks|)
    {
      SegmentOrdered(mem, 0, 0, blocks, |mem|);
      forall k | 0 <= k < |blocks| && x == DataPtr(blocks[k].start)
        ensures && x % 8 == 0 && HeaderOf(x) == blocks[k].start && FindStart(blocks, HeaderOf(x)) == k
                && heapbase < x && (x >= heaptop <==> blocks[k].data == [] && k + 1 == |blocks|)
      {
        ReadHeader(k);
        var f := FindStart(blocks, HeaderOf(x));
        assert f < |blocks| && !(f < k) && !(k < f);
      }
    }

    method Free(x: nat) returns (r: FreeResult)
      requires Valid() && Checkable(x)
      modifies this`mem, this`blocks
      ensures Valid()
      // accepted exactly for null and for data pointers of live blocks below the top
      ensures r == Freed <==>
        || x == 0
        || (heapbase < x < heaptop
            && var k := FindStart(old(blocks), HeaderOf(x)); k < |old(blocks)| && old(blocks)[k].inuse)
      ensures r == Freed && x != 0 ==>
        var k := FindStart(old(blocks), HeaderOf(x));
        && blocks == Release(old(blocks), k)
        && Live(blocks) == old(Live(blocks)) - {old(blocks)[k]}
        && Next(old(blocks), blocks)
      // a live block is rejected exactly if it has no data and ends at the top
      ensures forall k :: 0 <= k < |old(blocks)| && old(blocks)[k].inuse && x == DataPtr(old(blocks)[k].start) ==>
        r == if old(blocks)[k].data == [] && k + 1 == |old(blocks)| then OutOfRange else Freed
      ensures r != Freed || x == 0 ==> blocks == old(blocks) && mem == old(mem)
    {
      hide Segment;
      hide Next;
      hide Release;
      hide NoAdjacentFree;
      hide Live;
      hide Image;
      LivePointers(x);
      if x == 0 {
        return Freed;
      }
      if x < heapbase || x >= heaptop {
        return OutOfRange;
      }
      var mh := HeaderOf(x);
      ghost var k := FindStart(blocks, mh);
      if k < |blocks| { ReadHeader(k); }
      if !MagicOk(mem[mh]) {
        return CorruptHeader;
      }
      if !mem[mh].inuse {
        return AlreadyFree;
      }
      NextRelease(blocks, k);
      FreeBlock(mh, k);
      r := Freed;
    }

    method FreeBlock(mh: nat, ghost k: nat)
      requires Valid() && k < |blocks| && mh == blocks[k].start && blocks[k].inuse
      modifies this`mem, this`blocks
      ensures Valid() && blocks == Release(old(blocks), k)
      ensures Live(blocks) == old(Live(blocks)) - {old(blocks)[k]}
    {
      hide Segment;
      ReleaseNoAdjacentFree(blocks, k);
      SegmentOrdered(mem, 0, 0, blocks, |mem|);
      ReleaseView(blocks, k);
      WipeBlock(mh, k);
      MergeUp(mh, k);
      MergeDown(mh, k);
    }

    method MergeUp(mh: nat, ghost k: nat)
      requires Rep() && k < |blocks| && mh == blocks[k].start
      modifies this`mem, this`blocks
      ensures Rep() && blocks == MergeAbove(old(blocks), k) && blocks[k].start == mh
    {
      hide Segment;
      ReadHeader(k);
      var mhnext := mh + mem[mh].nextblock;
      if mhnext != |mem| {
        TryMerge(mh, mhnext, k);
      }
    }

    method MergeDown(mh: nat, ghost k: nat)
      requires Rep() && k < |blocks| && mh == blocks[k].start
      modifies this`mem, this`blocks
      ensures Rep() && blocks == MergeBelow(old(blocks), k)
    {
      hide Segment;
      ReadHeader(k);
      if mh != 0 {
        ReadPair(k - 1);
        var mhprev := mh - mem[mh].prevblock;
        TryMerge(mhprev, mh, k - 1);
      }
    }

    /** A client store into unit i of the live block k: the heap stays well formed. */
    method ClientStore(mh: nat, i: nat, u: Unit, ghost k: nat)
      requires Valid() && k < |blocks| && mh == blocks[k].start && blocks[k].inuse && i < |blocks[k].data|
      modifies this`mem, this`blocks
      ensures Valid() && blocks == old(blocks)[k := old(blocks)[k].(data := old(blocks)[k].data[i := u])]
      ensures Next(old(blocks), blocks)
    {
      hide Next;
      ReadHeader(k);
      ghost var b := blocks[k].(data := blocks[k].data[i := u]);
      At(mem, blocks, k);
      mem := mem[mh + 1 + i := u];
      assert mem[b.start + 1..b.End()] == b.data;
      UpdateImage(old(mem), mem, blocks, k, b);
      NextStore(blocks, k, b.data);
      blocks := blocks[k := b];
    }
  }

  /** malloc(0) on an empty heap gives a block that free rejects. */
  method EmptyTopBlockExample(base: nat, junk: int -> Unit) returns (r: FreeResult)
    requires 0 < base <= STACKBASE - 24
    ensures r == OutOfRange
  {
    var h := new Heap(base, base);
    var p := h.Malloc(0, true, junk);
    h.LivePointers(p.p);
    r := h.Free(p.p);
  }

  /** A heap after malloc(8): one live block of one unit. */
  method OneBlock(base: nat, junk: int -> Unit) returns (h: Heap)
    requires 0 < base <= STACKBASE - 32
    ensures fresh(h) && h.Valid() && |h.mem| == 2
    ensures |h.blocks| == 1 && h.blocks[0].start == 0 && h.blocks[0].inuse && |h.blocks[0].data| == 1
  {
    hide Next;
    hide Image;
    hide Carve;
    hide Live;
    hide FirstFit;
    hide NoAdjacentFree;
    assert RoundUp(8) == 8;
    hide RoundUp;
    ChangeIs(8);
    hide Change;
    h := new Heap(base, base);
    ImageEnd(h.mem, h.blocks);
    var p := h.Malloc(8, true, junk);
    ImageEnd(h.mem, h.blocks);
  }

  /** malloc(2^32 - 16) after malloc(8) asks sbrk for -8 bytes: the top drops into the
      first block, and the next search runs off the end. */
  method DroppedTopExample(base: nat, junk: int -> Unit, s: nat) returns (r: SearchResult)
    requires 0 < base <= STACKBASE - 32
    ensures r == RanOff
  {
    hide Next;
    hide Boundary;
    hide Image;
    hide Carve;
    hide Live;
    hide FirstFit;
    hide NoAdjacentFree;
    assert RoundUp(0xffff_fff0) == 0xffff_fff0;
    hide RoundUp;
    ChangeIs(0xffff_fff0);
    hide Change;
    var h := OneBlock(base, junk);
    ghost var full := h.mem;
    assert FirstFit(h.blocks, 0xffff_fff0 / 8) == 1;
    var q := h.Malloc(0xffff_fff0, true, junk);
    assert q.Outside? && |h.mem| == 1;
    h.BetweenBlocks(full, 1);
    r := h.Search(s, full);
  }

  // ----- Whole runs

  ghost predicate Carved(bs: seq<Block>, bs': seq<Block>) {
    exists s :: FirstFit(bs, s) < |bs| && bs' == Carve(bs, FirstFit(bs, s), s)
  }

  ghost predicate Extended(bs: seq<Block>, bs': seq<Block>) {
    exists d :: FirstFit(bs, |d|) == |bs| && bs' == bs + [Block(EndOf(bs, 0), true, d)]
  }

  ghost predicate Released(bs: seq<Block>, bs': seq<Block>) {
    exists k :: 0 <= k < |bs| && bs[k].inuse && bs' == Release(bs, k)
  }

  ghost predicate Stored(bs: seq<Block>, bs': seq<Block>) {
    exists k, d :: 0 <= k < |bs| && bs[k].inuse && |d| == |bs[k].data| && bs' == bs[k := bs[k].(data := d)]
  }

  /** One call of malloc or free, or a client write into a live block. */
  ghost predicate Next(bs: seq<Block>, bs': seq<Block>) {
    Carved(bs, bs') || Extended(bs, bs') || Released(bs, bs') || Stored(bs, bs')
  }

  lemma NextCarve(bs: seq<Block>, s: nat)
    requires FirstFit(bs, s) < |bs|
    ensures Next(bs, Carve(bs, FirstFit(bs, s), s))
  {
    assert Carved(bs, Carve(bs, FirstFit(bs, s), s));
  }

  lemma NextGrow(bs: seq<Block>, d: seq<Unit>)
    requires FirstFit(bs, |d|) == |bs|
    ensures Next(bs, bs + [Block(EndOf(bs, 0), true, d)])
  {
    assert Extended(bs, bs + [Block(EndOf(bs, 0), true, d)]);
  }

  lemma NextRelease(bs: seq<Block>, k: nat)
    requires k < |bs| && bs[k].inuse
    ensures Next(bs, Release(bs, k))
  {
    assert Released(bs, Release(bs, k));
  }

  lemma NextStore(bs: seq<Block>, k: nat, d: seq<Unit>)
    requires k < |bs| && bs[k].inuse && |d| == |bs[k].data|
    ensures Next(bs, bs[k := bs[k].(data := d)])
  {
    hide Carved;
    hide Extended;
    hide Released;
    assert Stored(bs, bs[k := bs[k].(data := d)]);
  }

  lemma NextCoalesced(bs: seq<Block>, bs': seq<Block>)
    requires NoAdjacentFree(bs) && Next(bs, bs')
    ensures NoAdjacentFree(bs')
  {
    if Carved(bs, bs') {
      var s :| FirstFit(bs, s) < |bs| && bs' == Carve(bs, FirstFit(bs, s), s);
      CarveNoAdjacentFree(bs, FirstFit(bs, s), s);
    } else if Released(bs, bs') {
      var k :| 0 <= k < |bs| && bs[k].inuse && bs' == Release(bs, k);
      ReleaseNoAdjacentFree(bs, k);
    } else if Stored(bs, bs') {
      var k, d :| 0 <= k < |bs| && bs[k].inuse && |d| == |bs[k].data| && bs' == bs[k := bs[k].(data := d)];
      StoreNoAdjacentFree(bs, k, bs[k].(data := d));
    } else {
      var d :| FirstFit(bs, |d|) == |bs| && bs' == bs + [Block(EndOf(bs, 0), true, d)];
      AppendNoAdjacentFree(bs, Block(EndOf(bs, 0), true, d));
    }
  }

  /** After any sequence of calls no two free blocks touch, and if everything has
      been freed the heap is empty or a single free block. */
  lemma {:induction false} RunCoalesced(run: seq<seq<Block>>, n: nat)
    requires n < |run| && run[0] == []
    requires forall i :: 0 < i < |run| ==> Next(run[i - 1], run[i])
    ensures NoAdjacentFree(run[n])
    ensures Live(run[n]) == {} ==> |run[n]| <= 1
  {
    if n > 0 {
      RunCoalesced(run, n - 1);
      NextCoalesced(run[n - 1], run[n]);
    }
    AllFreedIsOneBlock(run[n]);
  }
}
