/** The heap of the user-level allocator as a list of blocks, and what malloc
    and free do to that list.

    Heap memory is a sequence of 8-byte units, the granule of the allocator:
    block headers (one unit each) and client data live in the same memory.
    `Image` says that a memory is the rendering of a block list: the blocks tile
    it exactly, every header has the right tags and magic bits, and every data
    area holds the block's contents. */
module HeapBlocks {

  const MBLOCKSIZE: nat := 8
  const MMAGIC: nat := 2

  type Field29 = v: nat | v < 0x2000_0000
  type Field2 = v: nat | v < 4

  /** Eight bytes of memory, seen through the bit fields of struct mheader. Every
      64-bit pattern is such a value, so this is the type of data units too. */
  datatype Unit = Unit(prevblock: Field29, pad: bool, magic1: Field2,
                       nextblock: Field29, inuse: bool, magic2: Field2)

  /** The words 0xdeadbeef, 0xdeadbeef. */
  const DEADBEEF := Unit(0xdeadbeef / 8, true, 3, 0xdeadbeef / 8, true, 3)

  predicate MagicOk(u: Unit) { u.magic1 == MMAGIC && u.magic2 == MMAGIC }

  /** A value stored in a 29-bit field. */
  function Trunc(v: nat): Field29 { if v < 0x2000_0000 then v else v % 0x2000_0000 }

  function Header(prev: nat, next: nat, inuse: bool): Unit {
    Unit(Trunc(prev), false, MMAGIC, Trunc(next), inuse, MMAGIC)
  }

  // ----- Blocks

  /** A block whose header is at unit `start` of the heap. */
  datatype Block = Block(start: nat, inuse: bool, data: seq<Unit>) {
    /** Size in units, header included: the value of the next tag. */
    function Units(): nat { 1 + |data| }
    function End(): nat { start + 1 + |data| }
  }

  /** Where the blocks of bs, starting at `from`, end. */
  function EndOf(bs: seq<Block>, from: nat): nat {
    if bs == [] then from else bs[|bs| - 1].End()
  }

  /** The prev tag of the header that follows bs. */
  function TagOf(bs: seq<Block>, tag: nat): nat {
    if bs == [] then tag else bs[|bs| - 1].Units()
  }

  /** Memory m holds block b at its place, under prev tag `tag`. */
  ghost predicate HoldsBlock(m: seq<Unit>, b: Block, tag: nat) {
    && b.End() <= |m|
    && m[b.start] == Header(tag, b.Units(), b.inuse)
    && m[b.start + 1..b.End()] == b.data
  }

  /** Units from..to of m are exactly the blocks bs, in order; the first header's
      prev tag is `tag` and every other one is its predecessor's next tag. */
  ghost predicate Segment(m: seq<Unit>, from: nat, tag: nat, bs: seq<Block>, to: nat)
    decreases |bs|
  {
    if bs == [] then from == to
    else
      && bs[0].start == from
      && HoldsBlock(m, bs[0], tag)
      && Segment(m, bs[0].End(), bs[0].Units(), bs[1..], to)
  }

  /** The blocks tile the whole of memory m. */
  ghost predicate Image(m: seq<Unit>, bs: seq<Block>) {
    Segment(m, 0, 0, bs, |m|)
  }

  predicate NoAdjacentFree(bs: seq<Block>) {
    forall i :: 0 <= i < |bs| - 1 ==> bs[i].inuse || bs[i + 1].inuse
  }

  /** The client's view: where each live block is and what it contains. */
  function Live(bs: seq<Block>): set<Block> { set b | b in bs && b.inuse }

  // ----- What malloc and free do to the block list

  predicate Fits(b: Block, s: nat) { !b.inuse && |b.data| >= s }

  /** Lowest-addressed block that fits, or |bs|. */
  function FirstFit(bs: seq<Block>, s: nat): (k: nat)
    ensures k <= |bs|
    ensures k < |bs| ==> Fits(bs[k], s)
    ensures forall j :: 0 <= j < k ==> !Fits(bs[j], s)
  {
    if bs == [] then 0
    else if Fits(bs[0], s) then 0
    else
      var k := 1 + FirstFit(bs[1..], s);
      assert forall j :: 0 < j < k ==> bs[j] == bs[1..][j - 1];
      k
  }

  /** Unit u is where a block starts or the last one ends. */
  ghost predicate Boundary(bs: seq<Block>, u: nat) {
    exists j :: 0 <= j <= |bs| && EndOf(bs[..j], 0) == u
  }

  /** Index of the block whose header is at unit u, or |bs|. */
  function FindStart(bs: seq<Block>, u: nat): (k: nat)
    ensures k <= |bs|
    ensures k < |bs| ==> bs[k].start == u
    ensures k == |bs| ==> forall j :: 0 <= j < |bs| ==> bs[j].start != u
  {
    if bs == [] then 0
    else if bs[0].start == u then 0
    else
      var k := 1 + FindStart(bs[1..], u);
      assert forall j :: 0 < j < |bs| ==> bs[j] == bs[1..][j - 1];
      k
  }

  /** __malloc_split: keep s units of data, make the excess a free block. */
  function SplitBlock(b: Block, s: nat): seq<Block>
    requires |b.data| >= s
  {
    if |b.data| - s < 2 then [b]
    else [Block(b.start, b.inuse, b.data[..s]), Block(b.start + 1 + s, false, b.data[s + 1..])]
  }

  function Split(bs: seq<Block>, k: nat, s: nat): seq<Block>
    requires k < |bs| && |bs[k].data| >= s
  {
    bs[..k] + SplitBlock(bs[k], s) + bs[k + 1..]
  }

  function Mark(bs: seq<Block>, k: nat, inuse: bool): seq<Block>
    requires k < |bs|
  {
    bs[k := bs[k].(inuse := inuse)]
  }

  /** The list after block k, which fits, is carved and taken. */
  function Carve(bs: seq<Block>, k: nat, s: nat): seq<Block>
    requires k < |bs| && Fits(bs[k], s)
  {
    Mark(Split(bs, k, s), k, true)
  }

  /** __malloc_trymerge on blocks k and k+1. */
  function MergeAt(bs: seq<Block>, k: nat): seq<Block>
    requires k + 1 < |bs|
  {
    if bs[k].inuse || bs[k + 1].inuse then bs
    else bs[..k] + [Block(bs[k].start, false, bs[k].data + [DEADBEEF] + bs[k + 1].data)] + bs[k + 2..]
  }

  function Wipe(bs: seq<Block>, k: nat): seq<Block>
    requires k < |bs|
  {
    bs[k := bs[k].(inuse := false, data := seq(|bs[k].data|, _ => DEADBEEF))]
  }

  function MergeAbove(bs: seq<Block>, k: nat): seq<Block>
    requires k < |bs|
  {
    if k + 1 < |bs| then MergeAt(bs, k) else bs
  }

  function MergeBelow(bs: seq<Block>, k: nat): seq<Block>
    requires k < |bs|
  {
    if k > 0 then MergeAt(bs, k - 1) else bs
  }

  /** free: mark, wipe, merge upwards, merge downwards. */
  function Release(bs: seq<Block>, k: nat): seq<Block>
    requires k < |bs|
  {
    MergeBelow(MergeAbove(Wipe(bs, k), k), k)
  }

  // ----- The stores, and the images they produce

  function SetPrevAt(m: seq<Unit>, z: nat, q: nat): seq<Unit> {
    if z < |m| then m[z := m[z].(prevblock := Trunc(q))] else m
  }

  function SplitStores(m: seq<Unit>, x: nat, s: nat, n: nat): seq<Unit>
    requires x + s + 1 < |m|
  {
    SetPrevAt(m[x := m[x].(nextblock := Trunc(s + 1))][x + s + 1 := Header(s + 1, n, false)],
              x + s + 1 + n, n)
  }

  function MergeStores(m: seq<Unit>, x: nat, n1: nat, n2: nat): seq<Unit>
    requires x + n1 < |m|
  {
    SetPrevAt(m[x := m[x].(nextblock := Trunc(n1 + n2))], x + n1 + n2, n1 + n2)[x + n1 := DEADBEEF]
  }

  lemma {:induction false} SegmentEnd(m: seq<Unit>, from: nat, tag: nat, bs: seq<Block>, to: nat)
    requires Segment(m, from, tag, bs, to)
    ensures from <= to == EndOf(bs, from)
    ensures bs != [] ==> from < to <= |m|
    ensures forall b :: b in bs ==> from <= b.start && b.End() <= to
    decreases |bs|
  {
    if bs != [] {
      SegmentEnd(m, bs[0].End(), bs[0].Units(), bs[1..], to);
    }
  }

  lemma ImageEnd(m: seq<Unit>, bs: seq<Block>)
    requires Image(m, bs)
    ensures |m| == EndOf(bs, 0)
  {
    SegmentEnd(m, 0, 0, bs, |m|);
  }

  /** A segment splits at any place between two blocks, and segments join. */
  lemma {:induction false} SegmentAppend(m: seq<Unit>, from: nat, tag: nat, a: seq<Block>, b: seq<Block>, to: nat)
    ensures Segment(m, from, tag, a + b, to)
       <==> Segment(m, from, tag, a, EndOf(a, from)) && Segment(m, EndOf(a, from), TagOf(a, tag), b, to)
    decreases |a|
  {
    if a == [] {
      assert a + b == b;
    } else {
      assert (a + b)[1..] == a[1..] + b;
      SegmentAppend(m, a[0].End(), a[0].Units(), a[1..], b, to);
    }
  }

  /** A segment depends only on the memory between its ends. */
  lemma {:induction false} SegmentFrame(m: seq<Unit>, m': seq<Unit>, from: nat, tag: nat, bs: seq<Block>, to: nat)
    requires Segment(m, from, tag, bs, to) && |m'| >= |m|
    requires forall i :: from <= i < to <= |m| ==> m'[i] == m[i]
    ensures Segment(m', from, tag, bs, to)
    decreases |bs|
  {
    if bs != [] {
      SegmentEnd(m, from, tag, bs, to);
      SegmentEnd(m, bs[0].End(), bs[0].Units(), bs[1..], to);
      assert m'[from + 1..bs[0].End()] == m[from + 1..bs[0].End()];
      SegmentFrame(m, m', bs[0].End(), bs[0].Units(), bs[1..], to);
    }
  }

  /** Rewriting the prev tag of the first header. */
  lemma SegmentRetag(m: seq<Unit>, m': seq<Unit>, from: nat, tag: nat, tag': nat, bs: seq<Block>, to: nat)
    requires Segment(m, from, tag, bs, to) && |m'| == |m|
    requires forall i :: from < i < to <= |m| ==> m'[i] == m[i]
    requires bs != [] ==> from < |m| && m'[from] == m[from].(prevblock := Trunc(tag'))
    ensures Segment(m', from, tag', bs, to)
  {
    if bs != [] {
      SegmentEnd(m, from, tag, bs, to);
      SegmentEnd(m, bs[0].End(), bs[0].Units(), bs[1..], to);
      assert m'[from + 1..bs[0].End()] == m[from + 1..bs[0].End()];
      SegmentFrame(m, m', bs[0].End(), bs[0].Units(), bs[1..], to);
    }
  }

  /** Memory around a stretch `cut` of the list. */
  lemma Around(m: seq<Unit>, pre: seq<Block>, cut: seq<Block>, post: seq<Block>)
    ensures Image(m, pre + cut + post)
       <==> && Segment(m, 0, 0, pre, EndOf(pre, 0))
            && Segment(m, EndOf(pre, 0), TagOf(pre, 0), cut, EndOf(cut, EndOf(pre, 0)))
            && Segment(m, EndOf(cut, EndOf(pre, 0)), TagOf(cut, TagOf(pre, 0)), post, |m|)
  {
    assert pre + cut + post == pre + (cut + post);
    SegmentAppend(m, 0, 0, pre, cut + post, |m|);
    SegmentAppend(m, EndOf(pre, 0), TagOf(pre, 0), cut, post, |m|);
  }

  /** m' differs from m only in units lo..hi and in the prev tag of the header at hi. */
  ghost predicate SameOutside(m: seq<Unit>, m': seq<Unit>, lo: nat, hi: nat, tag: nat) {
    && |m'| == |m|
    && (forall i :: 0 <= i < |m| && (i < lo || i > hi) ==> m'[i] == m[i])
    && (hi < |m| ==> m'[hi] == m[hi].(prevblock := Trunc(tag)))
  }

  lemma SplitFrame(m: seq<Unit>, x: nat, s: nat, n: nat)
    requires 0 < n && x + s + 1 + n <= |m|
    ensures SameOutside(m, SplitStores(m, x, s, n), x, x + s + 1 + n, n)
  {
  }

  lemma MergeFrame(m: seq<Unit>, x: nat, n1: nat, n2: nat)
    requires 0 < n1 && 0 < n2 && x + n1 + n2 <= |m|
    ensures SameOutside(m, MergeStores(m, x, n1, n2), x, x + n1 + n2, n1 + n2)
  {
  }

  /** Replacing the blocks `cut` by blocks `mid` over the same units: enough to
      change memory between their ends and the prev tag that follows. */
  lemma Replace(m: seq<Unit>, m': seq<Unit>, pre: seq<Block>, cut: seq<Block>, mid: seq<Block>, post: seq<Block>)
    requires Image(m, pre + cut + post) && cut != [] && mid != []
    requires EndOf(mid, 0) == EndOf(cut, 0)
    requires Segment(m', EndOf(pre, 0), TagOf(pre, 0), mid, EndOf(mid, 0))
    requires SameOutside(m, m', EndOf(pre, 0), EndOf(cut, 0), TagOf(mid, 0))
    ensures Image(m', pre + mid + post)
  {
    Around(m, pre, cut, post);
    SegmentFrame(m, m', 0, 0, pre, EndOf(pre, 0));
    SegmentEnd(m, EndOf(cut, 0), TagOf(cut, 0), post, |m|);
    SegmentRetag(m, m', EndOf(cut, 0), TagOf(cut, 0), TagOf(mid, 0), post, |m|);
    Around(m', pre, mid, post);
  }

  /** The part of the image around block k. */
  lemma At(m: seq<Unit>, bs: seq<Block>, k: nat)
    requires Image(m, bs) && k < |bs|
    ensures bs == bs[..k] + [bs[k]] + bs[k + 1..]
    ensures EndOf(bs[..k], 0) == bs[k].start && HoldsBlock(m, bs[k], TagOf(bs[..k], 0))
    ensures bs[k].End() <= |m| && (bs[k].End() == |m| <==> k + 1 == |bs|)
    ensures bs[k].start == 0 <==> k == 0
    ensures TagOf(bs[..k], 0) < |m| && bs[k].Units() <= |m|
    ensures k + 1 < |bs| ==> bs[k + 1].start == bs[k].End() && HoldsBlock(m, bs[k + 1], bs[k].Units())
  {
    var pre, post := bs[..k], bs[k + 1..];
    assert bs == pre + [bs[k]] + post;
    Around(m, pre, [bs[k]], post);
    SegmentEnd(m, 0, 0, pre, EndOf(pre, 0));
    SegmentEnd(m, bs[k].End(), bs[k].Units(), post, |m|);
  }

  lemma SameSlice<T>(m: seq<T>, m': seq<T>, i: nat, j: nat)
    requires i <= j <= |m| && j <= |m'| && forall x :: i <= x < j ==> m'[x] == m[x]
    ensures m'[i..j] == m[i..j]
  {
  }

  lemma SubSlice<T>(m: seq<T>, i: nat, j: nat, s: nat, t: nat)
    requires i <= j <= |m| && s <= t <= j - i
    ensures m[i..j][s..t] == m[i + s..i + t]
  {
    forall x | 0 <= x < t - s ensures m[i..j][s..t][x] == m[i + s..i + t][x] {
      assert m[i..j][s..t][x] == m[i..j][s + x] == m[i + s + x];
    }
  }

  lemma SplitLow(m: seq<Unit>, b: Block, tag: nat, s: nat)
    requires HoldsBlock(m, b, tag) && |b.data| >= s + 2
    ensures HoldsBlock(SplitStores(m, b.start, s, |b.data| - s), SplitBlock(b, s)[0], tag)
  {
    var x, m' := b.start, SplitStores(m, b.start, s, |b.data| - s);
    SameSlice(m, m', x + 1, x + 1 + s);
    SubSlice(m, x + 1, b.End(), 0, s);
    assert b.data[..s] == b.data[0..s];
  }

  lemma SplitHigh(m: seq<Unit>, b: Block, tag: nat, s: nat)
    requires HoldsBlock(m, b, tag) && |b.data| >= s + 2
    ensures HoldsBlock(SplitStores(m, b.start, s, |b.data| - s), SplitBlock(b, s)[1], s + 1)
  {
    hide Trunc;
    var x, m' := b.start, SplitStores(m, b.start, s, |b.data| - s);
    SameSlice(m, m', x + s + 2, b.End());
    SubSlice(m, x + 1, b.End(), s + 1, |b.data|);
    assert b.data[s + 1..] == b.data[s + 1..|b.data|];
  }

  lemma SplitHalves(m: seq<Unit>, b: Block, tag: nat, s: nat)
    requires HoldsBlock(m, b, tag) && |b.data| >= s + 2
    ensures Segment(SplitStores(m, b.start, s, |b.data| - s), b.start, tag, SplitBlock(b, s), b.End())
  {
    SplitLow(m, b, tag, s);
    SplitHigh(m, b, tag, s);
    var r, m' := SplitBlock(b, s), SplitStores(m, b.start, s, |b.data| - s);
    assert r[1..] == [r[1]];
    assert Segment(m', r[1].End(), r[1].Units(), [], b.End());
  }

  lemma SplitImage(m: seq<Unit>, bs: seq<Block>, k: nat, s: nat)
    requires Image(m, bs) && k < |bs| && |bs[k].data| >= s + 2
    ensures bs[k].End() <= |m|
    ensures Image(SplitStores(m, bs[k].start, s, |bs[k].data| - s), Split(bs, k, s))
  {
    hide Segment;
    hide HoldsBlock;
    hide SameOutside;
    At(m, bs, k);
    SplitHalves(m, bs[k], TagOf(bs[..k], 0), s);
    SplitFrame(m, bs[k].start, s, |bs[k].data| - s);
    Replace(m, SplitStores(m, bs[k].start, s, |bs[k].data| - s), bs[..k], [bs[k]], SplitBlock(bs[k], s), bs[k + 1..]);
  }

  lemma SingleSegment(m: seq<Unit>, b: Block, tag: nat)
    requires HoldsBlock(m, b, tag)
    ensures Segment(m, b.start, tag, [b], b.End())
  {
    assert [b][1..] == [];
  }

  /** Replacing block k by one of the same size. */
  lemma UpdateImage(m: seq<Unit>, m': seq<Unit>, bs: seq<Block>, k: nat, b: Block)
    requires Image(m, bs) && k < |bs| && |m'| == |m|
    requires b.start == bs[k].start && |b.data| == |bs[k].data|
    requires HoldsBlock(m', b, TagOf(bs[..k], 0))
    requires forall i :: 0 <= i < |m| && !(b.start <= i < b.End()) ==> m'[i] == m[i]
    ensures Image(m', bs[k := b])
  {
    hide Segment;
    At(m, bs, k);
    SingleSegment(m', b, TagOf(bs[..k], 0));
    Replace(m, m', bs[..k], [bs[k]], [b], bs[k + 1..]);
    assert bs[k := b] == bs[..k] + [b] + bs[k + 1..];
  }

  lemma MarkImage(m: seq<Unit>, bs: seq<Block>, k: nat, inuse: bool)
    requires Image(m, bs) && k < |bs|
    ensures bs[k].start < |m|
    ensures Image(m[bs[k].start := m[bs[k].start].(inuse := inuse)], Mark(bs, k, inuse))
  {
    hide Segment;
    At(m, bs, k);
    var x, b := bs[k].start, bs[k].(inuse := inuse);
    var m' := m[x := m[x].(inuse := inuse)];
    SameSlice(m, m', x + 1, b.End());
    UpdateImage(m, m', bs, k, b);
  }

  lemma WipeImage(m: seq<Unit>, m': seq<Unit>, bs: seq<Block>, k: nat)
    requires Image(m, bs) && k < |bs| && |m'| == |m| && bs[k].End() <= |m|
    requires m'[bs[k].start] == m[bs[k].start].(inuse := false)
    requires forall i :: bs[k].start < i < bs[k].End() ==> m'[i] == DEADBEEF
    requires forall i :: 0 <= i < |m| && !(bs[k].start <= i < bs[k].End()) ==> m'[i] == m[i]
    ensures Image(m', Wipe(bs, k))
  {
    hide Segment;
    At(m, bs, k);
    var b := Wipe(bs, k)[k];
    var d := m'[b.start + 1..b.End()];
    forall i | 0 <= i < |d| ensures d[i] == b.data[i] {
      assert d[i] == m'[b.start + 1 + i];
    }
    UpdateImage(m, m', bs, k, b);
  }

  /** What a merge stores between its ends. */
  lemma MergedUnits(m: seq<Unit>, x: nat, n1: nat, n2: nat)
    requires 0 < n1 && 0 < n2 && x + n1 + n2 <= |m|
    ensures var m' := MergeStores(m, x, n1, n2);
            && |m'| == |m| && m'[x] == m[x].(nextblock := Trunc(n1 + n2)) && m'[x + n1] == DEADBEEF
            && forall i :: x < i < x + n1 + n2 && i != x + n1 ==> m'[i] == m[i]
  {
    hide Trunc;
  }

  lemma MergedHeader(tag: nat, n1: nat, n: nat)
    ensures Header(tag, n1, false).(nextblock := Trunc(n)) == Header(tag, n, false)
  {
  }

  lemma MergedData(m: seq<Unit>, i: nat, j: nat, k: nat, x: seq<Unit>, y: seq<Unit>)
    requires i <= j < k <= |m| && m[i..j] == x && m[j + 1..k] == y
    ensures m[i..k] == x + [m[j]] + y
  {
    assert m[i..k] == m[i..j] + [m[j]] + m[j + 1..k];
  }

  function Merged(b: Block, c: Block): Block { Block(b.start, false, b.data + [DEADBEEF] + c.data) }

  lemma MergedBlock(m: seq<Unit>, b: Block, c: Block, tag: nat)
    requires HoldsBlock(m, b, tag) && HoldsBlock(m, c, b.Units()) && c.start == b.End()
    requires !b.inuse && !c.inuse
    ensures HoldsBlock(MergeStores(m, b.start, b.Units(), c.Units()), Merged(b, c), tag)
  {
    hide Trunc;
    hide Header;
    MergedUnits(m, b.start, b.Units(), c.Units());
    hide MergeStores;
    var m' := MergeStores(m, b.start, b.Units(), c.Units());
    MergedHeader(tag, b.Units(), b.Units() + c.Units());
    SameSlice(m, m', b.start + 1, b.End());
    SameSlice(m, m', c.start + 1, c.End());
    MergedData(m', b.start + 1, c.start, c.End(), b.data, c.data);
    assert Merged(b, c).End() == c.End() && Merged(b, c).Units() == b.Units() + c.Units();
  }

  lemma MergeBetween(m: seq<Unit>, pre: seq<Block>, b: Block, c: Block, post: seq<Block>)
    requires Image(m, pre + [b, c] + post) && EndOf(pre, 0) == b.start && c.start == b.End() && c.End() <= |m|
    requires HoldsBlock(m, b, TagOf(pre, 0)) && HoldsBlock(m, c, b.Units()) && !b.inuse && !c.inuse
    ensures Image(MergeStores(m, b.start, b.Units(), c.Units()), pre + [Merged(b, c)] + post)
  {
    hide Segment;
    hide Image;
    hide HoldsBlock;
    hide SameOutside;
    hide MergeStores;
    var m' := MergeStores(m, b.start, b.Units(), c.Units());
    MergedBlock(m, b, c, TagOf(pre, 0));
    MergeFrame(m, b.start, b.Units(), c.Units());
    SingleSegment(m', Merged(b, c), TagOf(pre, 0));
    Replace(m, m', pre, [b, c], [Merged(b, c)], post);
  }

  lemma MergeImage(m: seq<Unit>, bs: seq<Block>, k: nat)
    requires Image(m, bs) && k + 1 < |bs| && !bs[k].inuse && !bs[k + 1].inuse
    ensures bs[k].End() < |m|
    ensures Image(MergeStores(m, bs[k].start, bs[k].Units(), bs[k + 1].Units()), MergeAt(bs, k))
  {
    hide Segment;
    hide Image;
    hide HoldsBlock;
    hide MergeStores;
    At(m, bs, k);
    At(m, bs, k + 1);
    assert bs == bs[..k] + [bs[k], bs[k + 1]] + bs[k + 2..];
    MergeBetween(m, bs[..k], bs[k], bs[k + 1], bs[k + 2..]);
  }

  /** Growing memory by one block at the top. */
  lemma GrowImage(m: seq<Unit>, bs: seq<Block>, added: seq<Unit>, b: Block)
    requires Image(m, bs) && b.start == |m| && added == [Header(TagOf(bs, 0), b.Units(), b.inuse)] + b.data
    ensures Image(m + added, bs + [b])
  {
    hide Segment;
    hide Trunc;
    var m' := m + added;
    SegmentFrame(m, m', 0, 0, bs, |m|);
    SegmentEnd(m, 0, 0, bs, |m|);
    SegmentAppend(m', 0, 0, bs, [b], |m'|);
    assert m'[|m|..] == added && m'[b.start + 1..b.End()] == m'[|m|..][1..];
    SingleSegment(m', b, TagOf(bs, 0));
  }

  // ----- Consequences of the image: order, the client's view, coalescing

  ghost predicate Ordered(bs: seq<Block>) {
    forall i, j :: 0 <= i < j < |bs| ==> bs[i].End() <= bs[j].start
  }

  lemma {:induction false} SegmentOrdered(m: seq<Unit>, from: nat, tag: nat, bs: seq<Block>, to: nat)
    requires Segment(m, from, tag, bs, to)
    ensures Ordered(bs)
    decreases |bs|
  {
    if bs != [] {
      SegmentOrdered(m, bs[0].End(), bs[0].Units(), bs[1..], to);
      SegmentEnd(m, bs[0].End(), bs[0].Units(), bs[1..], to);
      forall i, j | 0 <= i < j < |bs| ensures bs[i].End() <= bs[j].start {
        assert bs[j] in bs[1..];
        if i > 0 { assert bs[1..][i - 1].End() <= bs[1..][j - 1].start; }
      }
    }
  }

  /** Live blocks, headers included, never overlap. */
  lemma LiveDisjoint(m: seq<Unit>, bs: seq<Block>, b: Block, c: Block)
    requires Image(m, bs) && b in Live(bs) && c in Live(bs) && b != c
    ensures b.End() <= c.start || c.End() <= b.start
    ensures b.End() <= |m|
  {
    SegmentOrdered(m, 0, 0, bs, |m|);
    SegmentEnd(m, 0, 0, bs, |m|);
    var i :| 0 <= i < |bs| && bs[i] == b;
    var j :| 0 <= j < |bs| && bs[j] == c;
  }

  /** Splitting a free block is invisible to the client. */
  lemma SplitView(bs: seq<Block>, k: nat, s: nat)
    requires k < |bs| && Fits(bs[k], s)
    ensures Live(Split(bs, k, s)) == Live(bs)
  {
    var r, parts := Split(bs, k, s), SplitBlock(bs[k], s);
    forall c ensures c in r && c.inuse <==> c in bs && c.inuse {
      assert c in r <==> c in bs[..k] || c in parts || c in bs[k + 1..];
      assert c in parts ==> !c.inuse;
      assert bs == bs[..k] + [bs[k]] + bs[k + 1..];
    }
  }

  lemma MarkView(bs: seq<Block>, k: nat)
    requires k < |bs| && !bs[k].inuse && Ordered(bs)
    ensures Live(Mark(bs, k, true)) == Live(bs) + {Mark(bs, k, true)[k]}
    ensures forall c :: c in Live(bs) ==> c.start != bs[k].start
  {
    var r := Mark(bs, k, true);
    forall c ensures c in r && c.inuse <==> (c in bs && c.inuse) || c == r[k] {
      assert r == bs[..k] + [r[k]] + bs[k + 1..];
      assert bs == bs[..k] + [bs[k]] + bs[k + 1..];
    }
    forall c | c in Live(bs) ensures c.start != bs[k].start {
      var i :| 0 <= i < |bs| && bs[i] == c;
      assert i != k;
    }
  }

  /** Taking a block adds it to the view and changes nothing else. */
  lemma CarveView(m: seq<Unit>, bs: seq<Block>, k: nat, s: nat)
    requires Image(m, bs) && k < |bs| && Fits(bs[k], s)
    ensures var b := Carve(bs, k, s)[k];
            && Live(Carve(bs, k, s)) == Live(bs) + {b}
            && b.start == bs[k].start && b.inuse && s <= |b.data| <= s + 1
            && forall c :: c in Live(bs) ==> c.start != b.start
  {
    hide Segment;
    var r := Split(bs, k, s);
    SplitView(bs, k, s);
    assert Ordered(r) by {
      if |bs[k].data| - s < 2 {
        assert r == bs;
        SegmentOrdered(m, 0, 0, bs, |m|);
      } else {
        SplitImage(m, bs, k, s);
        var m' := SplitStores(m, bs[k].start, s, |bs[k].data| - s);
        SegmentOrdered(m', 0, 0, r, |m'|);
      }
    }
    MarkView(r, k);
  }

  lemma CarveNoAdjacentFree(bs: seq<Block>, k: nat, s: nat)
    requires k < |bs| && Fits(bs[k], s) && NoAdjacentFree(bs)
    ensures NoAdjacentFree(Carve(bs, k, s))
  {
    var r := Carve(bs, k, s);
    var d := |r| - |bs|;
    forall i | 0 <= i < |r| - 1 ensures r[i].inuse || r[i + 1].inuse {
      if i + 1 < k {
        assert r[i] == bs[i] && r[i + 1] == bs[i + 1];
      } else if i > k {
        assert r[i + 1] == bs[i + 1 - d];
        assert bs[i - d].inuse || bs[i - d + 1].inuse;
        assert i > k + d ==> r[i] == bs[i - d];
      }
    }
  }

  lemma AppendNoAdjacentFree(bs: seq<Block>, b: Block)
    requires b.inuse && NoAdjacentFree(bs)
    ensures NoAdjacentFree(bs + [b])
  {
    var r := bs + [b];
    forall i | 0 <= i < |r| - 1 ensures r[i].inuse || r[i + 1].inuse {
      if i + 1 < |bs| { assert bs[i].inuse || bs[i + 1].inuse; }
    }
  }

  /** A live block added at the top. */
  lemma GrowView(bs: seq<Block>, b: Block)
    requires b.inuse && forall c :: c in bs ==> c.End() <= b.start
    ensures Live(bs + [b]) == Live(bs) + {b} && b !in Live(bs)
  {
    assert forall c :: c in bs + [b] <==> c in bs || c == b;
  }

  lemma StoreNoAdjacentFree(bs: seq<Block>, k: nat, b: Block)
    requires k < |bs| && NoAdjacentFree(bs) && b.inuse
    ensures NoAdjacentFree(bs[k := b])
  {
    var r := bs[k := b];
    forall i | 0 <= i < |r| - 1 ensures r[i].inuse || r[i + 1].inuse {
      assert bs[i].inuse || bs[i + 1].inuse;
    }
  }

  lemma MergeView(bs: seq<Block>, k: nat)
    requires k + 1 < |bs|
    ensures Live(MergeAt(bs, k)) == Live(bs)
  {
    var r := MergeAt(bs, k);
    if r != bs {
      forall c | c in bs && c.inuse ensures c in r {
        var i :| 0 <= i < |bs| && bs[i] == c;
        assert i < k ==> r[i] == c;
        assert i > k + 1 ==> r[i - 1] == c;
      }
      forall c | c in r && c.inuse ensures c in bs {
        var i :| 0 <= i < |r| && r[i] == c;
        assert i < k ==> bs[i] == c;
        assert i > k ==> bs[i + 1] == c;
      }
    }
  }

  lemma WipeView(bs: seq<Block>, k: nat)
    requires k < |bs| && bs[k].inuse && Ordered(bs)
    ensures Live(Wipe(bs, k)) == Live(bs) - {bs[k]}
  {
    var r := Wipe(bs, k);
    forall c | c in bs && c.inuse && c != bs[k] ensures c in r {
      var i :| 0 <= i < |bs| && bs[i] == c;
      assert r[i] == c;
    }
    forall c | c in r && c.inuse ensures c in bs && c != bs[k] {
      var i :| 0 <= i < |r| && r[i] == c;
      assert bs[i] == c;
    }
  }

  /** Releasing a block removes it from the view and changes nothing else. */
  lemma ReleaseView(bs: seq<Block>, k: nat)
    requires k < |bs| && bs[k].inuse && Ordered(bs)
    ensures Live(Release(bs, k)) == Live(bs) - {bs[k]}
  {
    WipeView(bs, k);
    var wiped := Wipe(bs, k);
    if k + 1 < |wiped| { MergeView(wiped, k); }
    var above := MergeAbove(wiped, k);
    if k > 0 { MergeView(above, k - 1); }
  }

  /** Free blocks may be adjacent only at indices k and k+1. */
  predicate NoAdjacentFreeExcept(bs: seq<Block>, k: int) {
    forall i :: 0 <= i < |bs| - 1 && i != k ==> bs[i].inuse || bs[i + 1].inuse
  }

  lemma MergeAboveCoalesces(bs: seq<Block>, k: nat)
    requires k < |bs| && !bs[k].inuse
    requires forall i :: 0 <= i < |bs| - 1 && i != k && i + 1 != k ==> bs[i].inuse || bs[i + 1].inuse
    ensures NoAdjacentFreeExcept(MergeAbove(bs, k), k - 1) && !MergeAbove(bs, k)[k].inuse
  {
    var r := MergeAbove(bs, k);
    if r != bs {
      forall i | 0 <= i < |r| - 1 && i != k - 1 ensures r[i].inuse || r[i + 1].inuse {
        if i + 1 < k {
          assert r[i] == bs[i] && r[i + 1] == bs[i + 1];
        } else {
          assert r[i + 1] == bs[i + 2] && (i > k ==> r[i] == bs[i + 1]);
          assert bs[i + 1].inuse || bs[i + 2].inuse;
        }
      }
    }
  }

  lemma MergeBelowCoalesces(bs: seq<Block>, k: nat)
    requires k < |bs| && !bs[k].inuse && NoAdjacentFreeExcept(bs, k - 1)
    ensures NoAdjacentFree(MergeBelow(bs, k))
  {
    var r := MergeBelow(bs, k);
    if r != bs {
      forall i | 0 <= i < |r| - 1 ensures r[i].inuse || r[i + 1].inuse {
        if i + 1 < k {
          assert r[i] == bs[i] && (i + 1 < k - 1 ==> r[i + 1] == bs[i + 1]);
          assert bs[i].inuse || bs[i + 1].inuse;
        } else {
          assert r[i + 1] == bs[i + 2] && (i > k - 1 ==> r[i] == bs[i + 1]);
          assert bs[i + 1].inuse || bs[i + 2].inuse;
        }
      }
    }
  }

  lemma ReleaseNoAdjacentFree(bs: seq<Block>, k: nat)
    requires k < |bs| && NoAdjacentFree(bs)
    ensures NoAdjacentFree(Release(bs, k))
  {
    var wiped := Wipe(bs, k);
    forall i | 0 <= i < |bs| - 1 && i != k && i + 1 != k ensures wiped[i].inuse || wiped[i + 1].inuse {
      assert bs[i].inuse || bs[i + 1].inuse;
    }
    MergeAboveCoalesces(wiped, k);
    MergeBelowCoalesces(MergeAbove(wiped, k), k);
  }

  /** With nothing live, the heap is empty or one free block. */
  lemma AllFreedIsOneBlock(bs: seq<Block>)
    requires NoAdjacentFree(bs)
    ensures |bs| > 1 ==> Live(bs) != {}
  {
    if |bs| > 1 {
      assert bs[0].inuse || bs[0 + 1].inuse;
      var b := if bs[0].inuse then bs[0] else bs[1];
      assert b in Live(bs);
    }
  }
}
