/** Arrays of bits (bitmap.c): a byte array that refines a finite set. */
module Bitmap {

  datatype Result<+T> = Ok(value: T) | Enospc

  /** (WORD_TYPE)1 << offset */
  function Mask(offset: nat): bv8
    requires offset < 8
  {
    match offset
    case 0 => 1 case 1 => 2 case 2 => 4 case 3 => 8
    case 4 => 16 case 5 => 32 case 6 => 64 case 7 => 128
  }

  predicate BitOf(w: bv8, offset: nat)
    requires offset < 8
  {
    w & Mask(offset) != 0
  }

  lemma SetBit(w: bv8, i: nat, j: nat)
    requires i < 8 && j < 8
    ensures BitOf(w | Mask(i), j) <==> i == j || BitOf(w, j)
  {
  }

  lemma ClearBit(w: bv8, i: nat, j: nat)
    requires i < 8 && j < 8
    ensures BitOf(w & !Mask(i), j) <==> i != j && BitOf(w, j)
  {
  }

  /** Eight set bits are 0xff. */
  lemma AllBits(w: bv8)
    ensures w == 0xff <==> forall j :: 0 <= j < 8 ==> BitOf(w, j)
  {
    if forall j :: 0 <= j < 8 ==> BitOf(w, j) {
      assert BitOf(w, 0) && BitOf(w, 1) && BitOf(w, 2) && BitOf(w, 3)
          && BitOf(w, 4) && BitOf(w, 5) && BitOf(w, 6) && BitOf(w, 7);
    }
  }

  predicate IsSet(v: seq<bv8>, i: nat)
    requires i < 8 * |v|
  {
    BitOf(v[i / 8], i % 8)
  }

  /** The set of marked bits. */
  function Marked(v: seq<bv8>): set<nat> {
    set i: nat | i < 8 * |v| && IsSet(v, i)
  }

  /** Replacing the byte that holds bit i by one that differs from it in that bit only. */
  lemma StoreByte(v: seq<bv8>, i: nat, w: bv8, on: bool)
    requires i < 8 * |v|
    requires forall j :: 0 <= j < 8 ==> (BitOf(w, j) <==> if j == i % 8 then on else BitOf(v[i / 8], j))
    ensures forall j: nat :: j < 8 * |v| ==> (IsSet(v[i / 8 := w], j) <==> if j == i then on else IsSet(v, j))
    ensures Marked(v[i / 8 := w]) == if on then Marked(v) + {i} else Marked(v) - {i}
  {
    hide BitOf;
    var u := v[i / 8 := w];
    forall j: nat | j < 8 * |v| ensures IsSet(u, j) <==> if j == i then on else IsSet(v, j) {
      assert j == i <==> j / 8 == i / 8 && j % 8 == i % 8;
    }
  }

  lemma MarkStep(v: seq<bv8>, i: nat)
    requires i < 8 * |v|
    ensures Marked(v[i / 8 := v[i / 8] | Mask(i % 8)]) == Marked(v) + {i}
    ensures forall j: nat :: j < 8 * |v| ==> (IsSet(v[i / 8 := v[i / 8] | Mask(i % 8)], j) <==> j == i || IsSet(v, j))
  {
    hide BitOf;
    hide Mask;
    forall j | 0 <= j < 8 { SetBit(v[i / 8], i % 8, j); }
    StoreByte(v, i, v[i / 8] | Mask(i % 8), true);
  }

  lemma UnmarkStep(v: seq<bv8>, i: nat)
    requires i < 8 * |v|
    ensures Marked(v[i / 8 := v[i / 8] & !Mask(i % 8)]) == Marked(v) - {i}
  {
    hide BitOf;
    hide Mask;
    forall j | 0 <= j < 8 { ClearBit(v[i / 8], i % 8, j); }
    StoreByte(v, i, v[i / 8] & !Mask(i % 8), false);
  }

  lemma TestBit(v: seq<bv8>, i: nat)
    requires i < 8 * |v|
    ensures v[i / 8] & Mask(i % 8) != 0 <==> i in Marked(v)
  {
    hide Mask;
    assert IsSet(v, i) <==> BitOf(v[i / 8], i % 8);
  }

  lemma NoBits(j: nat)
    requires j < 8
    ensures !BitOf(0, j)
  {
  }

  /** Storing one more bit in byte ix. */
  lemma MarkedBy(s: seq<bv8>, t: seq<bv8>, ix: nat, offset: nat)
    requires ix < |s| && offset < 8 && t == s[ix := s[ix] | Mask(offset)]
    ensures Marked(t) == Marked(s) + {8 * ix + offset}
    ensures forall i: nat :: i < 8 * |s| ==> (IsSet(t, i) <==> i == 8 * ix + offset || IsSet(s, i))
  {
    hide BitOf;
    hide Mask;
    var i := 8 * ix + offset;
    assert i / 8 == ix && i % 8 == offset;
    MarkStep(s, i);
  }

  /** The lowest clear bit of a byte that is not full. */
  method FirstClear(w: bv8) returns (offset: nat)
    requires w != 0xff
    ensures offset < 8 && !BitOf(w, offset) && forall j :: 0 <= j < offset ==> BitOf(w, j)
  {
    AllBits(w);
    hide BitOf;
    hide Mask;
    offset := 0;
    while BitOf(w, offset)
      invariant 0 <= offset < 8
      invariant forall j :: 0 <= j < offset ==> BitOf(w, j)
      decreases 8 - offset
    {
      offset := offset + 1;
    }
  }

  lemma FirstClearIndex(s: seq<bv8>, ix: nat, offset: nat)
    requires ix < |s| && offset < 8 && !BitOf(s[ix], offset)
    requires forall j :: 0 <= j < offset ==> BitOf(s[ix], j)
    requires forall i: nat :: i < 8 * ix ==> IsSet(s, i)
    ensures !IsSet(s, 8 * ix + offset) && forall i: nat :: i < 8 * ix + offset ==> IsSet(s, i)
  {
    hide BitOf;
    var index := 8 * ix + offset;
    assert index / 8 == ix && index % 8 == offset;
    forall i: nat | i < index ensures IsSet(s, i) {
      if i >= 8 * ix { assert i / 8 == ix && BitOf(s[ix], i % 8); }
    }
  }

  class Bitmap {
    const nbits: nat
    const v: array<bv8>

    /** Bits past nbits in the last byte are marked and stay so. */
    ghost predicate Valid()
      reads v
    {
      && v.Length == (nbits + 7) / 8
      && forall i: nat :: nbits <= i < 8 * v.Length ==> i in Marked(v[..])
    }

    /** The marked bits that are in range. */
    ghost function Bits(): set<nat>
      reads v
    {
      set i | i in Marked(v[..]) && i < nbits
    }

    /** bitmap_create. */
    constructor (n: nat)
      ensures Valid() && nbits == n && Bits() == {} && fresh(v)
    {
      nbits := n;
      v := new bv8[(n + 7) / 8](_ => 0);
      new;
      hide BitOf;
      hide Mask;
      forall i: nat | i < 8 * v.Length ensures !IsSet(v[..], i) { NoBits(i % 8); }
      if n / 8 < v.Length {
        var ix := v.Length - 1;
        var j := n - ix * 8;
        while j < 8
          invariant n - ix * 8 <= j <= 8
          invariant forall i: nat :: i < 8 * v.Length ==> (IsSet(v[..], i) <==> n <= i < ix * 8 + j)
        {
          ghost var before := v[..];
          v[ix] := v[ix] | Mask(j);
          MarkedBy(before, v[..], ix, j);
          j := j + 1;
        }
      }
    }

    /** bitmap_alloc: the lowest clear bit, or ENOSPC exactly when there is none. */
    method Alloc() returns (r: Result<nat>)
      requires Valid()
      modifies v
      ensures Valid()
      ensures r.Ok? ==> r.value < nbits && r.value !in old(Bits()) && Bits() == old(Bits()) + {r.value}
                        && forall i :: 0 <= i < r.value ==> i in old(Bits())
      ensures r.Enospc? ==> v[..] == old(v[..]) && forall i :: 0 <= i < nbits ==> i in Bits()
    {
      hide BitOf;
      hide Mask;
      ghost var s := v[..];
      var ix := 0;
      while ix < v.Length
        invariant 0 <= ix <= v.Length && v[..] == s
        invariant forall i: nat :: i < 8 * ix ==> IsSet(s, i)
      {
        AllBits(v[ix]);
        if v[ix] != 0xff {
          var offset := FirstClear(v[ix]);
          FirstClearIndex(s, ix, offset);
          v[ix] := v[ix] | Mask(offset);
          MarkedBy(s, v[..], ix, offset);
          return Ok(8 * ix + offset);
        }
        forall i: nat | 8 * ix <= i < 8 * ix + 8 ensures IsSet(s, i) {
          assert i / 8 == ix && BitOf(v[ix], i % 8);
        }
        ix := ix + 1;
      }
      return Enospc;
    }

    /** bitmap_mark. */
    method Mark(index: nat)
      requires Valid() && index < nbits && index !in Bits()
      modifies v
      ensures Valid() && Bits() == old(Bits()) + {index}
    {
      hide BitOf;
      hide Mask;
      ghost var s := v[..];
      v[index / 8] := v[index / 8] | Mask(index % 8);
      assert v[..] == s[index / 8 := s[index / 8] | Mask(index % 8)];
      MarkStep(s, index);
    }

    /** bitmap_unmark: the bit must be marked. */
    method Unmark(index: nat)
      requires Valid() && index < nbits && index in Bits()
      modifies v
      ensures Valid() && Bits() == old(Bits()) - {index}
    {
      ghost var s := v[..];
      TestBit(s, index);
      hide BitOf;
      hide Mask;
      if v[index / 8] & Mask(index % 8) == 0 {
        assert false;  // assert((b->v[ix] & mask) != 0)
      }
      v[index / 8] := v[index / 8] & !Mask(index % 8);
      assert v[..] == s[index / 8 := s[index / 8] & !Mask(index % 8)];
      UnmarkStep(s, index);
    }

    /** bitmap_isset. */
    method Test(index: nat) returns (r: bool)
      requires Valid() && index < nbits
      ensures r <==> index in Bits()
    {
      hide Mask;
      TestBit(v[..], index);
      r := v[index / 8] & Mask(index % 8) != 0;
    }
  }
}
