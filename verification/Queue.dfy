/** Growable ring buffer (queue.c) as a FIFO sequence. */
module Queue {

  import opened Arith

  /** The elements from index nr up to nw, around the end of the ring. */
  function Ring<T>(data: seq<T>, nr: nat, nw: nat): (s: seq<T>)
    requires nr <= |data| && nw <= |data|
    ensures |s| == if nr <= nw then nw - nr else |data| - nr + nw
  {
    if nr <= nw then data[nr..nw] else data[nr..] + data[..nw]
  }

  lemma RingPush<T>(data: seq<T>, nr: nat, nw: nat, x: T)
    requires nr < |data| && nw < |data| && Wrap(nw + 1, |data|) != nr
    ensures Ring(data[nw := x], nr, Wrap(nw + 1, |data|)) == Ring(data, nr, nw) + [x]
  {
    var d := data[nw := x];
    if nw + 1 < |data| {
      assert d[..nw + 1] == data[..nw] + [x];
    } else {
      assert d[nr..] == data[nr..nw] + [x];
    }
  }

  lemma RingPop<T>(data: seq<T>, nr: nat, nw: nat)
    requires nr < |data| && nw < |data| && nr != nw
    ensures Ring(data, nr, nw) == [data[nr]] + Ring(data, Wrap(nr + 1, |data|), nw)
  {
    if nr + 1 == |data| { assert data[nr..] == [data[nr]]; }
  }

  /** Element i of the ring, and where the ring ends. */
  lemma RingAt<T>(data: seq<T>, nr: nat, nw: nat, i: nat)
    requires nr < |data| && nw < |data| && i <= |Ring(data, nr, nw)|
    ensures i < |Ring(data, nr, nw)| ==> Ring(data, nr, nw)[i] == data[Wrap(nr + i, |data|)]
    ensures Wrap(nr + i, |data|) == nw <==> i == |Ring(data, nr, nw)|
    ensures i < |Ring(data, nr, nw)| ==> Wrap(Wrap(nr + i, |data|) + 1, |data|) == Wrap(nr + i + 1, |data|)
  {
  }

  /** The next index: (i + 1) % n. */
  method Step(i: nat, n: nat) returns (j: nat)
    requires i < n
    ensures j == Wrap(i + 1, n)
  {
    WrapIsMod(i + 1, n);
    j := (i + 1) % n;
  }

  /** A size doubled until it reaches the target. */
  function Doubled(size: nat, targetsize: nat): (n: nat)
    requires 0 < size
    ensures size <= n && targetsize <= n && (n == size || n < 2 * targetsize)
    decreases targetsize - size
  {
    if size >= targetsize then size else Doubled(2 * size, targetsize)
  }

  /** The bytes of a ring of n pointers can be counted in a size_t. */
  predicate Fits(n: nat) { n < 0x4000_0000 }

  /** q_grow's new size. */
  method NewSize(size: nat, targetsize: nat) returns (nsize: nat)
    requires 0 < size && Fits(Doubled(size, targetsize))
    ensures nsize == Doubled(size, targetsize)
  {
    nsize := size;
    while nsize < targetsize
      invariant 0 < nsize && Doubled(nsize, targetsize) == Doubled(size, targetsize)
      decreases targetsize - nsize
    {
      nsize := nsize * 2;
      assert 0 < nsize < 0x8000_0000;
    }
  }

  datatype Errno = OK | ENOMEM

  class Queue<T(0)> {
    var data: array<T>
    var nextwrite: nat
    var nextread: nat

    ghost predicate Valid()
      reads this
    {
      0 < data.Length && nextread < data.Length && nextwrite < data.Length
    }

    ghost function Contents(): seq<T>
      requires Valid()
      reads this, data
    {
      Ring(data[..], nextread, nextwrite)
    }

    ghost predicate Full()
      requires Valid()
      reads this
    {
      Wrap(nextwrite + 1, data.Length) == nextread
    }

    /** A ring of size n is full with n - 1 elements. */
    lemma FullCount()
      requires Valid()
      ensures |Contents()| < data.Length && (Full() <==> |Contents()| == data.Length - 1)
    {
    }

    /** q_create. */
    constructor (size: nat)
      requires size > 0
      ensures Valid() && fresh(data) && data.Length == size && Contents() == []
    {
      data := new T[size];
      nextread, nextwrite := 0, 0;
    }

    /** q_grow; kmallocOk says whether there is memory. Order and contents stay, and
        the calls of q_addtail never grow the queue again. */
    method Grow(targetsize: nat, kmallocOk: bool) returns (e: Errno)
      requires Valid() && data.Length < targetsize && Fits(Doubled(data.Length, targetsize))
      modifies this, data
      ensures Valid() && Contents() == old(Contents()) && (e == ENOMEM <==> !kmallocOk)
      ensures e == ENOMEM ==> data == old(data) && data[..] == old(data[..])
      ensures e == OK ==> fresh(data) && data.Length == Doubled(old(data.Length), targetsize)
      decreases 1
    {
      var olddata, onr, onw := data, nextread, nextwrite;
      ghost var was := Contents();
      var nsize := NewSize(data.Length, targetsize);
      FullCount();
      if !kmallocOk {
        return ENOMEM;
      }
      data := new T[nsize];
      nextread, nextwrite := 0, 0;
      Refill(olddata, onr, onw);
      e := OK;
    }

    /** The loop of q_grow that adds the old elements to the new ring. */
    method Refill(olddata: array<T>, onr: nat, onw: nat)
      requires Valid() && Contents() == [] && onr < olddata.Length && onw < olddata.Length && olddata != data
      requires |Ring(olddata[..], onr, onw)| < data.Length
      modifies this, data
      ensures Valid() && data == old(data) && Contents() == Ring(olddata[..], onr, onw)
      decreases 1, 0
    {
      hide Ring;
      ghost var was := Ring(olddata[..], onr, onw);
      var i := onr;
      ghost var k := 0;
      RingAt(olddata[..], onr, onw, 0);
      while i != onw
        invariant Valid() && data == old(data) && olddata[..] == old(olddata[..])
        invariant 0 <= k <= |was| && onr + k < 2 * olddata.Length && i == Wrap(onr + k, olddata.Length)
          && Contents() == was[..k]
        decreases |was| - k
      {
        RingAt(olddata[..], onr, onw, k);
        FullCount();
        var result := AddTail(olddata[i], false);
        assert result == OK;
        assert was[..k] + [was[k]] == was[..k + 1];
        i := Step(i, olddata.Length);
        k := k + 1;
        RingAt(olddata[..], onr, onw, k);
      }
      RingAt(olddata[..], onr, onw, k);
      assert was[..k] == was;
    }

    /** q_preallocate: the ring's size is doubled until it reaches the size asked for. */
    method Preallocate(size: nat, kmallocOk: bool) returns (e: Errno)
      requires Valid() && (data.Length < size ==> Fits(Doubled(data.Length, size)))
      modifies this, data
      ensures Valid() && Contents() == old(Contents())
      ensures e == ENOMEM <==> old(data.Length) < size && !kmallocOk
      ensures e == OK ==> data.Length == Doubled(old(data.Length), size)
      ensures old(data.Length) >= size || e == ENOMEM ==> data == old(data)
      ensures data == old(data) || fresh(data)
    {
      e := OK;
      if size > data.Length {
        e := Grow(size, kmallocOk);
      }
    }

    /** q_addtail: appends. It asks for memory exactly when the ring is full, that is
        when it holds one element less than its size. */
    method AddTail(x: T, kmallocOk: bool) returns (e: Errno)
      requires Valid() && (|Contents()| == data.Length - 1 ==> Fits(2 * data.Length))
      modifies this, data
      ensures Valid() && (e == ENOMEM <==> old(|Contents()| == data.Length - 1) && !kmallocOk)
      ensures e == OK ==> Contents() == old(Contents()) + [x]
      ensures e == ENOMEM ==> Contents() == old(Contents()) && data == old(data)
      ensures old(|Contents()| < data.Length - 1) ==> data == old(data)
      ensures e == OK && old(|Contents()| == data.Length - 1) ==> fresh(data) && data.Length == 2 * old(data.Length)
      decreases if Full() then 2 else 0
    {
      hide Ring;
      FullCount();
      var nextnext := Step(nextwrite, data.Length);
      if nextnext == nextread {
        assert Doubled(data.Length, data.Length + 1) == 2 * data.Length;
        e := Grow(data.Length + 1, kmallocOk);
        if e != OK {
          return;
        }
        FullCount();
        nextnext := Step(nextwrite, data.Length);
      }
      ghost var before := data[..];
      data[nextwrite] := x;
      assert data[..] == before[nextwrite := x];
      RingPush(before, nextread, nextwrite, x);
      nextwrite := nextnext;
      e := OK;
    }

    /** Additions with no memory left, up to the first that fails. All succeed if and
        only if the ring is larger than the elements it then holds. */
    method AddAll(xs: seq<T>) returns (e: Errno)
      requires Valid() && (|Contents()| + |xs| >= data.Length ==> Fits(2 * data.Length))
      modifies this, data
      ensures Valid() && data == old(data)
      ensures e == OK <==> old(|Contents()|) + |xs| < data.Length
      ensures e == OK ==> Contents() == old(Contents()) + xs
      ensures e == ENOMEM ==> Contents() == old(Contents()) + xs[..data.Length - 1 - old(|Contents()|)]
    {
      hide Ring;
      ghost var was := Contents();
      FullCount();
      e := OK;
      var i := 0;
      assert was + xs[..0] == was;
      while i < |xs|
        invariant 0 <= i <= |xs| && Valid() && data == old(data) && e == OK
        invariant Contents() == was + xs[..i] && |was| + i < data.Length
      {
        e := AddTail(xs[i], false);
        if e != OK {
          return;
        }
        assert xs[..i] + [xs[i]] == xs[..i + 1];
        i := i + 1;
        FullCount();
      }
      assert xs[..i] == xs;
    }

    /** q_remhead: takes the oldest element. */
    method RemHead() returns (ret: T)
      requires Valid() && Contents() != []
      modifies this
      ensures Valid() && data == old(data) && old(Contents()) == [ret] + Contents()
    {
      RingPop(data[..], nextread, nextwrite);
      ret := data[nextread];
      nextread := Step(nextread, data.Length);
    }
  }

  /** Preallocating room for n makes n additions to an empty queue safe if and only if
      the size it leaves, the old one doubled until it reaches n, is larger than n. */
  method PreallocateThenAdd<T(0)>(size: nat, xs: seq<T>) returns (e: Errno)
    requires 0 < size && Fits(2 * Doubled(size, |xs|))
    ensures e == OK <==> |xs| < Doubled(size, |xs|)
  {
    var q := new Queue<T>(size);
    var r := q.Preallocate(|xs|, true);
    e := q.AddAll(xs);
  }

  /** A size doubled j times. */
  function Scaled(size: nat, j: nat): nat
    decreases j
  {
    if j == 0 then size else Scaled(2 * size, j - 1)
  }

  lemma {:induction false} ScaledGrows(size: nat, j: nat)
    ensures Scaled(size, j) >= size
    decreases j
  {
    if j > 0 { ScaledGrows(2 * size, j - 1); }
  }

  /** n is the size doubled some number of times. */
  ghost predicate Reached(size: nat, n: nat) { exists j: nat :: Scaled(size, j) == n }

  lemma ReachedNext(size: nat, n: nat)
    requires 0 < size < n
    ensures Reached(size, n) <==> Reached(2 * size, n)
  {
    if Reached(size, n) {
      var j: nat :| Scaled(size, j) == n;
      assert Scaled(2 * size, j - 1) == n;
    }
    if Reached(2 * size, n) {
      var j: nat :| Scaled(2 * size, j) == n;
      assert Scaled(size, j + 1) == n;
    }
  }

  lemma NotReached(size: nat, n: nat)
    requires n < size
    ensures !Reached(size, n)
  {
    forall j: nat ensures Scaled(size, j) != n { ScaledGrows(size, j); }
  }

  /** It is not larger exactly for the sizes that doubling reaches. */
  lemma {:induction false} DoubledExact(size: nat, n: nat)
    requires 0 < size <= n
    ensures Doubled(size, n) == n <==> Reached(size, n)
    decreases n - size
  {
    hide Reached;
    if size == n {
      ReachedNow(size);
    } else {
      ReachedNext(size, n);
      assert Doubled(size, n) == Doubled(2 * size, n);
      if 2 * size <= n {
        DoubledExact(2 * size, n);
      } else {
        NotReached(2 * size, n);
      }
    }
  }

  lemma ReachedNow(size: nat)
    ensures Reached(size, size)
  {
    assert Scaled(size, 0) == size;
  }

  /** The scheduler's run queue starts with room for 32 threads: at the 32nd thread
      the space preallocated for 32 is one too small. */
  method PreallocateExample(xs: seq<int>) returns (e: Errno)
    requires |xs| == 32
    ensures e == ENOMEM
  {
    e := PreallocateThenAdd(32, xs);
  }
}
