/** Kernel-space uio (uio.c): one buffer, a file offset and a residual count. */
module Uio {
  import opened SfsFormat

  /** The uio's fields: buffer memory, iov_kbase, iov_len, uio_offset, uio_resid. */
  datatype U = U(mem: seq<Byte>, base: nat, len: nat, offset: nat, resid: nat)

  predicate Ok(u: U) { u.base + u.len <= |u.mem| && u.resid <= u.len }

  /** k bytes have been moved. */
  function Advance(u: U, k: nat): U
    requires k <= u.resid <= u.len
  {
    u.(base := u.base + k, len := u.len - k, offset := u.offset + k, resid := u.resid - k)
  }

  /** The next k bytes to write. */
  function Next(u: U, k: nat): seq<Byte>
    requires Ok(u) && k <= u.resid
  {
    u.mem[u.base..u.base + k]
  }

  /** A read of `data` into the buffer. */
  function Deliver(u: U, data: seq<Byte>): U
    requires Ok(u) && |data| <= u.resid
  {
    Advance(u.(mem := u.mem[..u.base] + data + u.mem[u.base + |data|..]), |data|)
  }

  function Least(a: nat, b: nat): nat { if a < b then a else b }

  function Zeros(n: nat): (z: seq<Byte>)
    ensures |z| == n
  {
    seq(n, _ => 0)
  }

  lemma DeliverTwice(u: U, a: seq<Byte>, b: seq<Byte>)
    requires Ok(u) && |a| + |b| <= u.resid
    ensures Ok(Deliver(u, a)) && |b| <= Deliver(u, a).resid
    ensures Deliver(Deliver(u, a), b) == Deliver(u, a + b)
  {
  }

  lemma DeliverNone(u: U)
    requires Ok(u)
    ensures Deliver(u, Zeros(0)) == u
  {
  }

  lemma DeliverOk(u: U, data: seq<Byte>)
    requires Ok(u) && |data| <= u.resid
    ensures Ok(Deliver(u, data)) && Deliver(u, data).resid == u.resid - |data| && Deliver(u, data).len == u.len - |data|
  {
  }

  lemma ZerosTake(a: nat, k: nat)
    requires k <= a
    ensures Zeros(a)[..k] == Zeros(k)
  {
  }

  lemma ZerosAdd(a: nat, b: nat)
    ensures Zeros(a) + Zeros(b) == Zeros(a + b)
  {
  }

  /** k bytes went between ptr and the buffer; out is what ptr then points to. */
  ghost predicate Moved(write: bool, u: U, u': U, ptr: seq<Byte>, out: seq<Byte>, k: nat) {
    && Ok(u) && k <= u.resid && k <= |ptr|
    && if write then out == Next(u, k) + ptr[k..] && u' == Advance(u, k)
       else out == ptr && u' == Deliver(u, ptr[..k])
  }

  lemma MovedNothing(write: bool, u: U, ptr: seq<Byte>)
    requires Ok(u)
    ensures Moved(write, u, u, ptr, ptr, 0)
  {
    assert u.mem[..u.base] + ptr[..0] + u.mem[u.base..] == u.mem;
  }

  /** The only pass of uiomove's loop. */
  lemma MovedOnce(write: bool, u: U, u': U, ptr: seq<Byte>, out: seq<Byte>, k: nat)
    requires Ok(u) && k <= u.resid && k <= |ptr|
    requires u' == u.(mem := u'.mem, base := u.base + k, len := u.len - k, offset := u.offset + k, resid := u.resid - k)
    requires if write then u'.mem == u.mem && out == ptr[..0] + u.mem[u.base..u.base + k] + ptr[0 + k..]
             else out == ptr && u'.mem == u.mem[..u.base] + ptr[0..0 + k] + u.mem[u.base + k..]
    ensures Moved(write, u, u', ptr, out, k)
  {
    assert ptr[0..0 + k] == ptr[..k];
  }

  class Uio {
    var mem: seq<Byte>
    var base: nat
    var len: nat
    var offset: nat
    var resid: nat
    const write: bool

    ghost function State(): U
      reads this
    {
      U(mem, base, len, offset, resid)
    }

    /** mk_kuio. */
    constructor (kbuf: seq<Byte>, pos: nat, rw: bool)
      ensures State() == U(kbuf, 0, |kbuf|, pos, |kbuf|) && write == rw
    {
      mem, base, len, offset, resid, write := kbuf, 0, |kbuf|, pos, |kbuf|, rw;
    }

    /** The copying of uiomove. */
    method Copy(ptr: seq<Byte>, to: seq<Byte>, at: nat, size: nat) returns (out: seq<Byte>)
      requires at + size <= |ptr| == |to| && base + size <= |mem|
      modifies this`mem
      ensures if write then mem == old(mem) && out == to[..at] + mem[base..base + size] + to[at + size..]
              else out == to && mem == old(mem)[..base] + ptr[at..at + size] + old(mem)[base + size..]
    {
      out := to;
      if write {
        out := to[..at] + mem[base..base + size] + to[at + size..];
      } else {
        mem := mem[..base] + ptr[at..at + size] + mem[base + size..];
      }
    }

    /** uiomove between ptr[..n] and the buffer; it stops early at the end of the buffer.
        A residue smaller than the buffer must cover n, for it is not looked at. */
    method Move(ptr: seq<Byte>, n: nat) returns (out: seq<Byte>)
      requires Ok(State()) && n <= |ptr| && (n <= resid || resid == len)
      modifies this
      ensures Moved(write, old(State()), State(), ptr, out, Least(n, old(resid)))
    {
      hide Moved;
      hide Next;
      hide Advance;
      hide Deliver;
      out := ptr;
      var left, at := n, 0;
      ghost var k := Least(n, resid);
      while left > 0 && resid > 0
        invariant left + at == n && (at == 0 || at == k)
        invariant at == 0 ==> State() == old(State()) && out == ptr
        invariant at > 0 ==> Moved(write, old(State()), State(), ptr, out, k) && resid == old(resid) - k
        decreases left
      {
        assert at == 0 && left == n;
        ghost var u := State();
        var size := len;
        if size > left {
          size := left;
        }
        if size == 0 {
          assert false;  // panic: size reached 0
        }
        assert size == k <= resid;
        out := Copy(ptr, out, at, size);
        base := base + size;
        len := len - size;
        resid := resid - size;
        offset := offset + size;
        at := at + size;
        left := left - size;
        MovedOnce(write, u, State(), ptr, out, size);
      }
      if at == 0 { MovedNothing(write, State(), ptr); }
    }

    /** uiomovezeros, sixteen bytes at a time. */
    method MoveZeros(n: nat)
      requires Ok(State()) && !write && (n <= resid || resid == len)
      modifies this
      ensures State() == Deliver(old(State()), Zeros(Least(n, old(resid))))
    {
      hide Deliver;
      hide Zeros;
      var left := n;
      ghost var u := State();
      DeliverNone(u);
      while left > 0
        invariant 0 <= left <= n && Ok(State()) && (left <= resid || resid == len)
        invariant State() == Deliver(u, Zeros(Least(n - left, u.resid))) && resid == u.resid - Least(n - left, u.resid)
      {
        ghost var done := Least(n - left, u.resid);
        var amt := if left < 16 then left else 16;
        var zeros := Zeros(amt);
        ghost var k := Least(amt, resid);
        var _ := Move(zeros, amt);
        ZerosTake(amt, k);
        DeliverTwice(u, Zeros(done), Zeros(k));
        ZerosAdd(done, k);
        DeliverOk(u, Zeros(done + k));
        left := left - amt;
      }
    }
  }
}
