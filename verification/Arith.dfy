/** 32-bit words and the arithmetic that several components share. */
module Arith {

  const TWO32: nat := 0x1_0000_0000

  type Word = w: int | 0 <= w < 0x1_0000_0000

  /** A value that an int can hold. */
  predicate Int32(x: int) { -0x8000_0000 <= x <= 0x7fff_ffff }

  /** A word as a signed int, and back. */
  function ToSigned(w: Word): int { if w >= 0x8000_0000 then w - TWO32 else w }
  function ToWord(n: int): Word { n % TWO32 }

  function Power(b: nat, k: nat): nat { if k == 0 then 1 else b * Power(b, k - 1) }

  /** r is x modulo m. */
  lemma ModIs(x: int, m: int, q: int, r: int)
    requires m > 0 && x == m * q + r && 0 <= r < m
    ensures x % m == r
  {
    DivisionUnique(m, q, r, x / m, x % m);
  }

  lemma DivisionUnique(m: int, q: int, r: int, d: int, e: int)
    requires m > 0 && m * q + r == m * d + e && 0 <= r < m && 0 <= e < m
    ensures q == d && r == e
  {
    if d != q { Distance(m, q, d); }
  }

  lemma Distance(m: int, q: int, d: int)
    requires m > 0 && d != q
    ensures m * d - m * q >= m || m * q - m * d >= m
  {
    if d > q { AtLeast(m, d - q); } else { AtLeast(m, q - d); }
  }

  lemma AtLeast(m: int, k: int)
    requires m > 0 && k >= 1
    ensures m * k >= m
  {
  }

  /** Summands may be reduced first. */
  lemma ModPlus(a: nat, b: nat, m: nat)
    requires m > 0
    ensures (a % m + b) % m == (a + b) % m
  {
    var q, x := a / m, a % m + b;
    assert x == m * (x / m) + x % m;
    assert m * (q + x / m) == m * q + m * (x / m);
    ModIs(a + b, m, q + x / m, x % m);
  }

  /** Factors may be reduced first. */
  lemma MulMod(a: int, b: int, m: int)
    requires m > 0
    ensures a * (b % m) % m == a * b % m
  {
    var q, r := b / m, b % m;
    var d, e := a * r / m, a * r % m;
    assert a * b == m * (a * q) + a * r == m * (a * q + d) + e by {
      assert b == m * q + r;
      assert a * (m * q) == m * (a * q);
    }
    ModIs(a * b, m, a * q + d, e);
  }

  lemma MulMono(k: int, n: int, m: int)
    requires 0 <= m && k <= n
    ensures m * k <= m * n
  {
    assert m * n - m * k == m * (n - k) >= 0;
  }

  /** A smaller factor by one leaves room for one more. */
  lemma Room(k: int, n: int, m: int)
    requires 0 < m && k < n
    ensures k * m + m <= n * m
  {
    AtLeast(m, n - k);
    assert m * (n - k) == n * m - k * m;
  }

  /** i modulo n, for an i that is at most once around. */
  function Wrap(i: nat, n: nat): nat
    requires i < 2 * n
  {
    if i < n then i else i - n
  }

  lemma WrapIsMod(i: nat, n: nat)
    requires i < 2 * n
    ensures i % n == Wrap(i, n)
  {
    ModIs(i, n, if i < n then 0 else 1, Wrap(i, n));
  }
}
