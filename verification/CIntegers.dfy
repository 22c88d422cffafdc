/** The 32-bit C integers of the target, and the modular arithmetic the ring buffers need. */
module CIntegers {

  const INT_MAX := 0x7fff_ffff
  const TWO32 := 0x1_0000_0000
  const TWO16 := 0x1_0000

  type u32 = x: int | 0 <= x < TWO32
  type u16 = x: int | 0 <= x < TWO16
  type byte = x: int | 0 <= x < 256

  /** Conversion to `unsigned int`. */
  function Wrap(x: int): u32 { x % TWO32 }

  /** Conversion of an `unsigned int` to `int` (two's complement). */
  function ToInt(x: u32): int { if x <= INT_MAX then x else x - TWO32 }

  /** C division, which truncates toward zero. */
  function CDiv(a: int, b: int): int
    requires b > 0
  {
    if a >= 0 then a / b else -((-a) / b)
  }

  function Min(a: int, b: int): int { if a > b then b else a }

  function Max(a: int, b: int): int { if a < b then b else a }

  lemma MulMonotone(a: nat, x: int, y: int)
    requires x <= y
    ensures a * x <= a * y
  {
  }

  lemma MulMonotoneLeft(x: int, y: int, a: nat)
    requires x <= y
    ensures x * a <= y * a
  {
  }

  lemma MulBounds(m: int, d: int)
    requires m > 0
    ensures d >= 1 ==> m * d >= m
    ensures d <= -1 ==> m * d <= -m
  {
  }

  /** Quotient and remainder of a number written as `q * m + r`. */
  lemma DivModUnique(q: int, r: int, m: int)
    requires 0 <= r < m
    ensures (q * m + r) / m == q && (q * m + r) % m == r
  {
    var x := q * m + r;
    assert x == m * (x / m) + x % m;
    var d := x / m - q;
    assert m * d == r - x % m by { assert m * d == m * (x / m) - m * q; }
    MulBounds(m, d);
  }

  /** Two numbers that differ by a multiple of `m` have the same remainder. */
  lemma ModShift(x: int, k: int, m: int)
    requires m > 0
    ensures (x + k * m) % m == x % m
  {
    var q := x / m;
    assert x + k * m == (q + k) * m + x % m by {
      assert x == q * m + x % m;
      assert (q + k) * m == q * m + k * m;
    }
    DivModUnique(q + k, x % m, m);
  }

  /** Equal remainders are kept by subtraction. */
  lemma ModSub(a: int, b: int, c: int, d: int, m: int)
    requires m > 0 && a % m == c % m && b % m == d % m
    ensures (a - b) % m == (c - d) % m
  {
    var k := (a / m - c / m) - (b / m - d / m);
    assert a - b == (c - d) + k * m by {
      assert a == (a / m) * m + a % m && c == (c / m) * m + c % m;
      assert b == (b / m) * m + b % m && d == (d / m) * m + d % m;
      assert k * m == (a / m) * m - (c / m) * m - (b / m) * m + (d / m) * m;
    }
    ModShift(c - d, k, m);
  }

  /** Equal remainders modulo a multiple of `n` are equal modulo `n`. */
  lemma ModMod(x: int, y: int, m: int, n: int)
    requires m > 0 && n > 0 && m % n == 0 && x % m == y % m
    ensures x % n == y % n
  {
    var k := (x / m - y / m) * (m / n);
    assert x == y + k * n by {
      var d := x / m - y / m;
      assert x == (x / m) * m + x % m && y == (y / m) * m + y % m;
      assert m == (m / n) * n;
      assert d * m == (x / m) * m - (y / m) * m;
      assert k * n == d * ((m / n) * n);
    }
    ModShift(y, k, n);
  }

  /** Positions less than `n` apart have different remainders. */
  lemma ModDistinct(j: int, k: int, n: int)
    requires j < k < j + n
    ensures j % n != k % n
  {
    if j % n == k % n {
      ModSub(k, j, j, j, n);
      DivModUnique(0, k - j, n);
    }
  }

  /** Inside a row that does not wrap, remainders advance with the position. */
  lemma ModAdd(a: int, i: int, n: int)
    requires n > 0 && 0 <= i && a % n + i < n
    ensures (a + i) % n == a % n + i
  {
    DivModUnique(a / n, a % n + i, n);
    assert a + i == (a / n) * n + (a % n + i);
  }

  /** A step that reaches the end of a row lands at the start of the next one. */
  lemma ModFills(a: int, i: int, n: int)
    requires n > 0 && a % n + i == n
    ensures (a + i) % n == 0
  {
    DivModUnique(a / n + 1, 0, n);
    assert a + i == (a / n + 1) * n by {
      assert a == (a / n) * n + a % n;
    }
  }

  /** A run of `count` positions from `pos` that does not wrap avoids the slot of every earlier position in reach. */
  lemma RunAvoids(k: int, pos: int, count: int, n: int)
    requires n > 0 && k < pos && pos + count <= k + n && pos % n + count <= n
    ensures !(pos % n <= k % n < pos % n + count)
  {
    var i := k % n - pos % n;
    if 0 <= i < count {
      ModAdd(pos, i, n);
      ModDistinct(k, pos + i, n);
    }
  }
}
