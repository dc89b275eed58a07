/** Go's fixed-width integers, as the generated codec uses them: conversions that
    truncate or sign-extend, additions that wrap, shifts that drop high bits. */
module GoInts {
  type byte = b: int | 0 <= b < 256
  type bytes = seq<byte>

  const TWO31 := 0x8000_0000
  const TWO32 := 0x1_0000_0000
  const TWO63 := 0x8000_0000_0000_0000
  const TWO64 := 0x1_0000_0000_0000_0000

  /** A bound on the length of a slice to be read. A longer one cannot be allocated; it would
      let the index that is eight bytes past a cursor wrap around. */
  const MAX_SLICE := TWO63 - 8

  type uint32 = x: int | 0 <= x < 0x1_0000_0000
  type uint64 = x: int | 0 <= x < 0x1_0000_0000_0000_0000
  type int32 = x: int | -0x8000_0000 <= x < 0x8000_0000
  type int64 = x: int | -0x8000_0000_0000_0000 <= x < 0x8000_0000_0000_0000

  /** `uint64(x)`: the low 64 bits, so a negative operand is sign-extended. */
  function Unsigned64(x: int): uint64 {
    x % TWO64
  }

  /** `int64(x)` and `int(x)`: the low 64 bits in two's complement. */
  function Signed64(x: int): int64 {
    var u := x % TWO64;
    if u < TWO63 then u else u - TWO64
  }

  /** `int32(x)`: the low 32 bits in two's complement. */
  function Signed32(x: int): int32 {
    var u := x % TWO32;
    if u < TWO31 then u else u - TWO32
  }

  /** Addition of Go `int`s, which wraps around. */
  function Add64(x: int, y: int): int64 {
    Signed64(x + y)
  }

  /** The sum of two non-negative `int`s is negative exactly when it overflows. */
  lemma AddWraps(x: int64, y: int64)
    requires 0 <= x && 0 <= y
    ensures Add64(x, y) == if x + y < TWO63 then x + y else x + y - TWO64
  {
  }

  lemma SignedPattern(u: uint64)
    ensures Signed64(u) == if u < TWO63 then u else u - TWO64
  {
  }

  function Pow2(n: nat): (p: nat)
    ensures p > 0
  {
    if n == 0 then 1 else 2 * Pow2(n - 1)
  }

  lemma {:induction false} Pow2Sum(m: nat, n: nat)
    ensures Pow2(m + n) == Pow2(m) * Pow2(n)
  {
    if m > 0 {
      Pow2Sum(m - 1, n);
    }
  }

  lemma Pow2Known()
    ensures Pow2(7) == 128
    ensures Pow2(32) == TWO32
    ensures Pow2(64) == TWO64
  {
    assert Pow2(7) == 128;
    Pow2Sum(7, 1); Pow2Sum(8, 8); Pow2Sum(16, 16); Pow2Sum(32, 32);
  }

  /** Bitwise or. */
  function Or(x: nat, y: nat): nat
    decreases x + y
  {
    if x == 0 && y == 0 then 0
    else (if x % 2 == 1 || y % 2 == 1 then 1 else 0) + 2 * Or(x / 2, y / 2)
  }

  /** `x << s` in an unsigned type of w bits. */
  function Shl(x: nat, s: nat, w: nat): nat {
    (x * Pow2(s)) % Pow2(w)
  }

  /** Or of numbers with no bit in common is their sum. */
  lemma {:induction false} OrDisjoint(x: nat, c: nat, k: nat)
    requires x < Pow2(k)
    ensures Or(x, c * Pow2(k)) == x + c * Pow2(k)
    decreases k, c
  {
    var y := c * Pow2(k);
    if k == 0 {
      assert Pow2(0) == 1;
      assert x == 0 && y == c;
      OrZero(c);
    } else {
      var h := c * Pow2(k - 1);
      assert y == 2 * h by {
        assert Pow2(k) == 2 * Pow2(k - 1);
      }
      OrDisjoint(x / 2, c, k - 1);
      assert y / 2 == h && y % 2 == 0;
    }
  }

  lemma {:induction false} OrZero(y: nat)
    ensures Or(0, y) == y
  {
    if y > 0 {
      OrZero(y / 2);
    }
  }

  lemma MulAtLeast(d: int, n: int)
    requires d >= 1
    ensures n >= 0 ==> d * n >= n
  {
  }

  lemma ModUnique(q: int, r: int, n: int)
    requires 0 <= r < n
    ensures (q * n + r) % n == r
  {
    var x := q * n + r;
    var d := q - x / n;
    assert d * n == x % n - r by {
      assert d * n == q * n - (x / n) * n;
    }
    if d >= 1 {
      MulAtLeast(d, n);
    } else if d <= -1 {
      MulAtLeast(-d, n);
    }
  }

  lemma DivUnique(q: int, r: int, n: int)
    requires 0 <= r < n
    ensures (q * n + r) / n == q
  {
    ModUnique(q, r, n);
    var d := (q * n + r) / n - q;
    assert d * n == 0;
    if d >= 1 {
      MulAtLeast(d, n);
    } else if d <= -1 {
      MulAtLeast(-d, n);
    }
  }

  /** Dividing twice. */
  lemma DivDiv(x: nat, d: nat, p: nat)
    requires d > 0 && p > 0
    ensures d * p > 0 && (x / d) / p == x / (d * p)
  {
    MulAtLeast(d, p);
    var q, t := x / (d * p), x % (d * p);
    var y, z := t / d, t % d;
    assert y < p by {
      if y >= p {
        MulAtMost(d, p, y);
      }
    }
    assert x == (q * p + y) * d + z by {
      MulAssociates(q, p, d);
      MulCommutes(p, d);
      MulDistributes(q * p, y, d);
    }
    DivUnique(q * p + y, z, d);
    DivUnique(q, y, p);
  }

  lemma MulAtMost(d: nat, p: nat, y: nat)
    requires p <= y
    ensures d * p <= d * y
  {
    MulDistributes(p, y - p, d);
  }

  /** One `acc |= w(x) << s` of a decode loop whose accumulator has w bits: if acc
      holds the low w bits of r, it then holds those of r + x * 2^s. */
  lemma OrShlAccumulates(r: nat, x: nat, s: nat, w: nat)
    requires r < Pow2(s)
    ensures Or(r % Pow2(w), Shl(x, s, w)) == (r + x * Pow2(s)) % Pow2(w)
  {
    if s >= w {
      ShiftedOut(r, x, s, w);
    } else {
      ShiftedIn(r, x, s, w);
    }
  }

  lemma ShiftedOut(r: nat, x: nat, s: nat, w: nat)
    requires s >= w
    ensures Or(r % Pow2(w), Shl(x, s, w)) == (r + x * Pow2(s)) % Pow2(w)
  {
    var n, e := Pow2(w), x * Pow2(s - w);
    assert x * Pow2(s) == e * n by {
      Pow2Sum(s - w, w);
      MulAssociates(x, Pow2(s - w), n);
    }
    AddMultiple(r, e, n);
    AddMultiple(0, e, n);
    OrCommutes(r % n, 0);
    OrZero(r % n);
  }

  lemma MulAssociates(x: int, y: int, z: int)
    ensures x * (y * z) == (x * y) * z
  {
  }

  lemma AddMultiple(r: nat, e: nat, n: nat)
    requires n > 0
    ensures (r + e * n) % n == r % n
  {
    var q, t := r / n, r % n;
    assert r + e * n == (q + e) * n + t;
    ModUnique(q + e, t, n);
  }

  lemma ShiftedIn(r: nat, x: nat, s: nat, w: nat)
    requires r < Pow2(s) && s < w
    ensures Or(r % Pow2(w), Shl(x, s, w)) == (r + x * Pow2(s)) % Pow2(w)
  {
    var p, e, n := Pow2(s), Pow2(w - s), Pow2(w);
    Pow2Sum(s, w - s);
    var q, c := x / e, x % e;
    SplitShift(x, p, e);
    assert x * p == q * n + c * p && c * p + p <= n;
    assert (x * p) % n == c * p by {
      ModUnique(q, c * p, n);
    }
    assert r % n == r by {
      ModUnique(0, r, n);
    }
    assert (r + x * p) % n == r + c * p by {
      assert r + x * p == q * n + (r + c * p);
      ModUnique(q, r + c * p, n);
    }
    OrDisjoint(r, c, s);
  }

  lemma SplitShift(x: nat, p: nat, e: nat)
    requires e > 0
    ensures x * p == (x / e) * (p * e) + (x % e) * p
    ensures (x % e) * p + p <= p * e
  {
    SplitProduct(x / e, x % e, p, e);
  }

  lemma SplitProduct(q: nat, c: nat, p: nat, e: nat)
    requires c < e
    ensures (q * e + c) * p == q * (p * e) + c * p
    ensures c * p + p <= p * e
  {
    MulDistributes(q * e, c, p);
    MulAssociates(q, e, p);
    MulDistributes(e - c, c, p);
    MulAtLeast(e - c, p);
    MulCommutes(e, p);
  }

  lemma MulDistributes(x: int, y: int, z: int)
    ensures (x + y) * z == x * z + y * z
  {
  }

  lemma MulCommutes(x: int, y: int)
    ensures x * y == y * x
  {
  }

  lemma {:induction false} OrCommutes(x: nat, y: nat)
    ensures Or(x, y) == Or(y, x)
    decreases x + y
  {
    if x != 0 || y != 0 {
      OrCommutes(x / 2, y / 2);
    }
  }
}
