/**
 Unsigned machine integers and the bitwise operators the codec uses, as Go
 defines them. Integers are mathematical; a conversion to a fixed width is an
 explicit reduction modulo 2^width, and `&` and `|` are defined bit by bit so
 that their arithmetic meaning (a mask is a remainder, an `or` of disjoint
 fields is a sum) is proved rather than assumed.
 */
module Bits {

  const TWO8: nat := 0x100
  const TWO30: nat := 0x4000_0000
  const TWO32: nat := 0x1_0000_0000
  const TWO40: nat := 0x100_0000_0000
  const TWO64: nat := 0x1_0000_0000_0000_0000

  type Uint8 = x: int | 0 <= x < TWO8
  type Uint32 = x: int | 0 <= x < TWO32
  type Uint64 = x: int | 0 <= x < TWO64

  function Pow2(k: nat): (p: nat)
    ensures p >= 1
  {
    if k == 0 then 1 else 2 * Pow2(k - 1)
  }

  /** Go's conversion `uint64(x)` of a signed integer: two's complement wrap. */
  function ToUint64(x: int): (r: Uint64)
    ensures (x - r) % TWO64 == 0
  {
    x % TWO64
  }

  /** Go's conversion `uint32(x)`: keeps the low 32 bits. */
  function ToUint32(x: int): (r: Uint32)
    ensures (x - r) % TWO32 == 0
  {
    x % TWO32
  }

  /** Go's conversion `byte(x)`: keeps the low 8 bits. */
  function ToUint8(x: int): (r: Uint8)
    ensures (x - r) % TWO8 == 0
  {
    x % TWO8
  }

  /** `x << k` on a value of `width` bits: bits shifted past the top are lost. */
  function ShiftLeft(x: nat, k: nat, width: nat): nat
  {
    (x * Pow2(k)) % Pow2(width)
  }

  /** `x >> k` on an unsigned value. */
  function ShiftRight(x: nat, k: nat): nat
  {
    var q := x / Pow2(k);
    assert q >= 0 by {
      if q < 0 {
        MulAtLeast(Pow2(k), -q);
      }
    }
    q
  }

  /** Bitwise `&`: bit i of the result is set iff bit i is set in both operands. */
  function BitAnd(a: nat, b: nat): nat
    decreases a
  {
    if a == 0 || b == 0 then 0
    else 2 * BitAnd(a / 2, b / 2) + (a % 2) * (b % 2)
  }

  /** Bitwise `|`: bit i of the result is set iff bit i is set in either operand. */
  function BitOr(a: nat, b: nat): nat
    decreases a + b
  {
    if a == 0 then b
    else if b == 0 then a
    else 2 * BitOr(a / 2, b / 2) + (if a % 2 == 1 || b % 2 == 1 then 1 else 0)
  }

  lemma Pow2Values()
    ensures Pow2(8) == TWO8 && Pow2(16) == 0x1_0000 && Pow2(24) == 0x100_0000
    ensures Pow2(30) == TWO30 && Pow2(32) == TWO32 && Pow2(64) == TWO64
  {
    Pow2Add(4, 4);
    assert Pow2(4) == 16;
    assert Pow2(8) == 0x100;
    Pow2Add(8, 8);
    assert Pow2(16) == 0x1_0000;
    Pow2Add(16, 8);
    Pow2Add(16, 14);
    Pow2Add(8, 6);
    assert Pow2(14) == 0x4000;
    Pow2Add(16, 16);
    Pow2Add(32, 32);
  }

  lemma Pow2Add(a: nat, b: nat)
    ensures Pow2(a + b) == Pow2(a) * Pow2(b)
  {
    if b > 0 {
      Pow2Add(a, b - 1);
    }
  }

  /** Euclidean division and remainder are determined by the defining equation. */
  lemma DivModUnique(x: int, d: int, q: int, r: int)
    requires d > 0 && 0 <= r < d && x == d * q + r
    ensures x / d == q && x % d == r
  {
    var q', r' := x / d, x % d;
    assert d * q + r == d * q' + r';
    var k := q - q';
    assert d * k == r' - r by {
      assert d * q == d * (q' + k) == d * q' + d * k;
    }
    if k > 0 {
      MulAtLeast(d, k);
    } else if k < 0 {
      MulAtLeast(d, -k);
    }
  }

  lemma MulAtLeast(d: int, k: int)
    requires d > 0 && k >= 1
    ensures d * k >= d
  {
    assert d * k == d + d * (k - 1);
  }

  /** Peeling one low digit in base a off a remainder modulo a * b. */
  lemma ModMul(x: int, a: nat, b: nat)
    requires a > 0 && b > 0
    ensures x % (a * b) == (x / a % b) * a + x % a
    ensures x / (a * b) == x / a / b
  {
    var y, s := x / a, x % a;
    var q, r := y / b, y % b;
    assert x == a * y + s;
    assert y == b * q + r;
    MulRearrange(a, b, q, r);
    assert x == (a * b) * q + (r * a + s);
    DigitBelow(a, b, r, s);
    DivModUnique(x, a * b, q, r * a + s);
  }

  lemma MulRearrange(a: int, b: int, q: int, r: int)
    ensures a * (b * q + r) == (a * b) * q + r * a
  {
  }

  /** A digit r < b of weight a plus a remainder s < a stays below a * b. */
  lemma DigitBelow(a: nat, b: nat, r: nat, s: nat)
    requires a > 0 && r < b && s < a
    ensures r * a + s < a * b
  {
    MulAtLeast(a, b - r);
    assert a * (b - r) == a * b - r * a;
  }

  /** A remainder modulo a multiple of m keeps the remainder modulo m. */
  lemma ModOfMod(x: int, m: nat, k: nat)
    requires m > 0 && k > 0
    ensures x % (m * k) % m == x % m
  {
    ModMul(x, m, k);
    var r := x / m % k;
    DivModUnique(r * m + x % m, m, r, x % m);
  }

  /** Two integers leave the same remainder iff their difference is a multiple. */
  lemma SameRemainderIff(a: int, b: int, m: nat)
    requires m > 0
    ensures a % m == b % m <==> (a - b) % m == 0
  {
    var qa, ra, qb, rb := a / m, a % m, b / m, b % m;
    assert a - b == m * (qa - qb) + (ra - rb) by {
      assert m * (qa - qb) == m * qa - m * qb;
    }
    if ra == rb {
      DivModUnique(a - b, m, qa - qb, 0);
    } else if ra > rb {
      DivModUnique(a - b, m, qa - qb, ra - rb);
    } else {
      assert a - b == m * (qa - qb - 1) + (m + ra - rb) by {
        assert m * (qa - qb - 1) == m * (qa - qb) - m;
      }
      DivModUnique(a - b, m, qa - qb - 1, m + ra - rb);
    }
  }

  /** Masking with 2^k - 1 is the remainder modulo 2^k. */
  lemma {:induction false} AndLowMask(x: nat, k: nat)
    ensures BitAnd(x, Pow2(k) - 1) == x % Pow2(k)
  {
    if k == 0 {
      DivModUnique(x, 1, x, 0);
    } else if x == 0 {
      DivModUnique(0, Pow2(k), 0, 0);
    } else {
      var p := Pow2(k - 1);
      assert Pow2(k) - 1 == 2 * p - 1;
      AndMaskStep(x, p);
      AndLowMask(x / 2, k - 1);
      ModMul(x, 2, p);
      assert x % Pow2(k) == x % (2 * p);
    }
  }

  lemma AndMaskStep(x: nat, p: nat)
    requires x > 0 && p >= 1
    ensures BitAnd(x, 2 * p - 1) == 2 * BitAnd(x / 2, p - 1) + x % 2
  {
    var m := 2 * p - 1;
    DivModUnique(m, 2, p - 1, 1);
    assert (x % 2) * (m % 2) == x % 2;
  }

  /** `or` of a value below 2^k with a multiple of 2^k is their sum. */
  lemma {:induction false} OrDisjoint(a: nat, b: nat, k: nat)
    requires a < Pow2(k)
    ensures BitOr(a, b * Pow2(k)) == a + b * Pow2(k)
  {
    if k > 0 && a > 0 && b > 0 {
      var p := Pow2(k - 1);
      assert b * Pow2(k) == 2 * (b * p);
      assert (b * Pow2(k)) / 2 == b * p && (b * Pow2(k)) % 2 == 0;
      OrDisjoint(a / 2, b, k - 1);
    }
  }

  lemma {:induction false} OrCommutes(a: nat, b: nat)
    ensures BitOr(a, b) == BitOr(b, a)
    decreases a + b
  {
    if a > 0 && b > 0 {
      OrCommutes(a / 2, b / 2);
    }
  }

  /** A left shift that does not reach the top of the word loses nothing. */
  lemma ShiftLeftFits(x: nat, k: nat, width: nat)
    requires x * Pow2(k) < Pow2(width)
    ensures ShiftLeft(x, k, width) == x * Pow2(k)
  {
    DivModUnique(x * Pow2(k), Pow2(width), 0, x * Pow2(k));
  }
}
