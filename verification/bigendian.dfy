/**
 Big-endian byte order as Go's `encoding/binary.BigEndian` implements it for
 32-bit words, together with the reference meaning of a big-endian byte
 string: `Digits` (a number to its n low base-256 digits, most significant
 first) and `Value` (a digit string back to its number).
 */
module BigEndian {
  import opened Bits

  function Pow256(n: nat): (p: nat)
    ensures p >= 1
  {
    if n == 0 then 1 else 256 * Pow256(n - 1)
  }

  /** The n low-order base-256 digits of x, most significant first. */
  function Digits(x: nat, n: nat): (s: seq<Uint8>)
    ensures |s| == n
  {
    if n == 0 then [] else Digits(x / 256, n - 1) + [x % 256]
  }

  /** The number a big-endian digit string denotes. */
  function Value(s: seq<Uint8>): nat
  {
    if |s| == 0 then 0 else Value(s[..|s| - 1]) * 256 + s[|s| - 1]
  }

  lemma {:induction false} ValueBound(s: seq<Uint8>)
    ensures Value(s) < Pow256(|s|)
  {
    if |s| > 0 {
      var init := s[..|s| - 1];
      ValueBound(init);
      assert Value(init) * 256 <= (Pow256(|init|) - 1) * 256;
    }
  }

  /** Reading back n digits gives the number modulo 256^n. */
  lemma {:induction false} ValueOfDigits(x: nat, n: nat)
    ensures Value(Digits(x, n)) == x % Pow256(n)
  {
    if n == 0 {
      DivModUnique(x, 1, x, 0);
    } else {
      var s := Digits(x, n);
      assert s[..n - 1] == Digits(x / 256, n - 1);
      ValueOfDigits(x / 256, n - 1);
      ModMul(x, 256, Pow256(n - 1));
    }
  }

  /** Writing out the value of a digit string gives the string back. */
  lemma {:induction false} DigitsOfValue(s: seq<Uint8>)
    ensures Digits(Value(s), |s|) == s
  {
    if |s| > 0 {
      var init, last := s[..|s| - 1], s[|s| - 1];
      DivModUnique(Value(init) * 256 + last, 256, Value(init), last);
      DigitsOfValue(init);
      assert s == init + [last];
    }
  }

  /** Only the low n digits of x decide its n-digit form. */
  lemma {:induction false} DigitsOfLow(x: nat, n: nat, m: nat)
    requires n <= m
    ensures Digits(x % Pow256(m), n) == Digits(x, n)
  {
    if n > 0 {
      var p := Pow256(m - 1);
      ModMul(x, 256, p);
      var y := x % Pow256(m);
      assert y == (x / 256 % p) * 256 + x % 256;
      DivModUnique(y, 256, x / 256 % p, x % 256);
      DigitsOfLow(x / 256, n - 1, m - 1);
    }
  }

  lemma DigitsOfFour(v: nat)
    ensures Digits(v, 4) == [v / 0x100_0000 % 256, v / 0x1_0000 % 256, v / 256 % 256, v % 256]
  {
    ModMul(v, 256, 256);
    ModMul(v, 0x1_0000, 256);
    var v1 := v / 256;
    var v2 := v1 / 256;
    var v3 := v2 / 256;
    assert Digits(v3, 1) == [v3 % 256];
    assert Digits(v2, 2) == [v3 % 256, v2 % 256];
    assert Digits(v1, 3) == [v3 % 256, v2 % 256, v1 % 256];
  }

  lemma ValueOfFour(b: seq<Uint8>)
    requires |b| == 4
    ensures Value(b) == (b[0] as int) * 0x100_0000 + (b[1] as int) * 0x1_0000 + (b[2] as int) * 256 + b[3]
  {
    var b0, b1, b2 := b[0] as int, b[1] as int, b[2] as int;
    assert b[..3][..2][..1] == [b[0]];
    assert [b[0]][..0] == [];
    assert Value([b[0]]) == b0;
    assert Value(b[..3][..2]) == b0 * 256 + b1;
    assert Value(b[..3]) == b0 * 0x1_0000 + b1 * 256 + b2;
  }

  lemma Pow256Values()
    ensures Pow256(4) == TWO32 && Pow256(5) == TWO40
  {
  }

  /** `binary.BigEndian.PutUint32`: the four bytes of v, most significant first. */
  function PutUint32(v: Uint32): (b: seq<Uint8>)
    ensures b == Digits(v, 4)
  {
    Pow2Values();
    DigitsOfFour(v);
    [ToUint8(ShiftRight(v, 24)), ToUint8(ShiftRight(v, 16)), ToUint8(ShiftRight(v, 8)), ToUint8(v)]
  }

  /** `binary.BigEndian.Uint32`: the word whose big-endian bytes are b[0..4]. */
  function Uint32(b: seq<Uint8>): (v: Uint32)
    requires |b| >= 4
    ensures v == Value(b[..4])
  {
    Pow2Values();
    var w3 := b[3];
    var w2 := ShiftLeft(b[2], 8, 32);
    var w1 := ShiftLeft(b[1], 16, 32);
    var w0 := ShiftLeft(b[0], 24, 32);
    ShiftLeftFits(b[2], 8, 32);
    ShiftLeftFits(b[1], 16, 32);
    ShiftLeftFits(b[0], 24, 32);
    OrDisjoint(w3, b[2], 8);
    var v2 := BitOr(w3, w2);
    assert v2 < 0x1_0000;
    OrDisjoint(v2, b[1], 16);
    var v1 := BitOr(v2, w1);
    assert v1 < 0x100_0000;
    OrDisjoint(v1, b[0], 24);
    var v0 := BitOr(v1, w0);
    ValueOfFour(b[..4]);
    v0
  }
}
