/** C integer semantics that differ from Dafny's unbounded, Euclidean arithmetic. */
module CArith {

  const INT_MAX: int := 0x7FFF_FFFF
  const TWO_POW_32: int := 0x1_0000_0000
  const TWO_POW_64: int := 0x1_0000_0000_0000_0000
  const SIZE_MAX: int := TWO_POW_64 - 1

  /** C's `/` for a positive divisor: the quotient is truncated toward zero. */
  function CDiv(a: int, d: int): (q: int)
    requires d > 0
    ensures a >= 0 ==> q == a / d
    ensures a >= 0 ==> 0 <= a - d * q < d
    ensures a < 0 ==> -d < a - d * q <= 0
  {
    if a >= 0 then a / d else -((-a) / d)
  }

  /** C's `%` for a positive divisor: the remainder takes the sign of the dividend. */
  function CRem(a: int, d: int): (r: int)
    requires d > 0
    ensures a == d * CDiv(a, d) + r
    ensures a >= 0 ==> 0 <= r < d
    ensures a < 0 ==> -d < r <= 0
  {
    a - d * CDiv(a, d)
  }

  /** Reinterprets the low 32 bits of `x` as a two's-complement `int`. */
  function Wrap32(x: int): (r: int)
    ensures -0x8000_0000 <= r < 0x8000_0000
    ensures (r - x) % TWO_POW_32 == 0
    ensures -0x8000_0000 <= x < 0x8000_0000 ==> r == x
  {
    var u := x % TWO_POW_32;
    if u >= 0x8000_0000 then u - TWO_POW_32 else u
  }

  /** Reduces `x` modulo 2^64, as a conversion to `uint64_t` does. */
  function ToUint64(x: int): (r: int)
    ensures 0 <= r < TWO_POW_64
    ensures (r - x) % TWO_POW_64 == 0
    ensures 0 <= x < TWO_POW_64 ==> r == x
  {
    x % TWO_POW_64
  }

  /** Reinterprets a `uint64_t` as an `int64_t`. */
  function ToInt64(u: int): (r: int)
    requires 0 <= u < TWO_POW_64
    ensures -0x8000_0000_0000_0000 <= r < 0x8000_0000_0000_0000
    ensures (r - u) % TWO_POW_64 == 0
  {
    if u >= 0x8000_0000_0000_0000 then u - TWO_POW_64 else u
  }

  /** Bit test `x & b` for a single-bit mask `b` on a two's-complement integer. */
  predicate HasBit(x: int, b: int)
    requires b > 0
  {
    (x / b) % 2 == 1
  }

  function Pow2(n: nat): (r: nat)
    ensures r >= 1
  {
    if n == 0 then 1 else 2 * Pow2(n - 1)
  }

  /** Bitwise OR of the low `n` bits of two non-negative integers. */
  function BitOr(x: nat, y: nat, n: nat): nat
  {
    if n == 0 then 0
    else (if x % 2 == 1 || y % 2 == 1 then 1 else 0) + 2 * BitOr(x / 2, y / 2, n - 1)
  }

  /** Bitwise AND of the low `n` bits of two non-negative integers. */
  function BitAnd(x: nat, y: nat, n: nat): nat
  {
    if n == 0 then 0
    else (if x % 2 == 1 && y % 2 == 1 then 1 else 0) + 2 * BitAnd(x / 2, y / 2, n - 1)
  }

  lemma {:induction false} AllOnesHalf(n: nat)
    requires n > 0
    ensures (Pow2(n) - 1) % 2 == 1 && (Pow2(n) - 1) / 2 == Pow2(n - 1) - 1
  {
  }

  lemma {:induction false} ModPow2Step(y: nat, n: nat)
    requires n > 0
    ensures y % Pow2(n) == y % 2 + 2 * ((y / 2) % Pow2(n - 1))
  {
    var p := Pow2(n - 1);
    var q := (y / 2) / p;
    var r := (y / 2) % p;
    assert y / 2 == p * q + r && 0 <= r < p;
    assert y == 2 * (p * q + r) + y % 2;
    assert y == (2 * p) * q + (2 * r + y % 2);
    assert 0 <= 2 * r + y % 2 < 2 * p;
    LemmaModUnique(y, 2 * p, q, 2 * r + y % 2);
  }

  lemma LemmaModUnique(y: int, d: int, q: int, r: int)
    requires d > 0 && y == d * q + r && 0 <= r < d
    ensures y % d == r
  {
    var q' := y / d;
    var r' := y % d;
    assert y == d * q' + r';
    if q' > q {
      assert d * q' >= d * (q + 1) by { LemmaMulMono(d, q + 1, q'); }
    } else if q' < q {
      assert d * q >= d * (q' + 1) by { LemmaMulMono(d, q' + 1, q); }
    }
  }

  lemma LemmaMulMono(d: int, a: int, b: int)
    requires d > 0 && a <= b
    ensures d * a <= d * b
  {
  }

  /** OR with all ones gives all ones. */
  lemma {:induction false} BitOrAllOnes(y: nat, n: nat)
    ensures BitOr(Pow2(n) - 1, y, n) == Pow2(n) - 1
  {
    if n > 0 {
      AllOnesHalf(n);
      BitOrAllOnes(y / 2, n - 1);
    }
  }

  /** OR with zero keeps the low `n` bits. */
  lemma {:induction false} BitOrZero(y: nat, n: nat)
    ensures BitOr(0, y, n) == y % Pow2(n)
  {
    if n > 0 {
      BitOrZero(y / 2, n - 1);
      ModPow2Step(y, n);
    }
  }

  /** AND with all ones keeps the low `n` bits. */
  lemma {:induction false} BitAndAllOnes(x: nat, m: nat, n: nat)
    requires m == Pow2(n) - 1
    ensures BitAnd(x, m, n) == x % Pow2(n)
  {
    if n > 0 {
      AllOnesHalf(n);
      BitAndAllOnes(x / 2, m / 2, n - 1);
      ModPow2Step(x, n);
    }
  }

  lemma Pow2Of32()
    ensures Pow2(32) == TWO_POW_32
  {
    assert Pow2(1) == 2;
    assert Pow2(2) == 4;
    assert Pow2(3) == 8;
    assert Pow2(4) == 16;
    assert Pow2(5) == 32;
    assert Pow2(6) == 64;
    assert Pow2(7) == 128;
    assert Pow2(8) == 256;
    assert Pow2(9) == 512;
    assert Pow2(10) == 1024;
    assert Pow2(11) == 2048;
    assert Pow2(12) == 4096;
    assert Pow2(13) == 8192;
    assert Pow2(14) == 16384;
    assert Pow2(15) == 32768;
    assert Pow2(16) == 65536;
    assert Pow2(17) == 131072;
    assert Pow2(18) == 262144;
    assert Pow2(19) == 524288;
    assert Pow2(20) == 1048576;
    assert Pow2(21) == 2097152;
    assert Pow2(22) == 4194304;
    assert Pow2(23) == 8388608;
    assert Pow2(24) == 16777216;
    assert Pow2(25) == 33554432;
    assert Pow2(26) == 67108864;
    assert Pow2(27) == 134217728;
    assert Pow2(28) == 268435456;
    assert Pow2(29) == 536870912;
    assert Pow2(30) == 1073741824;
    assert Pow2(31) == 2147483648;
    assert Pow2(32) == 4294967296;
  }

  /** The two's-complement bit pattern of a signed 32-bit value. */
  function U32(x: int): (u: nat)
    ensures u < TWO_POW_32
  {
    x % TWO_POW_32
  }

  /** The bit pattern of `-1` is the 32-bit all-ones word. */
  lemma U32AllOnes()
    ensures Pow2(32) == TWO_POW_32
    ensures U32(-1) == Pow2(32) - 1
  {
    Pow2Of32();
  }

  /** AND with the all-ones word keeps a 32-bit pattern. */
  lemma BitAnd32AllOnes(u: nat)
    requires u < TWO_POW_32
    ensures BitAnd(u, U32(-1), 32) == u
  {
    U32AllOnes();
    BitAndAllOnesBelow(u, 32, TWO_POW_32);
  }

  lemma BitAndAllOnesBelow(u: nat, n: nat, p: nat)
    requires p == Pow2(n) && u < p
    ensures BitAnd(u, p - 1, n) == u
  {
    BitAndAllOnes(u, p - 1, n);
    LemmaModUnique(u, p, 0, u);
  }

  lemma BitOrZeroBelow(u: nat, n: nat, p: nat)
    requires p == Pow2(n) && u < p
    ensures BitOr(0, u, n) == u
  {
    BitOrZero(u, n);
    LemmaModUnique(u, p, 0, u);
  }

  /** OR with the all-ones word gives the all-ones word. */
  lemma BitOr32AllOnes(u: nat)
    ensures BitOr(U32(-1), u, 32) == U32(-1)
  {
    U32AllOnes();
    BitOrAllOnes(u, 32);
  }

  /** OR with zero keeps a 32-bit pattern. */
  lemma BitOr32Zero(u: nat)
    requires u < TWO_POW_32
    ensures BitOr(0, u, 32) == u
  {
    U32AllOnes();
    BitOrZeroBelow(u, 32, TWO_POW_32);
  }

  /** A 32-bit pattern read back as a signed value gives the value it came from. */
  lemma WrapOfU32(x: int)
    requires -0x8000_0000 <= x < 0x8000_0000
    ensures Wrap32(U32(x)) == x
  {
    if x < 0 {
      assert U32(x) == x + TWO_POW_32;
    }
  }

  /** C's `|` on two signed 32-bit values. */
  function Or32(x: int, y: int): (r: int)
  {
    Wrap32(BitOr(U32(x), U32(y), 32))
  }

  /** C's `&` on two signed 32-bit values. */
  function And32(x: int, y: int): (r: int)
  {
    Wrap32(BitAnd(U32(x), U32(y), 32))
  }

  /** `-1 | y` is `-1`. */
  lemma Or32AllOnes(y: int)
    ensures Or32(-1, y) == -1
  {
    BitOr32AllOnes(U32(y));
    WrapOfU32(-1);
  }

  /** `0 | y` is `y`. */
  lemma Or32Zero(y: int)
    requires -0x8000_0000 <= y < 0x8000_0000
    ensures Or32(0, y) == y
  {
    assert U32(0) == 0;
    BitOr32Zero(U32(y));
    WrapOfU32(y);
  }

  /** `x & -1` is `x`. */
  lemma And32AllOnes(x: int)
    requires -0x8000_0000 <= x < 0x8000_0000
    ensures And32(x, -1) == x
  {
    BitAnd32AllOnes(U32(x));
    WrapOfU32(x);
  }
}
