/** Machine words as bounded integers, with the bit operations the EVM and Go
    provide on them spelled out on natural numbers. */
module Words {
  const TWO32: int := 0x1_0000_0000
  const TWO63: int := 0x8000_0000_0000_0000
  const TWO64: int := 0x1_0000_0000_0000_0000
  const TWO192: int := 0x1_0000_0000_0000_0000_0000_0000_0000_0000_0000_0000_0000_0000
  const TWO256: int := 0x1_0000_0000_0000_0000_0000_0000_0000_0000_0000_0000_0000_0000_0000_0000_0000_0000

  type byte = x: int | 0 <= x < 256
  type u64 = x: int | 0 <= x < TWO64
  type u256 = x: int | 0 <= x < TWO256

  // ----- powers of two -----

  function Pow2(n: nat): (r: nat)
    ensures r > 0
  {
    if n == 0 then 1 else 2 * Pow2(n - 1)
  }

  lemma MulAssoc(a: int, b: int, c: int)
    ensures (a * b) * c == a * (b * c)
  {
  }

  lemma MulAdd(a: int, b: int, c: int)
    ensures (a + b) * c == a * c + b * c
  {
  }

  lemma {:induction false} PowAdd(a: nat, b: nat)
    ensures Pow2(a + b) == Pow2(a) * Pow2(b)
  {
    if a == 0 {
      assert Pow2(a) == 1;
    } else {
      PowAdd(a - 1, b);
      assert Pow2((a - 1) + b) == Pow2(a + b - 1);
      MulAssoc(2, Pow2(a - 1), Pow2(b));
    }
  }

  lemma {:induction false} PowMonotone(a: nat, b: nat)
    requires a <= b
    ensures Pow2(a) <= Pow2(b)
    decreases b
  {
    if a < b {
      PowMonotone(a, b - 1);
    }
  }

  lemma PowValues()
    ensures Pow2(5) == 32 && Pow2(8) == 256 && Pow2(12) == 4096 && Pow2(32) == TWO32
    ensures Pow2(63) == TWO63 && Pow2(64) == TWO64 && Pow2(192) == TWO192 && Pow2(256) == TWO256
  {
    hide Pow2;
    PowSmall();
    assert Pow2(8) == 256 by { PowAdd(4, 4); }
    assert Pow2(12) == 4096 by { PowAdd(8, 4); }
    assert Pow2(5) == 32 by { PowAdd(4, 1); }
    assert Pow2(16) == 0x1_0000 by { PowAdd(8, 8); }
    assert Pow2(32) == TWO32 by { PowAdd(16, 16); }
    assert Pow2(64) == TWO64 by { PowAdd(32, 32); }
    assert Pow2(128) == TWO64 * TWO64 by { PowAdd(64, 64); }
    assert Pow2(192) == TWO192 by { PowAdd(128, 64); }
    assert Pow2(256) == TWO256 by { PowAdd(128, 128); }
    assert Pow2(63) == TWO63 by { PowAdd(1, 63); }
  }

  lemma PowSmall()
    ensures Pow2(0) == 1 && Pow2(1) == 2 && Pow2(4) == 16
  {
    assert Pow2(2) == 4;
  }

  // ----- division facts -----

  lemma MulAtLeast(k: int, d: int)
    requires k >= 1 && d > 0
    ensures k * d >= d
  {
  }

  lemma SmallMultiple(k: int, d: int)
    requires d > 0 && -d < k * d < d
    ensures k == 0
  {
    if k >= 1 {
      MulAtLeast(k, d);
    } else if k <= -1 {
      MulAtLeast(-k, d);
    }
  }

  lemma MulOrder(a: int, b: int, d: int)
    requires d > 0
    ensures a <= b <==> a * d <= b * d
    ensures a < b <==> a * d < b * d
  {
    MulAdd(b - a, a, d);
    if b - a >= 1 {
      MulAtLeast(b - a, d);
    } else if a - b >= 1 {
      MulAtLeast(a - b, d);
      MulNegate(a - b, d);
    }
  }

  lemma MulNegate(a: int, d: int)
    ensures (-a) * d == -(a * d)
  {
  }

  /** Where a quotient lies. */
  lemma DivLess(x: int, d: int, k: int)
    requires d > 0
    ensures x / d < k <==> x < k * d
  {
    var q := x / d;
    DivMod(x, d);
    MulOrder(q + 1, k, d);
    MulOrder(k, q, d);
    MulAdd(q, 1, d);
  }

  lemma DivUnique(x: int, d: int, q: int, r: int)
    requires d > 0 && x == q * d + r && 0 <= r < d
    ensures x / d == q && x % d == r
  {
    var q' := x / d;
    assert x == q' * d + x % d;
    MulAdd(q - q', q', d);
    SmallMultiple(q - q', d);
  }

  lemma DivMod(x: int, d: int)
    requires d > 0
    ensures x == (x / d) * d + x % d && 0 <= x % d < d
  {
  }

  /** Dividing twice is dividing by the product. */
  lemma DivDiv(x: int, a: int, b: int)
    requires a > 0 && b > 0
    ensures a * b > 0
    ensures (x / a) / b == x / (a * b)
    ensures x % (a * b) == ((x / a) % b) * a + x % a
  {
    var q, r := x / a, x % a;
    var q', r' := q / b, q % b;
    MulOrder(0, b, a);
    DivMod(x, a);
    DivMod(q, b);
    MulAdd(q' * b, r', a);
    MulAssoc(q', b, a);
    MulCommutes(a, b);
    MulOrder(0, r', a);
    MulOrder(r', b - 1, a);
    MulAdd(b, -1, a);
    DivUnique(x, a * b, q', r' * a + r);
  }

  lemma MulCommutes(a: int, b: int)
    ensures a * b == b * a
  {
  }

  lemma ModAddMul(x: int, k: int, d: int)
    requires d > 0
    ensures (x + k * d) % d == x % d
    ensures (x + k * d) / d == x / d + k
  {
    DivMod(x, d);
    assert x + k * d == (x / d + k) * d + x % d by {
      assert (x / d + k) * d == (x / d) * d + k * d;
    }
    DivUnique(x + k * d, d, x / d + k, x % d);
  }

  /** A residue modulo 2^256 has the same low 64 bits. */
  lemma ModMod(x: int, a: int, b: int)
    requires a > 0 && b > 0
    ensures a * b > 0 && (x % (a * b)) % a == x % a
  {
    DivDiv(x, a, b);
    DivUnique(x % (a * b), a, (x / a) % b, x % a);
  }

  lemma SmallResidue(x: nat, d: nat)
    requires x < d
    ensures x % d == x
  {
  }

  // ----- shifts, one bit at a time -----

  function Shl(x: nat, q: nat): nat
    decreases q, x
  {
    if q == 0 then x else 2 * Shl(x, q - 1)
  }

  function Shr(x: nat, q: nat): nat
    decreases q, x
  {
    if q == 0 then x else Shr(x / 2, q - 1)
  }

  /** The q lowest bits of x. */
  function Low(x: nat, q: nat): nat
    decreases q, x
  {
    if q == 0 then 0 else x % 2 + 2 * Low(x / 2, q - 1)
  }

  lemma {:induction false} Digits(x: nat, q: nat)
    ensures x == Shl(Shr(x, q), q) + Low(x, q) && Low(x, q) < Pow2(q)
    decreases q
  {
    if q > 0 {
      Digits(x / 2, q - 1);
    }
  }

  lemma {:induction false} DigitsUnique(x: nat, q: nat, hi: nat, lo: nat)
    requires x == Shl(hi, q) + lo && lo < Pow2(q)
    ensures Shr(x, q) == hi && Low(x, q) == lo
    decreases q
  {
    if q > 0 {
      assert x / 2 == Shl(hi, q - 1) + lo / 2 && x % 2 == lo % 2;
      DigitsUnique(x / 2, q - 1, hi, lo / 2);
    }
  }

  lemma {:induction false} ShlAdd(x: nat, y: nat, q: nat)
    ensures Shl(x + y, q) == Shl(x, q) + Shl(y, q)
  {
    if q > 0 {
      ShlAdd(x, y, q - 1);
    }
  }

  lemma {:induction false} ShlShl(x: nat, a: nat, b: nat)
    ensures Shl(Shl(x, a), b) == Shl(x, a + b)
    decreases b
  {
    if b > 0 {
      ShlShl(x, a, b - 1);
    }
  }

  lemma {:induction false} ShrShr(x: nat, a: nat, b: nat)
    ensures Shr(Shr(x, a), b) == Shr(x, a + b)
    decreases a
  {
    if a > 0 {
      ShrShr(x / 2, a - 1, b);
    }
  }

  /** Shifts are multiplication and division by a power of two. */
  lemma {:induction false} ShlIsMul(x: nat, q: nat)
    ensures Shl(x, q) == x * Pow2(q)
  {
    if q > 0 {
      ShlIsMul(x, q - 1);
      MulDouble(x, Pow2(q - 1));
    }
  }

  lemma ShrIsDiv(x: nat, q: nat)
    ensures Shr(x, q) == x / Pow2(q) && Low(x, q) == x % Pow2(q)
  {
    Digits(x, q);
    ShlIsMul(Shr(x, q), q);
    DivUnique(x, Pow2(q), Shr(x, q), Low(x, q));
  }

  lemma {:induction false} LowSmall(x: nat, q: nat)
    ensures x < Pow2(q) <==> Low(x, q) == x
    ensures x < Pow2(q) <==> Shr(x, q) == 0
  {
    Digits(x, q);
    if x < Pow2(q) {
      ShlZeroOne(q);
      DigitsUnique(x, q, 0, x);
    } else if Shr(x, q) == 0 {
      ShlZeroOne(q);
    }
  }

  lemma {:induction false} ShlLess(x: nat, n: nat, q: nat)
    ensures x < Pow2(n) <==> Shl(x, q) < Pow2(n + q)
  {
    if q > 0 {
      ShlLess(x, n, q - 1);
    }
  }

  lemma {:induction false} ShlMonotone(x: nat, y: nat, q: nat)
    requires x <= y
    ensures Shl(x, q) <= Shl(y, q)
  {
    if q > 0 {
      ShlMonotone(x, y, q - 1);
    }
  }

  lemma MulDouble(a: int, p: int)
    ensures a * (2 * p) == 2 * (a * p)
  {
  }

  // ----- bit operations on naturals of any width -----

  function And(x: nat, y: nat): nat {
    if x == 0 || y == 0 then 0
    else (if x % 2 == 1 && y % 2 == 1 then 1 else 0) + 2 * And(x / 2, y / 2)
  }

  function Or(x: nat, y: nat): nat
    decreases x + y
  {
    if x == 0 then y else if y == 0 then x
    else (if x % 2 == 1 || y % 2 == 1 then 1 else 0) + 2 * Or(x / 2, y / 2)
  }

  function Xor(x: nat, y: nat): nat
    decreases x + y
  {
    if x == 0 then y else if y == 0 then x
    else (if x % 2 != y % 2 then 1 else 0) + 2 * Xor(x / 2, y / 2)
  }

  lemma AndStep(x: nat, y: nat)
    ensures And(x, y) == (if x % 2 == 1 && y % 2 == 1 then 1 else 0) + 2 * And(x / 2, y / 2)
  {
  }

  lemma OrStep(x: nat, y: nat)
    ensures Or(x, y) == (if x % 2 == 1 || y % 2 == 1 then 1 else 0) + 2 * Or(x / 2, y / 2)
  {
  }

  lemma AndZero(x: nat)
    ensures And(x, 0) == 0 && And(0, x) == 0 && Or(x, 0) == x && Or(0, x) == x
  {
  }

  lemma LowestOf(b: nat, x: nat)
    requires b < 2
    ensures (b + 2 * x) % 2 == b && (b + 2 * x) / 2 == x
  {
  }

  /** The lowest bit of the low part of a number that is cut in two. */
  lemma HalveLow(x1: nat, x0: nat, q: nat) returns (x: nat, b: nat)
    requires q > 0 && x0 < Pow2(q)
    ensures b < 2 && x0 == b + 2 * x && x < Pow2(q - 1)
    ensures Shl(x1, q) == 2 * Shl(x1, q - 1)
  {
    x, b := x0 / 2, x0 % 2;
  }

  /** And and Or work on the high and the low digits separately. */
  lemma {:induction false} AndDigits(x1: nat, x0: nat, y1: nat, y0: nat, q: nat)
    requires x0 < Pow2(q) && y0 < Pow2(q)
    ensures And(Shl(x1, q) + x0, Shl(y1, q) + y0) == Shl(And(x1, y1), q) + And(x0, y0)
    decreases q
  {
    hide *;
    if q > 0 {
      var x, b := HalveLow(x1, x0, q);
      var y, c := HalveLow(y1, y0, q);
      var _, _ := HalveLow(And(x1, y1), 0, q);
      AndBuild(b, Shl(x1, q - 1) + x, c, Shl(y1, q - 1) + y);
      AndBuild(b, x, c, y);
      AndDigits(x1, x, y1, y, q - 1);
    } else {
      AndNothing(x1, y1, x0, y0);
    }
  }

  lemma AndNothing(x1: nat, y1: nat, x0: nat, y0: nat)
    requires x0 < Pow2(0) && y0 < Pow2(0)
    ensures And(Shl(x1, 0) + x0, Shl(y1, 0) + y0) == Shl(And(x1, y1), 0) + And(x0, y0)
  {
  }

  lemma AndBuild(b: nat, x: nat, c: nat, y: nat)
    requires b < 2 && c < 2
    ensures And(b + 2 * x, c + 2 * y) == (if b == 1 && c == 1 then 1 else 0) + 2 * And(x, y)
  {
    AndStep(b + 2 * x, c + 2 * y);
    LowestOf(b, x);
    LowestOf(c, y);
  }

  lemma {:induction false} OrDigits(x1: nat, x0: nat, y1: nat, y0: nat, q: nat)
    requires x0 < Pow2(q) && y0 < Pow2(q)
    ensures Or(Shl(x1, q) + x0, Shl(y1, q) + y0) == Shl(Or(x1, y1), q) + Or(x0, y0)
    decreases q
  {
    hide *;
    if q > 0 {
      var x, b := HalveLow(x1, x0, q);
      var y, c := HalveLow(y1, y0, q);
      var _, _ := HalveLow(Or(x1, y1), 0, q);
      OrBuild(b, Shl(x1, q - 1) + x, c, Shl(y1, q - 1) + y);
      OrBuild(b, x, c, y);
      OrDigits(x1, x, y1, y, q - 1);
    } else {
      OrNothing(x1, y1, x0, y0);
    }
  }

  lemma OrNothing(x1: nat, y1: nat, x0: nat, y0: nat)
    requires x0 < Pow2(0) && y0 < Pow2(0)
    ensures Or(Shl(x1, 0) + x0, Shl(y1, 0) + y0) == Shl(Or(x1, y1), 0) + Or(x0, y0)
  {
  }

  lemma OrBuild(b: nat, x: nat, c: nat, y: nat)
    requires b < 2 && c < 2
    ensures Or(b + 2 * x, c + 2 * y) == (if b == 1 || c == 1 then 1 else 0) + 2 * Or(x, y)
  {
    OrStep(b + 2 * x, c + 2 * y);
    LowestOf(b, x);
    LowestOf(c, y);
  }

  /** Masking with n ones keeps the n lowest bits. */
  lemma {:induction false} AndOnes(x: nat, n: nat)
    ensures And(x, Pow2(n) - 1) == Low(x, n)
    decreases n
  {
    if n > 0 {
      AndStep(x, Pow2(n) - 1);
      AndOnes(x / 2, n - 1);
    }
  }

  /** Masking with n ones placed at bit q. */
  lemma AndMask(x: nat, n: nat, q: nat)
    ensures And(x, Shl(Pow2(n) - 1, q)) == Shl(Low(Shr(x, q), n), q)
  {
    Digits(x, q);
    AndDigits(Shr(x, q), Low(x, q), Pow2(n) - 1, 0, q);
    AndOnes(Shr(x, q), n);
    AndZero(Low(x, q));
  }

  /** The bit test `x & (1 << b)`. */
  lemma AndBit(x: nat, b: nat)
    ensures And(x, Shl(1, b)) == Shl(Shr(x, b) % 2, b)
    ensures And(x, Shl(1, b)) == 0 <==> Shr(x, b) % 2 == 0
  {
    AndMask(x, 1, b);
    assert Low(Shr(x, b), 1) == Shr(x, b) % 2 + 2 * Low(Shr(x, b) / 2, 0);
    ShlMonotone(0, 0, b);
    ShlMonotone(1, 1, b);
    ShlZeroOne(b);
  }

  lemma {:induction false} ShlZeroOne(b: nat)
    ensures Shl(0, b) == 0 && Shl(1, b) == Pow2(b)
  {
    if b > 0 {
      ShlZeroOne(b - 1);
    }
  }

  /** Or of a multiple of 2^q and something below 2^q is their sum. */
  lemma OrDisjoint(hi: nat, lo: nat, q: nat)
    requires lo < Pow2(q)
    ensures Or(Shl(hi, q), lo) == Shl(hi, q) + lo
    ensures Or(lo, Shl(hi, q)) == Shl(hi, q) + lo
  {
    ShlZeroOne(q);
    AndZero(hi);
    AndZero(lo);
    OrDigits(hi, 0, 0, lo, q);
    OrDigits(0, lo, hi, 0, q);
  }

  lemma {:induction false} OrOnes(x: nat, n: nat)
    requires x < Pow2(n)
    ensures Or(x, Pow2(n) - 1) == Pow2(n) - 1
    decreases n
  {
    if n > 0 {
      OrStep(x, Pow2(n) - 1);
      OrOnes(x / 2, n - 1);
    }
  }

  /** Filling everything from bit q upwards with ones. */
  lemma OrHighOnes(x: nat, n: nat, q: nat)
    requires x < Pow2(n + q)
    ensures Or(x, Shl(Pow2(n) - 1, q)) == Shl(Pow2(n) - 1, q) + Low(x, q)
  {
    Digits(x, q);
    AndZero(Low(x, q));
    OrDigits(Shr(x, q), Low(x, q), Pow2(n) - 1, 0, q);
    assert Shl(Shr(x, q), q) < Pow2(n + q);
    ShlLess(Shr(x, q), n, q);
    OrOnes(Shr(x, q), n);
  }

  lemma {:induction false} AndBound(x: nat, y: nat)
    ensures And(x, y) <= x && And(x, y) <= y
    decreases x
  {
    if x != 0 && y != 0 {
      AndBound(x / 2, y / 2);
    }
  }

  lemma {:induction false} OrXorBound(x: nat, y: nat, n: nat)
    requires x < Pow2(n) && y < Pow2(n)
    ensures Or(x, y) < Pow2(n) && Xor(x, y) < Pow2(n)
    decreases n
  {
    if x != 0 && y != 0 && n > 0 {
      OrXorBound(x / 2, y / 2, n - 1);
    }
  }

  // ----- two's complement -----

  /** Go's int64(x). */
  function Signed(x: u64): (z: int)
    ensures -TWO63 <= z < TWO63
    ensures z % TWO64 == x
  {
    if x < TWO63 then x else x - TWO64
  }

  /** Go's uint64(z): reduction modulo 2^64. */
  function Wrap(z: int): u64 {
    z % TWO64
  }

  /** Go's `/` on signed integers: truncation toward zero. */
  function TruncDiv(a: int, b: int): int
    requires b != 0
  {
    if a >= 0 then (if b > 0 then a / b else -(a / -b))
    else (if b > 0 then -(-a / b) else -a / -b)
  }

  /** Go's `%` on signed integers: the remainder has the sign of the dividend. */
  function TruncMod(a: int, b: int): int
    requires b != 0
  {
    a - TruncDiv(a, b) * b
  }
}
