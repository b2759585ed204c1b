/** What the M extension computes, as the RISC-V Unprivileged ISA (20191213) asks in its
    sections 7.1 and 7.2: products and quotients of the exact integers. */
module MExtension {
  import opened Words
  import opened Yul64
  import opened Cpu
  import Evm
  import Fast = FastYul64

  // ----- section 7.1: products -----

  /** Multiplying residues modulo 2^256 multiplies the numbers. */
  lemma ResidueProduct(a: int, b: int, x: u256, y: u256)
    requires x == Evm.Wrap256(a) && y == Evm.Wrap256(b)
    ensures Evm.Mul(x, y) == Evm.Wrap256(a * b)
  {
    var k, l := a / TWO256, b / TWO256;
    var m := TWO256;
    assert x == a - k * m && y == b - l * m;
    hide *;
    Expand(a, b, k, l, m);
    ModAddMul(a * b, k * l * m - a * l - b * k, m);
  }

  lemma Expand(a: int, b: int, k: int, l: int, m: int)
    ensures (a - k * m) * (b - l * m) == a * b + (k * l * m - a * l - b * k) * m
  {
  }

  /** The upper half of a product, from its residue modulo 2^256. */
  lemma UpperHalf(p: int)
    ensures Evm.Shr(64, Evm.Wrap256(p)) % TWO64 == p / TWO64 % TWO64
  {
    hide Pow2, Shr, Low;
    var w := p % TWO256;
    PowValues();
    ShrIsDiv(w, 64);
    var q := p / TWO256;
    assert p == w + (q * TWO192) * TWO64;
    ModAddMul(w, q * TWO192, TWO64);
    ModAddMul(w / TWO64, q * 0x1_0000_0000_0000_0000_0000_0000_0000_0000, TWO64);
  }

  lemma Products(x: u64, y: u64)
    ensures MulDiv(Native, 0, x, y) == Some(Wrap(Signed(x) * Signed(y)))
    ensures MulDiv(Native, 1, x, y) == Some(Wrap(Signed(x) * Signed(y) / TWO64)) // MULH
    ensures MulDiv(Native, 2, x, y) == Some(Wrap(Signed(x) * y / TWO64)) // MULHSU
    ensures MulDiv(Native, 3, x, y) == Some(Wrap(x * y / TWO64)) // MULHU
  {
    hide Fast.SignExtend64To256, Evm.Shr, Evm.Mul;
    Fast.WideMeans(x);
    Fast.WideMeans(y);
    ResidueProduct(Signed(x), Signed(y), Fast.SignExtend64To256(x), Fast.SignExtend64To256(y));
    ResidueProduct(Signed(x), y, Fast.SignExtend64To256(x), y);
    ResidueProduct(x, y, x, y);
    UpperHalf(Signed(x) * Signed(y));
    UpperHalf(Signed(x) * y);
    UpperHalf(x * y);
    LowHalf(x, y);
  }

  lemma LowHalf(x: u64, y: u64)
    ensures Wrap(Signed(x) * Signed(y)) == Wrap(x * y)
  {
    var k, l, m := if x < TWO63 then 0 else 1, if y < TWO63 then 0 else 1, TWO64;
    assert Signed(x) == x - k * m && Signed(y) == y - l * m;
    hide *;
    Expand(x, y, k, l, m);
    ModAddMul(x * y, k * l * m - x * l - y * k, m);
  }

  // ----- section 7.2: quotients and remainders -----

  /** q and r are quotient and remainder of a by b, rounding toward zero. */
  predicate TruncatedDivision(a: int, b: int, q: int, r: int) {
    && a == q * b + r
    && (if b >= 0 then -b < r < b else b < r < -b)
    && (a >= 0 ==> r >= 0) && (a <= 0 ==> r <= 0)
  }

  function Magnitude(a: int): nat {
    if a < 0 then -a else a
  }

  lemma NegMul(k: int, c: int)
    ensures (-k) * c == -(k * c) && k * -c == -(k * c) && (-k) * -c == k * c
  {
  }

  /** Truncated quotients are quotients of the magnitudes, up to sign. */
  lemma TruncParts(a: int, b: int)
    requires b != 0
    ensures var k, r := Magnitude(a) / Magnitude(b), Magnitude(a) % Magnitude(b);
      && TruncDiv(a, b) == (if (a >= 0) == (b > 0) then k else -k)
      && TruncMod(a, b) == (if a >= 0 then r else -r)
  {
    var k, c := Magnitude(a) / Magnitude(b), Magnitude(b);
    DivMod(Magnitude(a), c);
    NegMul(k, c);
  }

  lemma TruncProperty(a: int, b: int)
    requires b != 0
    ensures TruncatedDivision(a, b, TruncDiv(a, b), TruncMod(a, b))
  {
    hide TruncDiv;
    TruncParts(a, b);
    DivMod(Magnitude(a), Magnitude(b));
  }

  lemma QuotientHalves(a: nat, b: nat)
    requires b > 0
    ensures a / b <= a && (b > 1 ==> 2 * (a / b) <= a)
  {
    DivMod(a, b);
    if b > 1 {
      assert (a / b) * b >= (a / b) * 2 by { MulMonotone(a / b, 2, b); }
    } else {
      assert (a / b) * b == a / b;
    }
  }

  lemma MulMonotone(k: nat, x: int, y: int)
    requires x <= y
    ensures k * x <= k * y
  {
  }

  /** Apart from -n / -1 quotients and remainders stay in a two's complement range. */
  lemma TruncBounds(a: int, b: int, n: int)
    requires b != 0 && n > 0 && -n <= a < n && -n <= b < n && !(a == -n && b == -1)
    ensures -n <= TruncDiv(a, b) < n && -n <= TruncMod(a, b) < n
  {
    hide *;
    var k, r := PartsOf(a, b);
    PartsInRange(a, b, n, k, r);
  }

  /** The magnitudes of quotient and remainder. */
  lemma PartsOf(a: int, b: int) returns (k: int, r: int)
    requires b != 0
    ensures TruncDiv(a, b) == (if (a >= 0) == (b > 0) then k else -k)
    ensures TruncMod(a, b) == (if a >= 0 then r else -r)
    ensures 0 <= k <= Magnitude(a) && 0 <= r < Magnitude(b)
    ensures Magnitude(b) > 1 ==> 2 * k <= Magnitude(a)
    ensures Magnitude(b) == 1 ==> k == Magnitude(a)
  {
    hide TruncDiv, TruncMod;
    TruncParts(a, b);
    QuotientHalves(Magnitude(a), Magnitude(b));
    if Magnitude(b) == 1 {
      ByOne(Magnitude(a));
    }
    k, r := Magnitude(a) / Magnitude(b), Magnitude(a) % Magnitude(b);
  }

  lemma ByOne(a: int)
    ensures a / 1 == a
  {
  }

  lemma PartsInRange(a: int, b: int, n: int, k: int, r: int)
    requires b != 0 && n > 0 && -n <= a < n && -n <= b < n && !(a == -n && b == -1)
    requires 0 <= k <= Magnitude(a) && 0 <= r < Magnitude(b)
    requires Magnitude(b) > 1 ==> 2 * k <= Magnitude(a)
    requires Magnitude(b) == 1 ==> k == Magnitude(a)
    ensures -n <= (if (a >= 0) == (b > 0) then k else -k) < n && -n <= (if a >= 0 then r else -r) < n
  {
  }

  /** DIV and REM. Dividing by zero gives -1 and the dividend; the one overflow gives the
      dividend and 0; everything else is division of the signed numbers. */
  lemma SignedDivision(x: u64, y: u64)
    ensures MulDiv(Native, 4, x, y).Some? && MulDiv(Native, 6, x, y).Some?
    ensures var q, r := Signed(MulDiv(Native, 4, x, y).value), Signed(MulDiv(Native, 6, x, y).value);
      && (y == 0 ==> q == -1 && r == Signed(x))
      && (Signed(x) == -TWO63 && Signed(y) == -1 ==> q == -TWO63 && r == 0)
      && (y != 0 && !(Signed(x) == -TWO63 && Signed(y) == -1) ==> TruncatedDivision(Signed(x), Signed(y), q, r))
  {
    if y != 0 {
      var a, b := Signed(x), Signed(y);
      TruncProperty(a, b);
      if a == -TWO63 && b == -1 {
        assert TruncDiv(a, b) == TWO63 && TruncMod(a, b) == 0;
      } else {
        TruncBounds(a, b, TWO63);
        hide TruncDiv, TruncMod, TruncatedDivision;
        Fast.SignedWrap(TruncDiv(a, b));
        Fast.SignedWrap(TruncMod(a, b));
      }
    }
  }

  /** DIVU and REMU. */
  lemma UnsignedDivision(x: u64, y: u64)
    ensures MulDiv(Native, 5, x, y).Some? && MulDiv(Native, 7, x, y).Some?
    ensures var q, r := MulDiv(Native, 5, x, y).value, MulDiv(Native, 7, x, y).value;
      if y == 0 then q == TWO64 - 1 && r == x else x == q * y + r && r < y
  {
  }

  // ----- the forms on 32 bits -----

  /** The signed number in the low 32 bits of a number. */
  function Word(x: int): (z: int)
    ensures -0x8000_0000 <= z < 0x8000_0000
  {
    var l := x % TWO32;
    if l < 0x8000_0000 then l else l - TWO32
  }

  lemma WordMeans(x: u64)
    ensures Signed(Fast.Mask32Signed64(x)) == Word(x)
    ensures Fast.And64(x, Fast.U32_MASK) == x % TWO32
    ensures Word(x % TWO32) == Word(x)
  {
    hide Fast.Mask32Signed64, Fast.And64;
    Fast.Mask32Means(x);
    HalfWord();
  }

  lemma HalfWord()
    ensures Pow2(31) == 0x8000_0000 && Pow2(32) == TWO32
  {
    PowValues();
  }

  lemma WordWraps(z: int)
    ensures Word(Wrap(z)) == Word(z)
  {
    ModMod(z, TWO32, TWO32);
  }

  /** The low 32 bits of a small signed result. */
  lemma WordOf(z: int)
    requires -0x8000_0000 <= z < 0x8000_0000
    ensures Word(Wrap(z)) == z
  {
    if z < 0 {
      ModAddMul(z + TWO32, 0xFFFF_FFFF, TWO32);
      assert Wrap(z) == z + TWO64;
    }
  }

  lemma MulWord(x: u64, y: u64)
    ensures AluReg32(Native, 0, 1, x, y).Some?
    ensures -0x8000_0000 <= Signed(AluReg32(Native, 0, 1, x, y).value) < 0x8000_0000
    ensures Signed(AluReg32(Native, 0, 1, x, y).value) % TWO32 == (x % TWO32) * (y % TWO32) % TWO32
  {
    hide Fast.Mask32Signed64, Fast.And64;
    WordMeans(x);
    WordMeans(y);
    WordMeans(y % TWO32);
    WordProduct(x % TWO32, y % TWO32);
    hide Fast.Mul64;
  }

  lemma WordProduct(a: u64, b: u64)
    ensures -0x8000_0000 <= Signed(Fast.Mask32Signed64(Fast.Mul64(a, b))) < 0x8000_0000
    ensures Signed(Fast.Mask32Signed64(Fast.Mul64(a, b))) % TWO32 == a * b % TWO32
  {
    hide Fast.Mask32Signed64, Fast.And64;
    WordMeans(Fast.Mul64(a, b));
    WordResidue(Fast.Mul64(a, b));
    ModMod(a * b, TWO32, TWO32);
  }

  lemma WordResidue(x: u64)
    ensures Word(x) % TWO32 == x % TWO32
  {
  }

  /** DIVW and REMW, on the signed numbers in the low halves of the registers. */
  lemma SignedWordDivision(x: u64, y: u64)
    ensures AluReg32(Native, 4, 1, x, y).Some? && AluReg32(Native, 6, 1, x, y).Some?
    ensures var q, r := Signed(AluReg32(Native, 4, 1, x, y).value), Signed(AluReg32(Native, 6, 1, x, y).value);
      var a, b := Word(x), Word(y);
      && (b == 0 ==> q == -1 && r == a)
      && (a == -0x8000_0000 && b == -1 ==> q == a && r == 0)
      && (b != 0 && !(a == -0x8000_0000 && b == -1) ==> TruncatedDivision(a, b, q, r))
  {
    hide Fast.Mask32Signed64, Fast.And64, TruncatedDivision;
    WordMeans(x);
    WordMeans(y);
    WordMeans(y % TWO32);
    var a, b := Word(x), Word(y);
    if b != 0 {
      var s, t := Fast.Mask32Signed64(x), Fast.Mask32Signed64(y % TWO32);
      TruncProperty(a, b);
      WordMeans(Fast.SDiv64(s, t));
      WordMeans(Fast.SMod64(s, t));
      if a == -0x8000_0000 && b == -1 {
        assert TruncDiv(a, b) == 0x8000_0000 && TruncMod(a, b) == 0;
      } else {
        TruncBounds(a, b, 0x8000_0000);
        hide TruncDiv, TruncMod;
        WordOf(TruncDiv(a, b));
        WordOf(TruncMod(a, b));
      }
    }
  }

  /** DIVUW and REMUW, on the unsigned numbers in the low halves; the results are sign-extended. */
  lemma UnsignedWordDivision(x: u64, y: u64)
    ensures AluReg32(Native, 5, 1, x, y).Some? && AluReg32(Native, 7, 1, x, y).Some?
    ensures var q, r := AluReg32(Native, 5, 1, x, y).value, AluReg32(Native, 7, 1, x, y).value;
      var a, b := x % TWO32, y % TWO32;
      && Signed(q) == Word(q) && Signed(r) == Word(r)
      && (if b == 0 then q % TWO32 == TWO32 - 1 && r % TWO32 == a
          else a == (q % TWO32) * b + r % TWO32 && r % TWO32 < b)
  {
    hide Fast.Mask32Signed64, Fast.And64;
    WordMeans(x);
    WordMeans(y);
    WordMeans(y % TWO32);
    var a, b := x % TWO32, y % TWO32;
    if b == 0 {
      MaskedResult(x);
    } else {
      MaskedResult(Fast.Div64(a, b));
      MaskedResult(Fast.Mod64(a, b));
      DivMod(a, b);
      QuotientHalves(a, b);
      SmallResidue(a / b, TWO32);
      SmallResidue(a % b, TWO32);
    }
  }

  lemma MaskedResult(v: u64)
    ensures var m := Fast.Mask32Signed64(v); Signed(m) == Word(m) && m % TWO32 == v % TWO32
  {
    hide Fast.Mask32Signed64, Fast.And64;
    WordMeans(v);
    var m := Fast.Mask32Signed64(v);
    var z := Word(v);
    assert Signed(m) == z && m == Wrap(z);
    WordOf(z);
    if z < 0 {
      ModAddMul(z + TWO32, 0xFFFF_FFFF, TWO32);
    }
  }
}
