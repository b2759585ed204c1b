/** 64-bit arithmetic as the EVM-shaped step does it (rvgo/slow/yul64.go): every operation
    goes through 256-bit words. Each is shown to stay below 2^64 and to give what the
    native operation of FastYul64 gives, for all inputs. */
module SlowYul64 {
  import opened Words
  import Evm
  import Fast = FastYul64

  function U64Mask(): (r: u64)
    ensures r == Fast.U64_MASK
  {
    WideValues();
    MaskValue(64, TWO64, TWO192);
    Evm.Shr(192, Evm.Not(0))
  }

  function U32Mask(): (r: u64)
    ensures r == Fast.U32_MASK
  {
    WideValues();
    MaskValue(32, TWO32, TWO192 * TWO32);
    Evm.Shr(224, Evm.Not(0))
  }

  function U64Mod(): (r: u256)
    ensures r == TWO64
  {
    WideValues();
    OneShifted(64);
    Evm.Shl(64, 1)
  }

  function U64TopBit(): (r: u256)
    ensures r == TWO63
  {
    PowValues();
    OneShifted(63);
    Evm.Shl(63, 1)
  }

  function U256ToU64(v: u256): (r: u64)
    ensures r == Fast.U256ToU64(v)
  {
    LowWord(v);
    Evm.And(v, U64Mask())
  }

  function SignExtend64To256(v: u64): (r: u256)
    ensures r == Fast.SignExtend64To256(v)
  {
    if Evm.And(v, U64TopBit()) == 0 then v else Evm.Or(Evm.Shl(64, Evm.Not(0)), v)
  }

  function Add64(x: u64, y: u64): (out: u64)
    ensures out == Fast.Add64(x, y)
  {
    Evm.Mod(Evm.Add(x, y), U64Mod())
  }

  function Sub64(x: u64, y: u64): (out: u64)
    ensures out == Fast.Sub64(x, y)
  {
    ProductWraps(x - y);
    Evm.Mod(Evm.Sub(x, y), U64Mod())
  }

  function Mul64(x: u64, y: u64): (out: u64)
    ensures out == Fast.Mul64(x, y)
  {
    ProductWraps(x * y);
    U256ToU64(Evm.Mul(x, y))
  }

  function Div64(x: u64, y: u64): (out: u64)
    ensures out == Fast.Div64(x, y)
  {
    DivSame(x, y);
    U256ToU64(Evm.Div(x, y))
  }

  lemma DivSame(x: u64, y: u64)
    ensures Evm.Div(x, y) == Fast.Div64(x, y)
  {
    if y > 0 {
      Evm.QuotientBound(x, y);
    }
  }

  function SDiv64(x: u64, y: u64): (out: u64)
    ensures out == Fast.SDiv64(x, y)
  {
    SDivSame(x, y);
    U256ToU64(Evm.SDiv(SignExtend64To256(x), SignExtend64To256(y)))
  }

  function Mod64(x: u64, y: u64): (out: u64)
    ensures out == Fast.Mod64(x, y)
  {
    Evm.Mod(x, y)
  }

  function SMod64(x: u64, y: u64): (out: u64)
    ensures out == Fast.SMod64(x, y)
  {
    SModSame(x, y);
    U256ToU64(Evm.SMod(SignExtend64To256(x), SignExtend64To256(y)))
  }

  function Not64(x: u64): (out: u64)
    ensures out == Fast.Not64(x)
  {
    NotSame(x);
    U256ToU64(Evm.Not(x))
  }

  function Lt64(x: u64, y: u64): (out: u64)
    ensures out == Fast.Lt64(x, y)
  {
    Evm.Flag(x < y)
  }

  function Gt64(x: u64, y: u64): (out: u64)
    ensures out == Fast.Gt64(x, y)
  {
    Evm.Flag(x > y)
  }

  function Slt64(x: u64, y: u64): (out: u64)
    ensures out == Fast.Slt64(x, y)
  {
    Fast.WideMeans(x);
    Fast.WideMeans(y);
    Evm.Flag(Evm.Signed256(SignExtend64To256(x)) < Evm.Signed256(SignExtend64To256(y)))
  }

  function Sgt64(x: u64, y: u64): (out: u64)
    ensures out == Fast.Sgt64(x, y)
  {
    Fast.WideMeans(x);
    Fast.WideMeans(y);
    Evm.Flag(Evm.Signed256(SignExtend64To256(x)) > Evm.Signed256(SignExtend64To256(y)))
  }

  function Eq64(x: u64, y: u64): (out: u64)
    ensures out == Fast.Eq64(x, y)
  {
    Evm.Flag(x == y)
  }

  function And64(x: u64, y: u64): (out: u64)
    ensures out == Fast.And64(x, y)
  {
    AndBound(x, y);
    Evm.And(x, y)
  }

  function Or64(x: u64, y: u64): (out: u64)
    ensures out == Fast.Or64(x, y)
  {
    Fast.LongBound(x, y);
    Evm.Or(x, y)
  }

  function Xor64(x: u64, y: u64): (out: u64)
    ensures out == Fast.Xor64(x, y)
  {
    Fast.LongBound(x, y);
    Evm.Xor(x, y)
  }

  /** y << x */
  function Shl64(x: u64, y: u64): (out: u64)
    ensures out == Fast.Shl64(x, y)
  {
    ShlSame(x, y);
    U256ToU64(Evm.Shl(x, y))
  }

  /** y >> x */
  function Shr64(x: u64, y: u64): (out: u64)
    ensures out == Fast.Shr64(x, y)
  {
    ShrSame(x, y);
    Evm.Shr(x, y)
  }

  /** y >> x (signed) */
  function Sar64(x: u64, y: u64): (out: u64)
    ensures out == Fast.Sar64(x, y)
  {
    SarSame(x, y);
    U256ToU64(Evm.Sar(x, SignExtend64To256(y)))
  }

  /** Not built from the operations above: the shifts here are those of 256-bit words. */
  function SignExtend64(v: u64, bit: u64): (out: u64)
    ensures out == Fast.SignExtend64(v, bit)
  {
    SignExtendSame(v, bit);
    if Evm.And(v, Evm.Shl(bit, 1)) == 0 then
      Evm.And(v, Evm.Shr(Evm.Sub(63, bit), U64Mask())) // positive
    else
      Evm.Or(v, Evm.Shl(bit, Evm.Shr(bit, U64Mask()))) // negative
  }

  function Mask32Signed64(v: u64): (out: u64)
    ensures out == Fast.Mask32Signed64(v)
  {
    SignExtend64(And64(v, U32Mask()), 31)
  }

  // ----- why the detour through 256 bits changes nothing -----

  lemma MaskValue(n: nat, p: nat, q: nat)
    requires 0 < n <= 64 && p == Pow2(n) && q == Pow2(256 - n) && TWO256 == p * q
    ensures Evm.Shr(256 - n, Evm.Not(0)) == p - 1
  {
    hide Pow2, Shr, Low;
    ShrIsDiv(TWO256 - 1, 256 - n);
    MulAdd(p, -1, q);
    DivUnique(TWO256 - 1, q, p - 1, q - 1);
  }

  lemma WideValues()
    ensures Pow2(32) == TWO32 && Pow2(64) == TWO64 && Pow2(192) == TWO192 && Pow2(224) == TWO192 * TWO32
    ensures TWO256 == TWO64 * TWO192 && TWO256 == TWO32 * (TWO192 * TWO32)
  {
    hide Pow2;
    PowValues();
    PowAdd(192, 32);
  }

  lemma OneShifted(n: nat)
    requires n < 256
    ensures Evm.Shl(n, 1) == Pow2(n) < TWO256
  {
    hide Pow2, Shl;
    ShlZeroOne(n);
    PowValues();
    PowMonotone(n, 255);
    PowAdd(255, 1);
    assert Pow2(1) == 2 by { PowAdd(1, 0); PowOne(); }
  }

  lemma PowOne()
    ensures Pow2(1) == 2
  {
  }

  lemma LowWord(v: u256)
    ensures Words.And(v, Fast.U64_MASK) == v % TWO64
  {
    hide Pow2, And, Low, Shr;
    PowValues();
    AndOnes(v, 64);
    ShrIsDiv(v, 64);
  }

  /** Reducing modulo 2^256 first does not disturb the low 64 bits. */
  lemma ProductWraps(p: int)
    ensures p % TWO256 % TWO64 == p % TWO64
  {
    ModMod(p, TWO64, TWO192);
  }

  lemma SDivSame(x: u64, y: u64)
    ensures Fast.U256ToU64(Evm.SDiv(Fast.SignExtend64To256(x), Fast.SignExtend64To256(y))) == Fast.SDiv64(x, y)
  {
    hide Fast.SignExtend64To256, Evm.Signed256;
    Fast.WideMeans(x);
    Fast.WideMeans(y);
    if y != 0 {
      if x == TWO63 && y == Fast.U64_MASK {
        assert TruncDiv(-TWO63, -1) == TWO63;
      }
      hide TruncDiv;
      ProductWraps(TruncDiv(Signed(x), Signed(y)));
    }
  }

  lemma SModSame(x: u64, y: u64)
    ensures Fast.U256ToU64(Evm.SMod(Fast.SignExtend64To256(x), Fast.SignExtend64To256(y))) == Fast.SMod64(x, y)
  {
    hide Fast.SignExtend64To256, Evm.Signed256, TruncMod, TruncDiv;
    Fast.WideMeans(x);
    Fast.WideMeans(y);
    if y != 0 {
      ProductWraps(TruncMod(Signed(x), Signed(y)));
    }
  }

  lemma NotSame(x: u64)
    ensures Fast.U256ToU64(Evm.Not(x)) == Fast.Not64(x)
  {
    ModAddMul(TWO64 - 1 - x, TWO192 - 1, TWO64);
    assert TWO64 - 1 - x + (TWO192 - 1) * TWO64 == TWO256 - 1 - x;
  }

  lemma ShlSame(x: u64, y: u64)
    ensures Fast.U256ToU64(Evm.Shl(x, y)) == Fast.Shl64(x, y)
  {
    hide Shl, Pow2;
    ProductWraps(Shl(y, x));
    if 64 <= x < 256 {
      var z := Shl(y, x - 64);
      ShlShl(y, x - 64, 64);
      ShlIsMul(z, 64);
      PowValues();
      ModAddMul(0, z, TWO64);
    }
  }

  lemma ShrSame(x: u64, y: u64)
    ensures Evm.Shr(x, y) == Fast.Shr64(x, y)
  {
    hide Shr, Pow2;
    if x >= 64 {
      PowValues();
      PowMonotone(64, x);
      LowSmall(y, x);
    }
  }

  /** Far shifts leave nothing but the sign. */
  lemma FarShift(s: int, x: nat)
    requires -TWO63 <= s < TWO63 && x >= 64
    ensures s / Pow2(x) == if s < 0 then -1 else 0
  {
    hide Pow2;
    PowValues();
    PowMonotone(64, x);
    DivUnique(s, Pow2(x), if s < 0 then -1 else 0, if s < 0 then s + Pow2(x) else s);
  }

  lemma SarSame(x: u64, y: u64)
    ensures Fast.U256ToU64(Evm.Sar(x, Fast.SignExtend64To256(y))) == Fast.Sar64(x, y)
  {
    hide Pow2, Fast.SignExtend64To256;
    Fast.WideMeans(y);
    var s := Signed(y);
    if x < 64 {
      hide Signed;
      ProductWraps(s / Pow2(x));
    } else {
      FarShift(s, x);
      if x < 256 {
        ProductWraps(if s < 0 then -1 else 0);
      }
    }
  }

  lemma SignExtendSame(v: u64, bit: u64)
    ensures Evm.And(v, Evm.Shl(bit, 1)) == 0 <==> Fast.And64(v, Fast.Shl64(bit, 1)) == 0
    ensures Evm.And(v, Evm.Shl(bit, 1)) == 0 ==>
      Evm.And(v, Evm.Shr(Evm.Sub(63, bit), Fast.U64_MASK)) == Fast.And64(v, Fast.Shr64(Fast.Sub64(63, bit), Fast.U64_MASK))
    ensures Evm.And(v, Evm.Shl(bit, 1)) != 0 ==>
      Evm.Or(v, Evm.Shl(bit, Evm.Shr(bit, Fast.U64_MASK))) == Fast.Or64(v, Fast.Shl64(bit, Fast.Shr64(bit, Fast.U64_MASK)))
  {
    if bit < 64 {
      SmallBit(bit);
    } else {
      NoBitAbove(v, bit);
    }
    hide Evm.Shl, Evm.Shr, Evm.Sub, Fast.Shl64, Fast.Shr64, Fast.Sub64, Words.And, Words.Or;
  }

  /** Below bit 64 the shifts are the same. */
  lemma SmallBit(bit: u64)
    requires bit < 64
    ensures Evm.Shl(bit, 1) == Fast.Shl64(bit, 1)
    ensures Evm.Sub(63, bit) == Fast.Sub64(63, bit)
    ensures Evm.Shr(Evm.Sub(63, bit), Fast.U64_MASK) == Fast.Shr64(Fast.Sub64(63, bit), Fast.U64_MASK)
    ensures Evm.Shl(bit, Evm.Shr(bit, Fast.U64_MASK)) == Fast.Shl64(bit, Fast.Shr64(bit, Fast.U64_MASK))
  {
    hide Pow2, Shl, Shr, Evm.Shl, Evm.Shr, Evm.Sub, Evm.Wrap256, Fast.Shl64, Fast.Shr64, Fast.Sub64, Wrap;
    SmallSub(bit);
    OneShifted(bit);
    Fast.PowBelow(bit);
    Fast.MaskShifted(bit);
    Fast.MaskShifted(63 - bit);
    Evm.SmallShift(63 - bit, Fast.U64_MASK);
    Fast.SmallShift(63 - bit, Fast.U64_MASK);
    Evm.SmallShift(bit, Fast.U64_MASK);
    Fast.SmallShift(bit, Fast.U64_MASK);
    Evm.SmallShift(bit, Pow2(64 - bit) - 1);
    WrapsSmall(TWO64 - Pow2(bit));
  }

  lemma WrapsSmall(x: nat)
    requires x < TWO64
    ensures Evm.Wrap256(x) == x == Wrap(x)
  {
  }

  lemma SmallSub(bit: u64)
    requires bit < 64
    ensures Evm.Sub(63, bit) == 63 - bit == Fast.Sub64(63, bit)
  {
  }

  /** From bit 64 on the tested bit is zero and the mask is empty, in both worlds. */
  lemma NoBitAbove(v: u64, bit: u64)
    requires bit >= 64
    ensures Evm.And(v, Evm.Shl(bit, 1)) == 0 && Fast.And64(v, Fast.Shl64(bit, 1)) == 0
    ensures Evm.And(v, Evm.Shr(Evm.Sub(63, bit), Fast.U64_MASK)) == 0
    ensures Fast.And64(v, Fast.Shr64(Fast.Sub64(63, bit), Fast.U64_MASK)) == 0
  {
    hide Pow2, Shl, Shr, Words.And, Words.Or;
    AndZero(v);
    if bit < 256 {
      OneShifted(bit);
      AndBit(v, bit);
      ShlZeroOne(bit);
      PowValues();
      PowMonotone(64, bit);
      LowSmall(v, bit);
    }
    NegativeShift(bit);
  }

  lemma NegativeShift(bit: u64)
    requires bit >= 64
    ensures Evm.Shr(Evm.Sub(63, bit), Fast.U64_MASK) == 0
    ensures Fast.Shr64(Fast.Sub64(63, bit), Fast.U64_MASK) == 0
  {
    hide Pow2, Shr;
    assert Fast.Sub64(63, bit) == TWO64 + 63 - bit;
    var w := Evm.Sub(63, bit);
    assert w == TWO256 + 63 - bit;
    ModAddMul(TWO64 + 63 - bit, TWO192 - 1, TWO64);
    var n := w % TWO64;
    assert n == TWO64 + 63 - bit >= 64;
    PowValues();
    PowMonotone(64, n);
    LowSmall(Fast.U64_MASK, n);
  }
}
