/** 64-bit arithmetic as the Go VM does it (rvgo/fast/yul64.go): native uint64 operators. */
module FastYul64 {
  import opened Words
  import Evm

  const U64_MASK: int := 0xFFFF_FFFF_FFFF_FFFF
  const U32_MASK: int := 0xFFFF_FFFF

  function Add64(x: u64, y: u64): u64 {
    Wrap(x + y)
  }

  function Sub64(x: u64, y: u64): u64 {
    Wrap(x - y)
  }

  function Mul64(x: u64, y: u64): u64 {
    Wrap(x * y)
  }

  function Div64(x: u64, y: u64): u64 {
    if y == 0 then 0 else Evm.QuotientBound(x, y); x / y
  }

  function SDiv64(x: u64, y: u64): u64 {
    if y == 0 then 0
    else if x == TWO63 && y == U64_MASK then TWO63
    else Wrap(TruncDiv(Signed(x), Signed(y)))
  }

  function Mod64(x: u64, y: u64): u64 {
    if y == 0 then 0 else x % y
  }

  function SMod64(x: u64, y: u64): u64 {
    if y == 0 then 0 else Wrap(TruncMod(Signed(x), Signed(y)))
  }

  function Not64(x: u64): u64 {
    U64_MASK - x
  }

  function Lt64(x: u64, y: u64): u64 {
    if x < y then 1 else 0
  }

  function Gt64(x: u64, y: u64): u64 {
    if x > y then 1 else 0
  }

  function Slt64(x: u64, y: u64): u64 {
    if Signed(x) < Signed(y) then 1 else 0
  }

  function Sgt64(x: u64, y: u64): u64 {
    if Signed(x) > Signed(y) then 1 else 0
  }

  function Eq64(x: u64, y: u64): u64 {
    if x == y then 1 else 0
  }

  function And64(x: u64, y: u64): u64 {
    AndBound(x, y); And(x, y)
  }

  function Or64(x: u64, y: u64): u64 {
    LongBound(x, y); Or(x, y)
  }

  function Xor64(x: u64, y: u64): u64 {
    LongBound(x, y); Xor(x, y)
  }

  /** y << x; Go shifts everything out from 64 on. */
  function Shl64(x: u64, y: u64): u64 {
    if x >= 64 then 0 else Wrap(Shl(y, x))
  }

  /** y >> x */
  function Shr64(x: u64, y: u64): u64 {
    if x >= 64 then 0 else Evm.ShrBound(y, x); Shr(y, x)
  }

  /** y >> x on signed integers */
  function Sar64(x: u64, y: u64): u64 {
    if x >= 64 then (if y < TWO63 then 0 else U64_MASK) else Wrap(Signed(y) / Pow2(x))
  }

  function SignExtend64(v: u64, bit: u64): u64 {
    if And64(v, Shl64(bit, 1)) == 0 then And64(v, Shr64(Sub64(63, bit), U64_MASK)) // positive
    else Or64(v, Shl64(bit, Shr64(bit, U64_MASK))) // negative
  }

  function Mask32Signed64(v: u64): u64 {
    SignExtend64(And64(v, U32_MASK), 31)
  }

  function SignExtend64To256(v: u64): u256 {
    if And64(v, TWO63) == 0 then v else Evm.Or(Evm.Shl(64, Evm.Not(0)), v)
  }

  function U256ToU64(v: u256): u64 {
    v % TWO64
  }

  lemma LongBound(x: u64, y: u64)
    ensures Or(x, y) < TWO64 && Xor(x, y) < TWO64
  {
    PowValues();
    OrXorBound(x, y, 64);
  }

  // ----- what sign extension means -----

  /** The number whose two's complement in bit + 1 bits is the low part of v. */
  function LowSigned(v: u64, bit: nat): int
    requires bit < 64
  {
    var l := v % Pow2(bit + 1);
    if l < Pow2(bit) then l else l - Pow2(bit + 1)
  }

  /** The bit above the digits decides in which half of twice the range v lies. */
  lemma HalfRange(v: nat, p: nat)
    requires p > 0
    ensures v / p % 2 == 0 ==> v % (2 * p) == v % p
    ensures v / p % 2 == 1 ==> v % (2 * p) == v % p + p
  {
    DivDiv(v, p, 2);
  }

  lemma TopBit(v: u64, bit: nat)
    requires bit < 64
    ensures Shl64(bit, 1) == Pow2(bit)
    ensures And64(v, Pow2(bit)) == 0 <==> v % Pow2(bit + 1) < Pow2(bit)
    ensures v % Pow2(bit + 1) < Pow2(bit) ==> v % Pow2(bit + 1) == v % Pow2(bit)
    ensures v % Pow2(bit + 1) >= Pow2(bit) ==> v % Pow2(bit + 1) == v % Pow2(bit) + Pow2(bit)
  {
    PowBelow(bit);
    AndBit(v, bit);
    ShlZeroOne(bit);
    ShrIsDiv(v, bit);
    assert Pow2(bit + 1) == 2 * Pow2(bit);
    HalfRange(v, Pow2(bit));
    hide *;
    DivMod(v, Pow2(bit));
  }

  /** Shifts by less than the width. */
  lemma SmallShift(s: nat, x: u64)
    requires s < 64
    ensures Shl64(s, x) == Wrap(Shl(x, s)) && Shr64(s, x) == Shr(x, s)
  {
  }

  lemma PowBelow(bit: nat)
    requires bit < 64
    ensures Pow2(bit) < TWO64 && Pow2(63) == TWO63 && Pow2(64) == TWO64
    ensures Pow2(64 - bit) * Pow2(bit) == TWO64
    ensures Pow2(bit + 1) == 2 * Pow2(bit) <= TWO64
    ensures Shl64(bit, 1) == Pow2(bit)
  {
    PowValues();
    PowMonotone(bit, 63);
    PowMonotone(bit + 1, 64);
    PowAdd(64 - bit, bit);
    ShlZeroOne(bit);
  }

  lemma MaskShifted(bit: nat)
    requires bit < 64
    ensures Shr64(bit, U64_MASK) == Pow2(64 - bit) - 1
    ensures Shl64(bit, Pow2(64 - bit) - 1) == Shl(Pow2(64 - bit) - 1, bit) == TWO64 - Pow2(bit)
  {
    hide Pow2, Shl, Shr;
    PowBelow(bit);
    var p, q := Pow2(bit), Pow2(64 - bit);
    ShlIsMul(q - 1, bit);
    MulAdd(q, -1, p);
    assert U64_MASK == (q - 1) * p + (p - 1);
    ShrIsDiv(U64_MASK, bit);
    DivUnique(U64_MASK, p, q - 1, p - 1);
  }

  lemma ZeroFill(v: u64, bit: u64)
    requires bit < 64
    ensures And64(v, Shr64(Sub64(63, bit), U64_MASK)) == v % Pow2(bit + 1)
  {
    hide Pow2, Shl, Shr, And, Low;
    var s: nat := 63 - bit;
    assert Sub64(63, bit) == s && 64 - s == bit + 1;
    MaskShifted(s);
    AndOnes(v, bit + 1);
    ShrIsDiv(v, bit + 1);
  }

  lemma OneFill(v: u64, bit: u64)
    requires bit < 64
    ensures Or64(v, Shl64(bit, Shr64(bit, U64_MASK))) == TWO64 - Pow2(bit) + v % Pow2(bit)
  {
    hide Pow2, Shl, Shr, Or, Low;
    PowBelow(bit);
    MaskShifted(bit);
    OrHighOnes(v, 64 - bit, bit);
    ShrIsDiv(v, bit);
  }

  /** signExtend64 turns bit + 1 low bits into the 64-bit form of the same signed number. */
  lemma SignExtendMeans(v: u64, bit: u64)
    requires bit < 64
    ensures SignExtend64(v, bit) == Wrap(LowSigned(v, bit))
  {
    hide Pow2, And64, Or64, Shl64, Shr64;
    TopBit(v, bit);
    PowBelow(bit);
    ZeroFill(v, bit);
    OneFill(v, bit);
    DivMod(v, Pow2(bit));
    DivMod(v, Pow2(bit + 1));
    hide Sub64;
  }

  lemma SignExtendSigned(v: u64, bit: u64)
    requires bit < 64
    ensures Signed(SignExtend64(v, bit)) == LowSigned(v, bit)
  {
    hide Pow2, SignExtend64;
    SignExtendMeans(v, bit);
    PowBelow(bit);
    PowMonotone(bit, 63);
    DivMod(v, Pow2(bit + 1));
    SignedWrap(LowSigned(v, bit));
  }

  lemma SignedWrap(z: int)
    requires -TWO63 <= z < TWO63
    ensures Signed(Wrap(z)) == z
  {
  }

  lemma Mask32Means(v: u64)
    ensures Signed(Mask32Signed64(v)) == LowSigned(v, 31)
    ensures And64(v, U32_MASK) == v % TWO32
  {
    hide Pow2, SignExtend64, Low;
    PowValues();
    AndOnes(v, 32);
    ShrIsDiv(v, 32);
    SmallResidue(v % TWO32, TWO32);
    SignExtendSigned(v % TWO32, 31);
  }

  /** All ones above the low 64 bits. */
  lemma HighOnes()
    ensures Evm.Shl(64, Evm.Not(0)) == TWO256 - TWO64 == Shl(TWO192 - 1, 64)
  {
    hide Pow2, Shl;
    PowValues();
    ShlIsMul(TWO256 - 1, 64);
    ShlIsMul(TWO192 - 1, 64);
    assert (TWO256 - 1) * TWO64 == (TWO256 - TWO64) + (TWO64 - 1) * TWO256;
    ModAddMul(TWO256 - TWO64, TWO64 - 1, TWO256);
  }

  lemma WideMeans(v: u64)
    ensures SignExtend64To256(v) == Evm.Wrap256(Signed(v))
    ensures Evm.Signed256(SignExtend64To256(v)) == Signed(v)
  {
    hide Pow2, And64, Shl, Or, Evm.Shl;
    PowValues();
    PowBelow(63);
    TopBit(v, 63);
    SmallResidue(v, TWO64);
    if And64(v, TWO63) != 0 {
      HighOnes();
      OrDisjoint(TWO192 - 1, v, 64);
    }
  }
}
