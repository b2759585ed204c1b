/** What the base integer instructions, the branches and the atomic operations compute, in terms
    of exact integers (RISC-V Unprivileged ISA 20191213, chapters 2, 5 and 8). Register values
    are numbers below 2^64; Signed and Word read them as signed numbers of 64 and of 32 bits. */
module BaseIsa {
  import opened Words
  import opened Yul64
  import opened Cpu
  import opened MExtension
  import Evm
  import Fast = FastYul64

  lemma LowBits(x: u64)
    ensures Fast.And64(x, 0x3F) == x % 64 && Fast.And64(x, 0x1F) == x % 32
  {
    AndOnes(x, 6);
    ShrIsDiv(x, 6);
    AndOnes(x, 5);
    ShrIsDiv(x, 5);
    assert Pow2(6) == 64 && Pow2(5) == 32;
  }

  lemma ShiftsAre(s: u64, x: u64)
    requires s < 64
    ensures Fast.Shl64(s, x) == Wrap(x * Pow2(s)) && Fast.Shr64(s, x) == x / Pow2(s)
    ensures Fast.Sar64(s, x) == Wrap(Signed(x) / Pow2(s))
  {
    hide Pow2, Shl, Shr, Low;
    ShlIsMul(x, s);
    ShrIsDiv(x, s);
  }

  lemma SumWraps(x: u64, y: u64)
    ensures Fast.Add64(x, y) == Wrap(Signed(x) + Signed(y)) && Fast.Sub64(x, y) == Wrap(Signed(x) - Signed(y))
  {
    var k, l := if x < TWO63 then 0 else 1, if y < TWO63 then 0 else 1;
    ModAddMul(Signed(x) + Signed(y), k + l, TWO64);
    ModAddMul(Signed(x) - Signed(y), k - l, TWO64);
  }

  /** Arithmetic and logic on 64 bits: only the low 6 bits of a shift amount count, a right shift
      of a signed number rounds down, and comparisons give 1 or 0. */
  lemma RegisterOperations(x: u64, y: u64)
    ensures AluReg(Native, 0, 0x00, x, y) == Some(Wrap(Signed(x) + Signed(y))) // ADD
    ensures AluReg(Native, 0, 0x20, x, y) == Some(Wrap(Signed(x) - Signed(y))) // SUB
    ensures AluReg(Native, 1, 0x00, x, y) == Some(Wrap(x * Pow2(y % 64))) // SLL
    ensures AluReg(Native, 2, 0x00, x, y) == Some(if Signed(x) < Signed(y) then 1 else 0) // SLT
    ensures AluReg(Native, 3, 0x00, x, y) == Some(if x < y then 1 else 0) // SLTU
    ensures AluReg(Native, 5, 0x00, x, y).Some? && AluReg(Native, 5, 0x00, x, y).value == x / Pow2(y % 64) // SRL
    ensures AluReg(Native, 5, 0x20, x, y) == Some(Wrap(Signed(x) / Pow2(y % 64))) // SRA
  {
    hide Pow2, Fast.Shl64, Fast.Shr64, Fast.Sar64, Fast.And64, Fast.Add64, Fast.Sub64;
    LowBits(y);
    SumWraps(x, y);
    ShiftsAre(y % 64, x);
  }

  /** The same with an immediate operand; bits 6 and up of the immediate select the shift. */
  lemma ImmediateOperations(x: u64, imm: u64)
    ensures AluImm(Native, 0, x, imm) == Some(Wrap(Signed(x) + Signed(imm))) // ADDI
    ensures AluImm(Native, 1, x, imm) == Some(Wrap(x * Pow2(imm % 64))) // SLLI
    ensures AluImm(Native, 2, x, imm) == Some(if Signed(x) < Signed(imm) then 1 else 0) // SLTI
    ensures AluImm(Native, 3, x, imm) == Some(if x < imm then 1 else 0) // SLTIU
    ensures imm < 64 ==> AluImm(Native, 5, x, imm).Some? && AluImm(Native, 5, x, imm).value == x / Pow2(imm) // SRLI
    ensures 1024 <= imm < 1088 ==> AluImm(Native, 5, x, imm) == Some(Wrap(Signed(x) / Pow2(imm - 1024))) // SRAI
    ensures imm >= 64 && !(1024 <= imm < 1088) ==> AluImm(Native, 5, x, imm) == None
  {
    hide Pow2, Fast.Shl64, Fast.Shr64, Fast.Sar64, Fast.And64, Fast.Add64;
    LowBits(imm);
    SumWraps(x, imm);
    ShiftsAre(imm % 64, x);
    ShiftsAre(6, imm);
    PowSix();
    assert imm / 64 == 16 <==> 1024 <= imm < 1088;
  }

  lemma PowSix()
    ensures Pow2(6) == 64 && Pow2(5) == 32
  {
  }

  // ----- 32-bit forms: the result is a 32-bit number, sign-extended -----

  /** SRAW shifts the unsigned low word and sign-extends from the bit where the sign went; that is
      the signed word divided by a power of two, rounded down. */
  lemma WordShift(x: u64, s: u64)
    requires s < 32
    ensures Signed(Fast.SignExtend64(Fast.Shr64(s, x % TWO32), 31 - s)) == Word(x) / Pow2(s)
    ensures Signed(Fast.SignExtend64(Fast.Shr64(s, x % TWO32), 31)) == Word((x % TWO32) / Pow2(s))
  {
    hide Pow2, Fast.SignExtend64, Fast.Shr64, Word;
    var low, p, h := x % TWO32, Pow2(s), Pow2(31 - s);
    ShiftsAre(s, low);
    PowAdd(32 - s, s);
    PowAdd(31 - s, s);
    HalfWord();
    PowNext(31 - s);
    QuotientFits(low, p, h, 2 * h);
    var v := Fast.Shr64(s, low);
    Fast.SignExtendSigned(v, 31 - s);
    Fast.SignExtendSigned(v, 31);
    WordHalves(x);
    WordHalves(v);
    hide *;
    ShiftedSign(low, p, h);
  }

  /** Dividing a word with its sign bit set. */
  lemma ShiftedSign(low: nat, p: nat, h: nat)
    requires p > 0 && 2 * h * p == TWO32
    ensures (low - TWO32) / p == low / p - 2 * h
  {
    var k: int := -2 * h;
    assert k * p == -TWO32;
    ModAddMul(low, k, p);
  }

  lemma PowNext(n: nat)
    ensures Pow2(n + 1) == 2 * Pow2(n)
  {
  }

  lemma WordHalves(x: int)
    ensures Word(x) == if x % TWO32 < 0x8000_0000 then x % TWO32 else x % TWO32 - TWO32
  {
  }

  /** Where a quotient lies, and that it is below the modulus. */
  lemma QuotientFits(low: nat, p: nat, h: nat, w: nat)
    requires p > 0 && h * p == 0x8000_0000 && w * p == TWO32 && w == 2 * h && low < TWO32
    ensures 0 <= low / p < w && (low / p < h <==> low < 0x8000_0000)
    ensures (low / p) % w == low / p && low / p < TWO32 && (low / p) % TWO32 == low / p
  {
    DivLess(low, p, w);
    DivLess(low, p, h);
    Evm.QuotientBound(low, p);
    SmallResidue(low / p, w);
    SmallResidue(low / p, TWO32);
  }

  lemma WordOperations(x: u64, y: u64)
    ensures AluReg32(Native, 0, 0x00, x, y).Some? && AluReg32(Native, 0, 0x20, x, y).Some?
    ensures Signed(AluReg32(Native, 0, 0x00, x, y).value) == Word(x + y) // ADDW
    ensures Signed(AluReg32(Native, 0, 0x20, x, y).value) == Word(x - y) // SUBW
  {
    hide Fast.Mask32Signed64, Fast.And64, Word;
    WordMeans(x);
    WordMeans(y);
    WordMeans(y % TWO32);
    WordMeans(Fast.Add64(x % TWO32, y % TWO32));
    WordMeans(Fast.Sub64(x % TWO32, y % TWO32));
    WordSums(x, y);
    SmallResidue(y % TWO32, TWO32);
  }

  lemma WordSums(x: u64, y: u64)
    ensures Word(Fast.Add64(x % TWO32, y % TWO32)) == Word(x + y)
    ensures Word(Fast.Sub64(x % TWO32, y % TWO32)) == Word(x - y)
  {
    var a, b := x % TWO32, y % TWO32;
    var k, l := x / TWO32, y / TWO32;
    WordWraps(a + b);
    WordWraps(a - b);
    ModAddMul(a + b, k + l, TWO32);
    ModAddMul(a - b, k - l, TWO32);
  }

  lemma WordShifts(x: u64, y: u64)
    ensures AluReg32(Native, 1, 0x00, x, y).Some? && AluReg32(Native, 5, 0x00, x, y).Some? && AluReg32(Native, 5, 0x20, x, y).Some?
    ensures Signed(AluReg32(Native, 1, 0x00, x, y).value) == Word(x * Pow2(y % 32)) // SLLW
    ensures Signed(AluReg32(Native, 5, 0x00, x, y).value) == Word((x % TWO32) / Pow2(y % 32)) // SRLW
    ensures Signed(AluReg32(Native, 5, 0x20, x, y).value) == Word(x) / Pow2(y % 32) // SRAW
  {
    hide Pow2, Fast.Mask32Signed64, Fast.And64, Fast.Shl64, Fast.Shr64, Fast.SignExtend64, Word;
    WordMeans(x);
    WordMeans(y);
    LowBits(y % TWO32);
    ModMod(y, 32, 0x800_0000);
    var s := y % 32;
    assert Fast.Sub64(31, s) == 31 - s;
    hide Fast.Sub64;
    ShiftsAre(s, x);
    WordMeans(Fast.Shl64(s, x));
    WordWraps(x * Pow2(s));
    WordShift(x, s);
  }

  lemma FifthBit(imm: u64)
    ensures Fast.And64(imm, 0x20) == 0 <==> imm / 32 % 2 == 0
    ensures Fast.Shr64(5, imm) == imm / 32
  {
    hide Fast.And64, Fast.Shr64, Fast.Shl64, Pow2;
    PowSix();
    Fast.TopBit(imm, 5);
    ShiftsAre(5, imm);
    BitSplit(imm);
  }

  lemma BitSplit(x: nat)
    ensures x % 64 < 32 <==> x / 32 % 2 == 0
  {
  }

  /** The 32-bit forms with an immediate operand: bit 5 of a shift amount is refused, and the bits
      above it select the shift. */
  lemma WordImmediates(x: u64, imm: u64)
    ensures AluImm32(Native, 0, x, imm).Some? && Signed(AluImm32(Native, 0, x, imm).value) == Word(x + imm) // ADDIW
    ensures AluImm32(Native, 1, x, imm).Some? <==> imm / 32 % 2 == 0
    ensures imm / 32 % 2 == 0 ==> Signed(AluImm32(Native, 1, x, imm).value) == Word(x * Pow2(imm % 32)) // SLLIW
    ensures AluImm32(Native, 5, x, imm).Some? <==> imm < 32 || 1024 <= imm < 1056
    ensures imm < 32 ==> Signed(AluImm32(Native, 5, x, imm).value) == Word((x % TWO32) / Pow2(imm)) // SRLIW
    ensures 1024 <= imm < 1056 ==> Signed(AluImm32(Native, 5, x, imm).value) == Word(x) / Pow2(imm - 1024) // SRAIW
  {
    hide Pow2, Fast.Mask32Signed64, Fast.And64, Fast.Shl64, Fast.Shr64, Fast.SignExtend64, Word;
    WordMeans(x);
    LowBits(imm);
    FifthBit(imm);
    WordMeans(Fast.Add64(x, imm));
    WordWraps(x + imm);
    var s := imm % 32;
    assert Fast.Sub64(31, s) == 31 - s;
    hide Fast.Sub64;
    ShiftsAre(s, x);
    WordMeans(Fast.Shl64(s, x));
    WordWraps(x * Pow2(s));
    WordShift(x, s);
    assert imm / 32 == 0 ==> imm == s;
    assert imm / 32 == 32 <==> 1024 <= imm < 1056;
  }

  // ----- bitwise operations -----

  predicate Bit(x: nat, i: nat) {
    Shr(x, i) % 2 == 1
  }

  lemma BitStep(x: nat, i: nat)
    ensures Bit(x, 0) <==> x % 2 == 1
    ensures i > 0 ==> (Bit(x, i) <==> Bit(x / 2, i - 1))
  {
  }

  lemma BitOf(b: nat, z: nat, i: nat)
    requires b < 2
    ensures Bit(b + 2 * z, i) <==> if i == 0 then b == 1 else Bit(z, i - 1)
  {
    BitStep(b + 2 * z, i);
    assert (b + 2 * z) / 2 == z && (b + 2 * z) % 2 == b;
  }

  lemma {:induction false} BitsCombine(x: nat, y: nat, i: nat)
    ensures Bit(And(x, y), i) <==> Bit(x, i) && Bit(y, i)
    ensures Bit(Or(x, y), i) <==> Bit(x, i) || Bit(y, i)
    ensures Bit(Xor(x, y), i) <==> Bit(x, i) != Bit(y, i)
    decreases i
  {
    hide *;
    AndStep(x, y);
    OrStep(x, y);
    XorStep(x, y);
    BitOf(if x % 2 == 1 && y % 2 == 1 then 1 else 0, And(x / 2, y / 2), i);
    BitOf(if x % 2 == 1 || y % 2 == 1 then 1 else 0, Or(x / 2, y / 2), i);
    BitOf(if x % 2 != y % 2 then 1 else 0, Xor(x / 2, y / 2), i);
    BitStep(x, i);
    BitStep(y, i);
    if i > 0 {
      BitsCombine(x / 2, y / 2, i - 1);
    }
  }

  lemma XorStep(x: nat, y: nat)
    ensures Xor(x, y) == (if x % 2 != y % 2 then 1 else 0) + 2 * Xor(x / 2, y / 2)
  {
  }

  /** XOR, OR and AND, with a register or an immediate, bit by bit; AMOXOR, AMOOR and AMOAND leave the
      same in memory. */
  lemma BitwiseOperations(x: u64, y: u64, i: nat)
    ensures AluReg(Native, 4, 0, x, y).Some? && (Bit(AluReg(Native, 4, 0, x, y).value, i) <==> Bit(x, i) != Bit(y, i))
    ensures AluReg(Native, 6, 0, x, y).Some? && (Bit(AluReg(Native, 6, 0, x, y).value, i) <==> Bit(x, i) || Bit(y, i))
    ensures AluReg(Native, 7, 0, x, y).Some? && (Bit(AluReg(Native, 7, 0, x, y).value, i) <==> Bit(x, i) && Bit(y, i))
    ensures forall f :: f in {4, 6, 7} ==> AluImm(Native, f, x, y) == AluReg(Native, f, 0, x, y)
    ensures Some(AtomicValue(Native, 0x4, x, y)) == AluReg(Native, 4, 0, x, y) // AMOXOR
    ensures Some(AtomicValue(Native, 0x8, x, y)) == AluReg(Native, 6, 0, x, y) // AMOOR
    ensures Some(AtomicValue(Native, 0xc, x, y)) == AluReg(Native, 7, 0, x, y) // AMOAND
  {
    hide Bit;
    BitsCombine(x, y, i);
  }

  // ----- branches and atomic operations -----

  lemma LowestBit(b: bool)
    ensures Fast.And64(Fast.Not64(if b then 1 else 0), 1) == if b then 0 else 1
  {
    assert Fast.Not64(1) % 2 == 0 && Fast.Not64(0) % 2 == 1;
    AndStep(Fast.Not64(1), 1);
    AndStep(Fast.Not64(0), 1);
  }

  lemma BranchConditions(x: u64, y: u64)
    ensures BranchHit(Native, 0, x, y) != 0 <==> x == y // BEQ
    ensures BranchHit(Native, 1, x, y) != 0 <==> x != y // BNE
    ensures BranchHit(Native, 4, x, y) != 0 <==> Signed(x) < Signed(y) // BLT
    ensures BranchHit(Native, 5, x, y) != 0 <==> Signed(x) >= Signed(y) // BGE
    ensures BranchHit(Native, 6, x, y) != 0 <==> x < y // BLTU
    ensures BranchHit(Native, 7, x, y) != 0 <==> x >= y // BGEU
  {
    hide Fast.And64, Fast.Not64;
    LowestBit(x == y);
    LowestBit(Signed(x) < Signed(y));
    LowestBit(x < y);
  }

  /** What an atomic operation leaves in memory: the sum, the operand, or one of the two numbers. */
  lemma AtomicResults(v: u64, w: u64)
    ensures AtomicValue(Native, 0x0, v, w) == Wrap(Signed(v) + Signed(w)) && AtomicValue(Native, 0x1, v, w) == w
    ensures forall op :: op in {0x10, 0x14, 0x18, 0x1c} ==> AtomicValue(Native, op, v, w) in {v, w}
    ensures var r := Signed(AtomicValue(Native, 0x10, v, w)); r <= Signed(v) && r <= Signed(w) // AMOMIN
    ensures var r := Signed(AtomicValue(Native, 0x14, v, w)); r >= Signed(v) && r >= Signed(w) // AMOMAX
    ensures var r := AtomicValue(Native, 0x18, v, w); r <= v && r <= w // AMOMINU
    ensures var r := AtomicValue(Native, 0x1c, v, w); r >= v && r >= w // AMOMAXU
  {
    SumWraps(v, w);
  }
}
