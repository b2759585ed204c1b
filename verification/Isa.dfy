/** What the arithmetic and logic instructions put into rd, for every code, in exact integers:
    the tables of the RISC-V Unprivileged ISA (20191213, chapter 24) as the VMs read them. A code
    without an entry is an illegal instruction; some codes that the standard reserves have one. */
module Isa {
  import opened Words
  import opened Yul64
  import opened Cpu
  import opened MExtension
  import opened BaseIsa
  import Fast = FastYul64

  // ----- the tables -----

  function Flag(b: bool): u64 {
    if b then 1 else 0
  }

  /** Opcode 0x13. The upper bits of the immediate select among the right shifts only. */
  function ImmResult(f: nat, x: u64, imm: int): Option<u64>
    requires -0x800 <= imm < 0x800
  {
    match f
    case 0 => Some(Wrap(x + imm)) // ADDI
    case 1 => Some(Wrap(x * Pow2(imm % 64))) // SLLI
    case 2 => Some(Flag(Signed(x) < imm)) // SLTI
    case 3 => Some(Flag(x < Wrap(imm))) // SLTIU
    case 4 => Some(Xor64(Native, x, Wrap(imm))) // XORI
    case 5 =>
      if 0 <= imm < 64 then Some(Wrap(x / Pow2(imm))) // SRLI
      else if 1024 <= imm < 1088 then Some(Wrap(Signed(x) / Pow2(imm - 1024))) // SRAI
      else None
    case 6 => Some(Or64(Native, x, Wrap(imm))) // ORI
    case 7 => Some(And64(Native, x, Wrap(imm))) // ANDI
    case _ => None
  }

  /** Opcode 0x1B: results are words, sign-extended. */
  function ImmWordResult(f: nat, x: u64, imm: int): Option<u64>
    requires -0x800 <= imm < 0x800
  {
    match f
    case 0 => Some(Wrap(Word(x + imm))) // ADDIW
    case 1 => if imm / 32 % 2 == 0 then Some(Wrap(Word(x * Pow2(imm % 32)))) else None // SLLIW
    case 5 =>
      if 0 <= imm < 32 then Some(Wrap(Word(x % TWO32 / Pow2(imm)))) // SRLIW
      else if 1024 <= imm < 1056 then Some(Wrap(Word(x) / Pow2(imm - 1024))) // SRAIW
      else None
    case _ => None
  }

  /** Opcode 0x33 with code g != 1: only sums and right shifts look at g. */
  function RegResult(f: nat, g: nat, x: u64, y: u64): Option<u64> {
    match f
    case 0 => if g == 0 then Some(Wrap(x + y)) else if g == 0x20 then Some(Wrap(x - y)) else None // ADD, SUB
    case 1 => Some(Wrap(x * Pow2(y % 64))) // SLL
    case 2 => Some(Flag(Signed(x) < Signed(y))) // SLT
    case 3 => Some(Flag(x < y)) // SLTU
    case 4 => Some(Xor64(Native, x, y)) // XOR
    case 5 =>
      if g == 0 then Some(Wrap(x / Pow2(y % 64))) // SRL
      else if g == 0x20 then Some(Wrap(Signed(x) / Pow2(y % 64))) // SRA
      else None
    case 6 => Some(Or64(Native, x, y)) // OR
    case 7 => Some(And64(Native, x, y)) // AND
    case _ => None
  }

  /** Opcode 0x33 with code 1: the M extension. Division truncates; dividing by zero gives all ones
      and the dividend. */
  function MulResult(f: nat, x: u64, y: u64): Option<u64> {
    match f
    case 0 => Some(Wrap(x * y)) // MUL
    case 1 => Some(Wrap(Signed(x) * Signed(y) / TWO64)) // MULH
    case 2 => Some(Wrap(Signed(x) * y / TWO64)) // MULHSU
    case 3 => Some(Wrap(x * y / TWO64)) // MULHU
    case 4 => Some(if y == 0 then Wrap(-1) else Wrap(TruncDiv(Signed(x), Signed(y)))) // DIV
    case 5 => Some(if y == 0 then Wrap(-1) else Wrap(x / y)) // DIVU
    case 6 => Some(if y == 0 then x else Wrap(TruncMod(Signed(x), Signed(y)))) // REM
    case 7 => Some(if y == 0 then x else Wrap(x % y)) // REMU
    case _ => None
  }

  /** Opcode 0x3B with code g != 1. */
  function RegWordResult(f: nat, g: nat, x: u64, y: u64): Option<u64> {
    match f
    case 0 => if g == 0 then Some(Wrap(Word(x + y))) else if g == 0x20 then Some(Wrap(Word(x - y))) else None // ADDW, SUBW
    case 1 => Some(Wrap(Word(x * Pow2(y % 32)))) // SLLW
    case 5 =>
      if g == 0 then Some(Wrap(Word(x % TWO32 / Pow2(y % 32)))) // SRLW
      else if g == 0x20 then Some(Wrap(Word(x) / Pow2(y % 32))) // SRAW
      else None
    case _ => None
  }

  /** Opcode 0x3B with code 1: the M extension on words. */
  function MulWordResult(f: nat, x: u64, y: u64): Option<u64> {
    var a, b := x % TWO32, y % TWO32;
    match f
    case 0 => Some(Wrap(Word(x * y))) // MULW
    case 4 => Some(if b == 0 then Wrap(-1) else Wrap(Word(TruncDiv(Word(x), Word(y))))) // DIVW
    case 5 => Some(if b == 0 then Wrap(-1) else Wrap(Word(a / b))) // DIVUW
    case 6 => Some(if b == 0 then Wrap(Word(x)) else Wrap(TruncMod(Word(x), Word(y)))) // REMW
    case 7 => Some(if b == 0 then Wrap(Word(x)) else Wrap(Word(a % b))) // REMUW
    case _ => None
  }

  // ----- the switch computes them -----

  lemma FromSigned(v: u64)
    ensures v == Wrap(Signed(v))
  {
  }

  lemma SignedSum(x: u64, y: u64)
    ensures Wrap(Signed(x) + Signed(y)) == Wrap(x + y) && Wrap(Signed(x) - Signed(y)) == Wrap(x - y)
  {
    SumWraps(x, y);
  }

  lemma SmallQuotient(x: u64, p: nat)
    requires p > 0
    ensures Wrap(x / p) == x / p
  {
    DivLess(x, p, TWO64);
    MulAtLeast(p, TWO64);
  }

  lemma ImmediateTable(f: nat, x: u64, imm: int)
    requires -0x800 <= imm < 0x800 && f < 8
    ensures AluImm(Native, f, x, Wrap(imm)) == ImmResult(f, x, imm)
  {
    hide AluImm, Pow2, Fast.Xor64, Fast.Or64, Fast.And64;
    ImmediateOperations(x, Wrap(imm));
    LogicIs(x, Wrap(imm));
    SignedSum(x, Wrap(imm));
    SmallImmediate(imm);
    ImmSum(x, imm);
    if 0 <= imm {
      SmallQuotient(x, Pow2(imm));
    }
  }

  lemma ImmSum(x: u64, imm: int)
    requires -0x800 <= imm < 0x800
    ensures Wrap(x + Wrap(imm)) == Wrap(x + imm)
  {
  }

  /** The 64-bit form of a small number. */
  lemma SmallImmediate(imm: int)
    requires -0x800 <= imm < 0x800
    ensures Signed(Wrap(imm)) == imm && Wrap(imm) % 64 == imm % 64
    ensures imm >= 0 ==> Wrap(imm) == imm
    ensures imm < 0 ==> Wrap(imm) == imm + TWO64 && Wrap(imm) >= 2048
  {
    ModMod(imm, 64, 0x400_0000_0000_0000);
  }

  lemma LogicIs(x: u64, y: u64)
    ensures AluImm(Native, 4, x, y) == Some(Xor64(Native, x, y))
    ensures AluImm(Native, 6, x, y) == Some(Or64(Native, x, y))
    ensures AluImm(Native, 7, x, y) == Some(And64(Native, x, y))
  {
  }

  lemma RegisterTable(f: nat, g: nat, x: u64, y: u64)
    requires f < 8 && g < 128
    ensures AluReg(Native, f, g, x, y) == if g == 1 then MulResult(f, x, y) else RegResult(f, g, x, y)
  {
    if g == 1 {
      MulTable(f, x, y);
    } else {
      hide Pow2, MulDiv, MulResult, Fast.Xor64, Fast.Or64, Fast.And64, Fast.Shl64, Fast.Shr64, Fast.Sar64, Fast.Add64, Fast.Sub64;
      RegisterOperations(x, y);
      SignedSum(x, y);
      SmallQuotient(x, Pow2(y % 64));
    }
  }

  lemma MulTable(f: nat, x: u64, y: u64)
    requires f < 8
    ensures MulDiv(Native, f, x, y) == MulResult(f, x, y)
  {
    if f < 4 {
      hide MulDiv;
      Products(x, y);
      LowHalf(x, y);
    } else {
      hide Fast.SDiv64, Fast.SMod64, Fast.Div64, Fast.Mod64, TruncDiv, TruncMod, Fast.Mul64;
      QuotientsAre(x, y);
    }
  }

  lemma QuotientsAre(x: u64, y: u64)
    ensures y != 0 ==> SDiv64(Native, x, y) == Wrap(TruncDiv(Signed(x), Signed(y)))
    ensures y != 0 ==> SMod64(Native, x, y) == Wrap(TruncMod(Signed(x), Signed(y)))
    ensures y != 0 ==> Div64(Native, x, y) == Wrap(x / y) && Mod64(Native, x, y) == Wrap(x % y)
  {
    hide TruncDiv, TruncMod;
    if y != 0 {
      SmallQuotient(x, y);
      SmallRemainder(x, y);
      MostNegative();
    }
  }

  lemma SmallRemainder(x: u64, y: u64)
    requires y > 0
    ensures Wrap(x % y) == x % y
  {
    DivMod(x, y);
    SmallResidue(x % y, TWO64);
  }

  lemma MostNegative()
    ensures TruncDiv(-TWO63, -1) == TWO63
  {
  }

  lemma ImmediateWordTable(f: nat, x: u64, imm: int)
    requires -0x800 <= imm < 0x800 && f < 8
    ensures AluImm32(Native, f, x, Wrap(imm)) == ImmWordResult(f, x, imm)
  {
    WordImmediates(x, Wrap(imm));
    hide Word, Pow2, Fast.Mask32Signed64, Fast.SignExtend64, Fast.And64, Fast.Shl64, Fast.Shr64;
    SmallImmediate(imm);
    LowImmediate(imm);
    WordSum(x, imm);
    forall v: u64 ensures v == Wrap(Signed(v)) {
      FromSigned(v);
    }
  }

  lemma LowImmediate(imm: int)
    requires -0x800 <= imm < 0x800
    ensures Wrap(imm) % 32 == imm % 32 && Wrap(imm) / 32 % 2 == imm / 32 % 2
  {
    if imm < 0 {
      ModAddMul(imm, 0x800_0000_0000_0000, 32);
      ModAddMul(imm / 32, 0x400_0000_0000_0000, 2);
    }
  }

  lemma WordSum(x: u64, imm: int)
    requires -0x800 <= imm < 0x800
    ensures Word(x + Wrap(imm)) == Word(x + imm)
  {
    if imm < 0 {
      ModAddMul(x + imm, TWO32, TWO32);
    }
  }

  lemma RegisterWordTable(f: nat, g: nat, x: u64, y: u64)
    requires f < 8 && g < 128
    ensures AluReg32(Native, f, g, x, y) == if g == 1 then MulWordResult(f, x, y) else RegWordResult(f, g, x, y)
  {
    hide AluReg32, Word, Pow2, MulWordResult;
    if g == 1 {
      MulWordTable(f, x, y);
    } else {
      WordOperations(x, y);
      WordShifts(x, y);
      OtherCodes(f, g, x, y);
      var code := if f == 1 then 0 else g;
      if AluReg32(Native, f, code, x, y).Some? {
        FromSigned(AluReg32(Native, f, code, x, y).value);
      }
    }
  }

  /** SLLW does not look at its second code; the others know two. */
  lemma OtherCodes(f: nat, g: nat, x: u64, y: u64)
    requires f < 8 && g < 128 && g != 1
    ensures f == 1 ==> AluReg32(Native, f, g, x, y) == AluReg32(Native, f, 0, x, y)
    ensures f !in {0, 1, 5} || (f != 1 && g !in {0, 0x20}) ==> AluReg32(Native, f, g, x, y) == None
  {
    hide Fast.Mask32Signed64, Fast.SignExtend64, Fast.And64, Fast.Shl64, Fast.Shr64, Fast.Add64, Fast.Sub64;
  }

  lemma MulWordTable(f: nat, x: u64, y: u64)
    requires f < 8
    ensures AluReg32(Native, f, 1, x, y) == MulWordResult(f, x, y)
  {
    var a, b := x % TWO32, y % TWO32;
    WordMeans(x);
    WordMeans(y);
    WordMeans(b);
    SmallResidue(b, TWO32);
    hide Fast.Mask32Signed64, Fast.And64;
    MaskIs(x);
    MaskIs(b);
    MaskedProduct(x, y);
    if b != 0 {
      MaskedQuotients(x, y);
      hide Fast.SDiv64, Fast.SMod64, Fast.Div64, Fast.Mod64, TruncDiv, TruncMod, Fast.Mul64, Word;
    }
  }

  lemma MaskIs(x: u64)
    ensures Fast.Mask32Signed64(x) == Wrap(Word(x))
  {
    WordMeans(x);
    FromSigned(Fast.Mask32Signed64(x));
  }

  lemma MaskedProduct(x: u64, y: u64)
    ensures Fast.Mask32Signed64(Fast.Mul64(x % TWO32, y % TWO32)) == Wrap(Word(x * y))
  {
    hide Fast.Mask32Signed64;
    var a, b, k, l := x % TWO32, y % TWO32, x / TWO32, y / TWO32;
    MaskIs(Fast.Mul64(a, b));
    ModMod(a * b, TWO32, TWO32);
    assert x == a - (-k) * TWO32 && y == b - (-l) * TWO32;
    Expand(a, b, -k, -l, TWO32);
    ModAddMul(a * b, (-k) * (-l) * TWO32 - a * (-l) - b * (-k), TWO32);
  }

  lemma MaskedQuotients(x: u64, y: u64)
    requires y % TWO32 != 0
    ensures var a, b := x % TWO32, y % TWO32; var s, t := Fast.Mask32Signed64(x), Fast.Mask32Signed64(b);
      && Fast.Mask32Signed64(Fast.SDiv64(s, t)) == Wrap(Word(TruncDiv(Word(x), Word(y))))
      && Fast.Mask32Signed64(Fast.SMod64(s, t)) == Wrap(TruncMod(Word(x), Word(y)))
      && Fast.Mask32Signed64(Fast.Div64(a, b)) == Wrap(Word(a / b))
      && Fast.Mask32Signed64(Fast.Mod64(a, b)) == Wrap(Word(a % b))
  {
    var a, b := x % TWO32, y % TWO32;
    var s, t := Fast.Mask32Signed64(x), Fast.Mask32Signed64(b);
    WordMeans(x);
    WordMeans(y);
    WordMeans(b);
    WordNotZero(y);
    hide Fast.Mask32Signed64;
    QuotientsAre(s, t);
    MaskIs(Fast.SDiv64(s, t));
    MaskIs(Fast.SMod64(s, t));
    MaskIs(Fast.Div64(a, b));
    MaskIs(Fast.Mod64(a, b));
    WordWraps(TruncDiv(Word(x), Word(y)));
    RemainderFits(Word(x), Word(y));
  }

  lemma WordNotZero(y: u64)
    ensures Word(y) == 0 <==> y % TWO32 == 0
  {
  }

  lemma RemainderFits(a: int, b: int)
    requires b != 0 && -0x8000_0000 <= a < 0x8000_0000 && -0x8000_0000 <= b < 0x8000_0000
    ensures Word(Wrap(TruncMod(a, b))) == TruncMod(a, b)
  {
    if a == -0x8000_0000 && b == -1 {
      assert TruncMod(a, b) == 0;
    } else {
      TruncBounds(a, b, 0x8000_0000);
      WordOf(TruncMod(a, b));
    }
  }
}
