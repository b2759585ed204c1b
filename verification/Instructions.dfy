/** What a step does, instruction by instruction: on the bits of the instruction word, the registers
    and the bytes of memory, in plain arithmetic (RISC-V Unprivileged ISA 20191213, chapters 2, 5, 7
    and 8). Together the lemmas cover every word. */
module Instructions {
  import opened Words
  import opened Bytes
  import opened FlatMemory
  import opened Yul64
  import opened Cpu
  import opened Reference
  import opened MExtension
  import opened BaseIsa
  import opened Fields
  import opened Isa
  import Fast = FastYul64

  /** The four bytes at the pc. */
  ghost function WordAt(m: Flat, pc: u64): (i: u64)
    ensures i < TWO32
  {
    (m[pc] as int) + 0x100 * (m[AddrAdd(pc, 1)] as int)
    + 0x1_0000 * (m[AddrAdd(pc, 2)] as int) + 0x100_0000 * (m[AddrAdd(pc, 3)] as int)
  }

  /** The VM is running, and its instruction does not cross into another leaf. */
  predicate Fetches(c: Cpu) {
    !c.exited && c.pc % 32 <= 28
  }

  /** A step that succeeds, and where it leads. */
  ghost predicate Leads(K: Hash, oracle: Oracle, c: Cpu, m: Flat, c': Cpu, m': Flat) {
    var o := Step(K, oracle, c, m);
    o.Some? && o.value.cpu == c' && o.value.mem == m'
  }

  /** A register is written, unless it is x0. */
  function Put(registers: Registers, rd: nat, v: u64): Registers {
    seq(32, r requires 0 <= r < 32 => if r == rd && r != 0 then v else registers[r])
  }

  /** One more step, with a new pc and new registers. */
  function Next(c: Cpu, pc: u64, registers: Registers): Cpu {
    c.(step := Wrap(c.step + 1), pc := pc, registers := registers)
  }

  // ----- fetch and decode -----

  lemma FetchFails(K: Hash, oracle: Oracle, c: Cpu, m: Flat)
    requires !c.exited
    ensures c.pc % 32 > 28 ==> Step(K, oracle, c, m).None?
  {
  }

  lemma WordIs(m: Flat, pc: u64)
    ensures Instruction(m, pc) == WordAt(m, pc)
  {
    var s := ReadBytes(m, pc, 4);
    assert FromLE(s[4..]) == 0;
    assert FromLE(s[3..]) == s[3] + 256 * FromLE(s[3..][1..]) && s[3..][1..] == s[4..];
    assert FromLE(s[2..]) == s[2] + 256 * FromLE(s[2..][1..]) && s[2..][1..] == s[3..];
    assert FromLE(s[1..]) == s[1] + 256 * FromLE(s[1..][1..]) && s[1..][1..] == s[2..];
    assert AddrAdd(pc, 0) == pc;
  }

  lemma StepOf(K: Hash, oracle: Oracle, c: Cpu, m: Flat)
    requires Fetches(c)
    ensures var a := Decode(Native, c.(step := Wrap(c.step + 1)), WordAt(m, c.pc));
      if a.None? then Step(K, oracle, c, m).None?
      else
        && WellFormed(a.value)
        && var o := Perform(K, oracle, m, a.value);
           if o.None? then Step(K, oracle, c, m).None? else Leads(K, oracle, c, m, o.value.cpu, o.value.mem)
  {
    hide Decode, Perform, WellFormed, Instruction, WordAt;
    WordIs(m, c.pc);
    assert Started(c) == c.(step := Wrap(c.step + 1));
    DecodeWellFormed(Started(c), WordAt(m, c.pc));
  }

  /** Which opcode leads where. */
  lemma Dispatch(c: Cpu, i: u64)
    ensures var opcode, a := OpcodeOf(i), Decode(Native, c, i);
      && (opcode == 0x03 ==> a == DecodeLoad(Native, c, i)) && (opcode == 0x23 ==> a == DecodeStore(Native, c, i))
      && (opcode == 0x63 ==> a == DecodeBranch(Native, c, i)) && (opcode == 0x6F ==> a == DecodeJal(Native, c, i))
      && (opcode == 0x67 ==> a == DecodeJalr(Native, c, i)) && (opcode == 0x73 ==> a == DecodeSystem(Native, c, i))
      && (opcode == 0x2F ==> a == DecodeAtomic(Native, c, i)) && (opcode in {0x37, 0x17} ==> a == DecodeUpper(Native, c, i))
      && (opcode in {0x13, 0x1B, 0x33, 0x3B} ==> a == DecodeAlu(Native, c, i))
  {
    hide ParseOpcode, DecodeLoad, DecodeStore, DecodeBranch, DecodeJal, DecodeJalr, DecodeSystem, DecodeAtomic, DecodeUpper, DecodeAlu;
    RegistersParsed(i);
  }

  lemma SetIs(c: Cpu, rd: nat, v: u64)
    requires rd < 32
    ensures SetRegister(c, rd, v) == c.(registers := Put(c.registers, rd, v))
  {
    assert SetRegister(c, rd, v).registers == Put(c.registers, rd, v);
  }

  lemma SumIsWrap(x: u64, y: u64, z: int)
    ensures Add64(Native, x, y) == Wrap(x + y) && Add64(Native, x, Wrap(z)) == Wrap(x + z)
  {
    DivMod(z, TWO64);
    ModAddMul(x + Wrap(z), z / TWO64, TWO64);
  }

  // ----- loads and stores -----

  /** 1, 2, 4 or 8 bytes. */
  function Width(f: nat): (n: nat)
    requires f < 4
    ensures n in {1, 2, 4, 8}
  {
    match f
    case 0 => 1
    case 1 => 2
    case 2 => 4
    case _ => 8
  }

  /** LB, LH, LW and LD read a signed number, LBU, LHU and LWU an unsigned one. */
  function Loaded(f: nat, v: nat): int {
    match f
    case 0 => if v < 0x80 then v else v - 0x100
    case 1 => if v < 0x8000 then v else v - 0x1_0000
    case 2 => if v < 0x8000_0000 then v else v - TWO32
    case 3 => if v < TWO63 then v else v - TWO64
    case _ => v
  }

  lemma WidthIs(f: nat)
    ensures f < 4 ==> AccessSize(Native, f) == Width(f)
    ensures 4 <= f < 64 ==> AccessSize(Native, f) > 8
  {
    hide AccessSize;
    if f < 64 {
      SizeIs(f);
    }
  }

  lemma LoadedIs(f: nat, s: seq<byte>)
    requires f < 7 && |s| == Width(f % 4)
    ensures LoadValue(s, f < 4) == Wrap(Loaded(f, FromLE(s)))
  {
    hide FromLE, Pow2;
    Powers();
    PowValues();
    assert Pow2(16) == 0x1_0000 by { PowAdd(8, 8); }
  }

  lemma WriteBackIs(c: Cpu, rd: u64, v: Option<u64>)
    requires rd < 32
    ensures WriteBack(Native, c, rd, v) == match v
      case None => None
      case Some(x) => Some(Done(c.(pc := Wrap(c.pc + 4), registers := Put(c.registers, rd, x))))
  {
    hide SetRegister, Put, Add64;
    SumIsWrap(c.pc, 4, 0);
    if v.Some? {
      SetIs(c, rd, v.value);
    }
  }

  lemma DecodesLoad(c: Cpu, i: u64)
    requires i < TWO32 && OpcodeOf(i) == 0x03
    ensures var f, next := Funct3Of(i), c.(pc := Wrap(c.pc + 4));
      Decode(Native, c, i) == if f == 7 then None else
        Some(LoadTo(RdOf(i), Wrap(c.registers[Rs1Of(i)] + ImmI(i)), Width(f % 4), f < 4, next))
  {
    hide Decode, OpcodeOf, ParseRd, ParseFunct3, ParseRs1, ParseImmTypeI, SignExtend64, AccessSize, Width, ImmI;
    assert Decode(Native, c, i) == DecodeLoad(Native, c, i) by {
      Dispatch(c, i);
    }
    RegistersParsed(i);
    ImmIParsed(i);
    SumIsWrap(c.registers[Rs1Of(i)], 0, ImmI(i));
    SumIsWrap(c.pc, 4, 0);
    var f := Funct3Of(i);
    SignBit(f);
    WidthIs(f % 4);
  }

  lemma SignBit(f: u64)
    requires f < 8
    ensures And64(Native, f, 4) == 0 <==> f < 4
    ensures And64(Native, f, 3) == f % 4
  {
    hide Fast.And64, Pow2;
    Powers();
    ThreeBits(f);
    Fast.TopBit(f, 2);
    SmallResidue(f, 8);
  }

  /** Loads: rd gets the bytes at rs1 plus the immediate, as the number that the code says. */
  lemma Loads(K: Hash, oracle: Oracle, c: Cpu, m: Flat)
    requires Fetches(c) && OpcodeOf(WordAt(m, c.pc)) == 0x03
    ensures var i := WordAt(m, c.pc); var f := Funct3Of(i);
      if f == 7 then Step(K, oracle, c, m).None?
      else
        var s := ReadBytes(m, Wrap(c.registers[Rs1Of(i)] + ImmI(i)), Width(f % 4));
        Leads(K, oracle, c, m, Next(c, Wrap(c.pc + 4), Put(c.registers, RdOf(i), Wrap(Loaded(f, FromLE(s))))), m)
  {
    hide Leads, Decode, WordAt, Put, ReadBytes, FromLE, ImmI, Step, LoadValue, SetRegister, Loaded, Reads;
    var i, started := WordAt(m, c.pc), c.(step := Wrap(c.step + 1));
    StepOf(K, oracle, c, m);
    DecodesLoad(started, i);
    var f := Funct3Of(i);
    if f != 7 {
      var s := ReadBytes(m, Wrap(c.registers[Rs1Of(i)] + ImmI(i)), Width(f % 4));
      LoadedIs(f, s);
      SetIs(started.(pc := Wrap(c.pc + 4)), RdOf(i), Wrap(Loaded(f, FromLE(s))));
    }
  }

  lemma DecodesStore(c: Cpu, i: u64)
    requires i < TWO32 && OpcodeOf(i) == 0x23
    ensures var f, next := Funct3Of(i), c.(pc := Wrap(c.pc + 4));
      Decode(Native, c, i) == if f > 3 then None else
        Some(StoreAt(Wrap(c.registers[Rs1Of(i)] + ImmS(i)), Width(f), c.registers[Rs2Of(i)], next))
  {
    hide Decode, OpcodeOf, ParseRs2, ParseFunct3, ParseRs1, ParseImmTypeS, SignExtend64, AccessSize, Width, ImmS;
    assert Decode(Native, c, i) == DecodeStore(Native, c, i) by {
      Dispatch(c, i);
    }
    RegistersParsed(i);
    ImmSParsed(i);
    SumIsWrap(c.registers[Rs1Of(i)], 0, ImmS(i));
    SumIsWrap(c.pc, 4, 0);
    WidthIs(Funct3Of(i));
  }

  /** Stores: the low bytes of rs2 go to rs1 plus the immediate, and nothing else changes. */
  lemma Stores(K: Hash, oracle: Oracle, c: Cpu, m: Flat)
    requires Fetches(c) && OpcodeOf(WordAt(m, c.pc)) == 0x23
    ensures var i := WordAt(m, c.pc); var f := Funct3Of(i);
      if f > 3 then Step(K, oracle, c, m).None?
      else
        Leads(K, oracle, c, m, Next(c, Wrap(c.pc + 4), c.registers),
              WriteBytes(m, Wrap(c.registers[Rs1Of(i)] + ImmS(i)), ToLE(c.registers[Rs2Of(i)], Width(f))))
  {
    hide Leads, Decode, WordAt, WriteBytes, ToLE, ImmS, Step, Writes;
    StepOf(K, oracle, c, m);
    DecodesStore(c.(step := Wrap(c.step + 1)), WordAt(m, c.pc));
  }

  // ----- jumps and branches -----

  /** Whether a branch is taken; codes 2 and 3 never are. */
  predicate Taken(f: nat, x: u64, y: u64) {
    match f
    case 0 => x == y // BEQ
    case 1 => x != y // BNE
    case 4 => Signed(x) < Signed(y) // BLT
    case 5 => Signed(x) >= Signed(y) // BGE
    case 6 => x < y // BLTU
    case 7 => x >= y // BGEU
    case _ => false
  }

  lemma JumpIs(c: Cpu, pc: u64)
    ensures Jump(Native, c, pc) == if pc % 4 == 0 then Some(Done(c.(pc := pc))) else None
  {
    AndOnes(pc, 2);
    ShrIsDiv(pc, 2);
    assert Pow2(2) == 4;
  }

  lemma TakenIs(f: u64, x: u64, y: u64)
    requires f < 8
    ensures BranchHit(Native, f, x, y) == 0 <==> !Taken(f, x, y)
  {
    if f == 2 || f == 3 {
      assert BranchHit(Native, f, x, y) == 0;
    } else {
      hide BranchHit;
      BranchConditions(x, y);
    }
  }

  lemma DecodesBranch(c: Cpu, i: u64)
    requires i < TWO32 && OpcodeOf(i) == 0x63
    ensures var hit := Taken(Funct3Of(i), c.registers[Rs1Of(i)], c.registers[Rs2Of(i)]);
      var target := Wrap(c.pc + if hit then ImmB(i) else 4);
      Decode(Native, c, i) == if target % 4 == 0 then Some(Done(c.(pc := target))) else None
  {
    hide Decode, OpcodeOf, ParseRs2, ParseFunct3, ParseRs1, ParseImmTypeB, BranchHit, Jump, Add64, ImmB;
    assert Decode(Native, c, i) == DecodeBranch(Native, c, i) by {
      Dispatch(c, i);
    }
    RegistersParsed(i);
    ImmBParsed(i);
    var x, y := c.registers[Rs1Of(i)], c.registers[Rs2Of(i)];
    TakenIs(Funct3Of(i), x, y);
    SumIsWrap(c.pc, 4, ImmB(i));
    JumpIs(c, Wrap(c.pc + if Taken(Funct3Of(i), x, y) then ImmB(i) else 4));
  }

  /** Branches: to the pc plus the immediate if the condition of the code holds between rs1 and rs2,
      else to the next instruction; a target that is not aligned is a failure. */
  lemma Branches(K: Hash, oracle: Oracle, c: Cpu, m: Flat)
    requires Fetches(c) && OpcodeOf(WordAt(m, c.pc)) == 0x63
    ensures var i := WordAt(m, c.pc);
      var hit := Taken(Funct3Of(i), c.registers[Rs1Of(i)], c.registers[Rs2Of(i)]);
      var target := Wrap(c.pc + if hit then ImmB(i) else 4);
      if target % 4 != 0 then Step(K, oracle, c, m).None?
      else Leads(K, oracle, c, m, Next(c, target, c.registers), m)
  {
    hide Leads, Decode, WordAt, ImmB, Step, Taken;
    StepOf(K, oracle, c, m);
    DecodesBranch(c.(step := Wrap(c.step + 1)), WordAt(m, c.pc));
  }

  lemma DecodesJal(c: Cpu, i: u64)
    requires i < TWO32 && OpcodeOf(i) == 0x6F
    ensures var target := Wrap(c.pc + ImmJ(i));
      Decode(Native, c, i) == if target % 4 == 0
        then Some(Done(c.(pc := target, registers := Put(c.registers, RdOf(i), Wrap(c.pc + 4))))) else None
  {
    hide Decode, OpcodeOf, ParseRd, ParseImmTypeJ, Jump, Add64, Shl64, SignExtend64, SetRegister, Put, ImmJ;
    assert Decode(Native, c, i) == DecodeJal(Native, c, i) by {
      Dispatch(c, i);
    }
    RegistersParsed(i);
    ImmJParsed(i);
    SumIsWrap(c.pc, 4, ImmJ(i));
    SetIs(c, RdOf(i), Wrap(c.pc + 4));
    JumpIs(c.(registers := Put(c.registers, RdOf(i), Wrap(c.pc + 4))), Wrap(c.pc + ImmJ(i)));
  }

  /** JAL: to the pc plus the immediate; rd gets the address behind the instruction. */
  lemma JumpAndLink(K: Hash, oracle: Oracle, c: Cpu, m: Flat)
    requires Fetches(c) && OpcodeOf(WordAt(m, c.pc)) == 0x6F
    ensures var i := WordAt(m, c.pc); var target := Wrap(c.pc + ImmJ(i));
      if target % 4 != 0 then Step(K, oracle, c, m).None?
      else Leads(K, oracle, c, m, Next(c, target, Put(c.registers, RdOf(i), Wrap(c.pc + 4))), m)
  {
    hide Leads, Decode, WordAt, ImmJ, Step, Put;
    StepOf(K, oracle, c, m);
    DecodesJal(c.(step := Wrap(c.step + 1)), WordAt(m, c.pc));
  }

  /** Clearing the lowest bit. */
  lemma ClearsBit(x: u64)
    ensures And64(Native, x, Xor64(Native, U64Mask(Native), 1)) == x - x % 2
  {
    hide And, Xor, Pow2, Shl, Shr, Low;
    XorStep(Fast.U64_MASK, 1);
    AndZero(Fast.U64_MASK / 2);
    assert Xor(Fast.U64_MASK, 1) == 2 * Xor(Fast.U64_MASK / 2, 0);
    XorZero(Fast.U64_MASK / 2);
    AndStep(x, Fast.U64_MASK - 1);
    PowValues();
    AndOnes(x / 2, 63);
    ShrIsDiv(x / 2, 63);
    SmallResidue(x / 2, TWO63);
  }

  lemma XorZero(x: nat)
    ensures Xor(x, 0) == x
  {
  }

  lemma DecodesJalr(c: Cpu, i: u64)
    requires i < TWO32 && OpcodeOf(i) == 0x67
    ensures var sum := Wrap(c.registers[Rs1Of(i)] + ImmI(i));
      Decode(Native, c, i) == if (sum - sum % 2) % 4 == 0
        then Some(Done(c.(pc := sum - sum % 2, registers := Put(c.registers, RdOf(i), Wrap(c.pc + 4))))) else None
  {
    hide Decode, OpcodeOf, ParseRd, ParseRs1, ParseImmTypeI, Jump, Add64, And64, Xor64, SignExtend64, SetRegister, Put, ImmI;
    assert Decode(Native, c, i) == DecodeJalr(Native, c, i) by {
      Dispatch(c, i);
    }
    RegistersParsed(i);
    ImmIParsed(i);
    SumIsWrap(c.pc, 4, 0);
    SumIsWrap(c.registers[Rs1Of(i)], 0, ImmI(i));
    SetIs(c, RdOf(i), Wrap(c.pc + 4));
    var sum := Wrap(c.registers[Rs1Of(i)] + ImmI(i));
    ClearsBit(sum);
    JumpIs(c.(registers := Put(c.registers, RdOf(i), Wrap(c.pc + 4))), sum - sum % 2);
  }

  /** JALR: to rs1, as it was before, plus the immediate, with the lowest bit cleared. */
  lemma JumpAndLinkRegister(K: Hash, oracle: Oracle, c: Cpu, m: Flat)
    requires Fetches(c) && OpcodeOf(WordAt(m, c.pc)) == 0x67
    ensures var i := WordAt(m, c.pc); var sum := Wrap(c.registers[Rs1Of(i)] + ImmI(i)); var target := sum - sum % 2;
      if target % 4 != 0 then Step(K, oracle, c, m).None?
      else Leads(K, oracle, c, m, Next(c, target, Put(c.registers, RdOf(i), Wrap(c.pc + 4))), m)
  {
    hide Leads, Decode, WordAt, ImmI, Step, Put;
    StepOf(K, oracle, c, m);
    DecodesJalr(c.(step := Wrap(c.step + 1)), WordAt(m, c.pc));
  }

  // ----- arithmetic and logic -----

  /** What goes into rd, by opcode and codes; None is an illegal instruction. */
  function Result(i: u64, registers: Registers): Option<u64>
    requires i < TWO32 && OpcodeOf(i) in {0x13, 0x1B, 0x33, 0x3B}
  {
    var f, g, x, y := Funct3Of(i), Funct7Of(i), registers[Rs1Of(i)], registers[Rs2Of(i)];
    match OpcodeOf(i)
    case 0x13 => ImmResult(f, x, ImmI(i))
    case 0x1B => ImmWordResult(f, x, ImmI(i))
    case 0x33 => if g == 1 then MulResult(f, x, y) else RegResult(f, g, x, y)
    case _ => if g == 1 then MulWordResult(f, x, y) else RegWordResult(f, g, x, y)
  }

  lemma DecodesAlu(c: Cpu, i: u64)
    requires i < TWO32 && OpcodeOf(i) in {0x13, 0x1B, 0x33, 0x3B}
    ensures Decode(Native, c, i) == match Result(i, c.registers)
      case None => None
      case Some(v) => Some(Done(c.(pc := Wrap(c.pc + 4), registers := Put(c.registers, RdOf(i), v))))
  {
    hide Decode, OpcodeOf, ParseRd, ParseRs1, ParseRs2, ParseFunct3, ParseFunct7, ParseImmTypeI, AluImm, AluImm32, AluReg, AluReg32;
    hide ImmResult, ImmWordResult, MulResult, RegResult, MulWordResult, RegWordResult, WriteBack, Put, ImmI;
    assert Decode(Native, c, i) == DecodeAlu(Native, c, i) by {
      Dispatch(c, i);
    }
    RegistersParsed(i);
    ImmIParsed(i);
    var f, x, y := Funct3Of(i), c.registers[Rs1Of(i)], c.registers[Rs2Of(i)];
    ImmediateTable(f, x, ImmI(i));
    ImmediateWordTable(f, x, ImmI(i));
    RegisterTable(f, Funct7Of(i), x, y);
    RegisterWordTable(f, Funct7Of(i), x, y);
    WriteBackIs(c, RdOf(i), Result(i, c.registers));
  }

  /** Arithmetic and logic: rd gets the result of the table, computed from rs1 and rs2 or the
      immediate. */
  lemma Computes(K: Hash, oracle: Oracle, c: Cpu, m: Flat)
    requires Fetches(c) && OpcodeOf(WordAt(m, c.pc)) in {0x13, 0x1B, 0x33, 0x3B}
    ensures var i := WordAt(m, c.pc);
      match Result(i, c.registers)
      case None => Step(K, oracle, c, m).None?
      case Some(v) => Leads(K, oracle, c, m, Next(c, Wrap(c.pc + 4), Put(c.registers, RdOf(i), v)), m)
  {
    hide Leads, Decode, WordAt, Step, Put, Result;
    StepOf(K, oracle, c, m);
    DecodesAlu(c.(step := Wrap(c.step + 1)), WordAt(m, c.pc));
  }

  lemma DecodesUpper(c: Cpu, i: u64)
    requires i < TWO32 && OpcodeOf(i) in {0x37, 0x17}
    ensures var v := Wrap(if OpcodeOf(i) == 0x37 then ImmU(i) else c.pc + ImmU(i));
      Decode(Native, c, i) == Some(Done(c.(pc := Wrap(c.pc + 4), registers := Put(c.registers, RdOf(i), v))))
  {
    hide Decode, OpcodeOf, ParseRd, ParseImmTypeU, SetRegister, Put, Add64, Shl64, SignExtend64, ImmU;
    assert Decode(Native, c, i) == DecodeUpper(Native, c, i) by {
      Dispatch(c, i);
    }
    RegistersParsed(i);
    ImmUParsed(i);
    SumIsWrap(c.pc, 4, ImmU(i));
    SetIs(c, RdOf(i), Wrap(if OpcodeOf(i) == 0x37 then ImmU(i) else c.pc + ImmU(i)));
  }

  /** LUI and AUIPC: the upper immediate, alone or added to the pc. */
  lemma LoadsUpper(K: Hash, oracle: Oracle, c: Cpu, m: Flat)
    requires Fetches(c) && OpcodeOf(WordAt(m, c.pc)) in {0x37, 0x17}
    ensures var i := WordAt(m, c.pc); var v := Wrap(if OpcodeOf(i) == 0x37 then ImmU(i) else c.pc + ImmU(i));
      Leads(K, oracle, c, m, Next(c, Wrap(c.pc + 4), Put(c.registers, RdOf(i), v)), m)
  {
    hide Leads, Decode, WordAt, Step, Put, ImmU;
    StepOf(K, oracle, c, m);
    DecodesUpper(c.(step := Wrap(c.step + 1)), WordAt(m, c.pc));
  }

  // ----- atomic operations -----

  /** What an operation leaves in memory where v was; an unknown one is a failure. */
  function AtomicResult(op: nat, v: u64, w: u64): Option<u64> {
    match op
    case 0x00 => Some(Wrap(v + w)) // AMOADD
    case 0x01 => Some(w) // AMOSWAP
    case 0x04 => Some(Xor64(Native, v, w)) // AMOXOR
    case 0x08 => Some(Or64(Native, v, w)) // AMOOR
    case 0x0C => Some(And64(Native, v, w)) // AMOAND
    case 0x10 => Some(if Signed(v) <= Signed(w) then v else w) // AMOMIN
    case 0x14 => Some(if Signed(v) >= Signed(w) then v else w) // AMOMAX
    case 0x18 => Some(if v <= w then v else w) // AMOMINU
    case 0x1C => Some(if v >= w then v else w) // AMOMAXU
    case _ => None
  }

  /** The instruction is atomic on four or eight bytes, at an aligned address. */
  ghost predicate AtomicAccess(c: Cpu, m: Flat) {
    var i := WordAt(m, c.pc);
    Fetches(c) && OpcodeOf(i) == 0x2F && Funct3Of(i) in {2, 3} && c.registers[Rs1Of(i)] % Width(Funct3Of(i)) == 0
  }

  lemma AtomicResultIs(op: u64, v: u64, w: u64)
    ensures AtomicResult(op, v, w).Some? <==> KnownAtomic(op)
    ensures KnownAtomic(op) ==> AtomicResult(op, v, w) == Some(AtomicValue(Native, op, v, w))
  {
  }

  lemma DecodesAtomic(c: Cpu, i: u64)
    requires i < TWO32 && OpcodeOf(i) == 0x2F
    ensures var f, op, rd, next := Funct3Of(i), Funct7Of(i) / 4, RdOf(i), c.(pc := Wrap(c.pc + 4));
      var addr, y := c.registers[Rs1Of(i)], c.registers[Rs2Of(i)];
      Decode(Native, c, i) ==
        if f !in {2, 3} || addr % Width(f) != 0 then None
        else if op == 2 then Some(LoadTo(rd, addr, Width(f), true, next.(loadReservation := addr)))
        else if op == 3 then
          if addr == c.loadReservation
          then Some(StoreAt(addr, Width(f), y, next.(loadReservation := 0, registers := Put(c.registers, rd, 0))))
          else Some(Done(next.(loadReservation := 0, registers := Put(c.registers, rd, 1))))
        else if !KnownAtomic(op) then None
        else Some(AtomicAt(op, rd, addr, Width(f), if f == 2 then Wrap(Word(y)) else y, next))
  {
    hide Decode, OpcodeOf, ParseRd, ParseRs1, ParseRs2, ParseFunct3, ParseFunct7, AccessSize, KnownAtomic, SetRegister, Put, Add64;
    hide Mask32Signed64, Word, Shr64;
    assert Decode(Native, c, i) == DecodeAtomic(Native, c, i) by {
      Dispatch(c, i);
    }
    RegistersParsed(i);
    SumIsWrap(c.pc, 4, 0);
    SetIs(c.(loadReservation := 0), RdOf(i), 0);
    SetIs(c.(loadReservation := 0), RdOf(i), 1);
    WidthIs(Funct3Of(i));
    Quarter(Funct7Of(i));
    WordMasked(c.registers[Rs2Of(i)]);
  }

  lemma Quarter(x: u64)
    ensures Shr64(Native, 2, x) == x / 4
  {
    ShrIsDiv(x, 2);
    assert Pow2(2) == 4;
  }

  lemma WordMasked(x: u64)
    ensures Mask32Signed64(Native, x) == Wrap(Word(x))
  {
    hide Fast.Mask32Signed64;
    MaskIs(x);
  }

  /** Any other size, or a misaligned address, is a failure. */
  lemma AtomicRefused(K: Hash, oracle: Oracle, c: Cpu, m: Flat)
    requires Fetches(c) && OpcodeOf(WordAt(m, c.pc)) == 0x2F && !AtomicAccess(c, m)
    ensures Step(K, oracle, c, m).None?
  {
    hide Leads, Decode, WordAt, Step, Put, KnownAtomic, Word;
    StepOf(K, oracle, c, m);
    DecodesAtomic(c.(step := Wrap(c.step + 1)), WordAt(m, c.pc));
  }

  /** LR: rd gets the signed number at rs1, and the reservation is for that address. */
  lemma LoadsReserved(K: Hash, oracle: Oracle, c: Cpu, m: Flat)
    requires AtomicAccess(c, m) && Funct7Of(WordAt(m, c.pc)) / 4 == 2
    ensures var i := WordAt(m, c.pc); var f, addr := Funct3Of(i), c.registers[Rs1Of(i)];
      var v := Wrap(Loaded(f, FromLE(ReadBytes(m, addr, Width(f)))));
      Leads(K, oracle, c, m, Next(c, Wrap(c.pc + 4), Put(c.registers, RdOf(i), v)).(loadReservation := addr), m)
  {
    hide Leads, Decode, WordAt, Step, Put, KnownAtomic, Word, FromLE, ReadBytes, LoadValue, SetRegister, Loaded, Reads;
    var i, started := WordAt(m, c.pc), c.(step := Wrap(c.step + 1));
    StepOf(K, oracle, c, m);
    DecodesAtomic(started, i);
    var f, addr := Funct3Of(i), c.registers[Rs1Of(i)];
    var s := ReadBytes(m, addr, Width(f));
    LoadedIs(f, s);
    SetIs(started.(pc := Wrap(c.pc + 4), loadReservation := addr), RdOf(i), Wrap(Loaded(f, FromLE(s))));
  }

  /** SC: with the reservation for its address it stores the low bytes of rs2 and puts 0 into rd, else it
      puts 1 there and stores nothing; the reservation is gone in either case. */
  lemma StoresConditionally(K: Hash, oracle: Oracle, c: Cpu, m: Flat)
    requires AtomicAccess(c, m) && Funct7Of(WordAt(m, c.pc)) / 4 == 3
    ensures var i := WordAt(m, c.pc); var addr, rd := c.registers[Rs1Of(i)], RdOf(i);
      if addr == c.loadReservation then
        Leads(K, oracle, c, m, Next(c, Wrap(c.pc + 4), Put(c.registers, rd, 0)).(loadReservation := 0),
              WriteBytes(m, addr, ToLE(c.registers[Rs2Of(i)], Width(Funct3Of(i)))))
      else Leads(K, oracle, c, m, Next(c, Wrap(c.pc + 4), Put(c.registers, rd, 1)).(loadReservation := 0), m)
  {
    hide Leads, Decode, WordAt, Step, Put, KnownAtomic, Word, WriteBytes, ToLE, Writes;
    StepOf(K, oracle, c, m);
    DecodesAtomic(c.(step := Wrap(c.step + 1)), WordAt(m, c.pc));
  }

  /** AMO: rd gets the signed number v at rs1, and memory the result of v and rs2, of which only the
      low word counts if four bytes are accessed. */
  lemma ReadsModifiesWrites(K: Hash, oracle: Oracle, c: Cpu, m: Flat)
    requires AtomicAccess(c, m) && Funct7Of(WordAt(m, c.pc)) / 4 !in {2, 3}
    ensures var i := WordAt(m, c.pc); var f, addr, y := Funct3Of(i), c.registers[Rs1Of(i)], c.registers[Rs2Of(i)];
      var v := Wrap(Loaded(f, FromLE(ReadBytes(m, addr, Width(f)))));
      match AtomicResult(Funct7Of(i) / 4, v, if f == 2 then Wrap(Word(y)) else y)
      case None => Step(K, oracle, c, m).None?
      case Some(r) =>
        Leads(K, oracle, c, m, Next(c, Wrap(c.pc + 4), Put(c.registers, RdOf(i), v)), WriteBytes(m, addr, ToLE(r, Width(f))))
  {
    hide Leads, Decode, WordAt, Step, Put, KnownAtomic, Word, FromLE, ToLE, ReadBytes, WriteBytes, LoadValue, SetRegister, Loaded;
    hide AtomicResult, AtomicValue, Reads;
    var i, started := WordAt(m, c.pc), c.(step := Wrap(c.step + 1));
    StepOf(K, oracle, c, m);
    DecodesAtomic(started, i);
    var f, addr, y := Funct3Of(i), c.registers[Rs1Of(i)], c.registers[Rs2Of(i)];
    var s := ReadBytes(m, addr, Width(f));
    LoadedIs(f, s);
    var v := Wrap(Loaded(f, FromLE(s)));
    AtomicResultIs(Funct7Of(i) / 4, v, if f == 2 then Wrap(Word(y)) else y);
    SetIs(started.(pc := Wrap(c.pc + 4)), RdOf(i), v);
  }

  // ----- the rest of the opcodes -----

  lemma DecodesOther(c: Cpu, i: u64)
    requires i < TWO32
    ensures OpcodeOf(i) in {0x0F, 0x07, 0x27, 0x53} ==> Decode(Native, c, i) == Some(Done(c.(pc := Wrap(c.pc + 4))))
    ensures OpcodeOf(i) !in {0x03, 0x23, 0x63, 0x13, 0x1B, 0x33, 0x3B, 0x37, 0x17, 0x6F, 0x67, 0x73, 0x2F, 0x0F, 0x07, 0x27, 0x53} ==>
      Decode(Native, c, i) == None
  {
    hide ParseOpcode, Add64;
    RegistersParsed(i);
    SumIsWrap(c.pc, 4, 0);
  }

  /** Fences and floating-point instructions do nothing, and unknown opcodes fail. */
  lemma OtherOpcodes(K: Hash, oracle: Oracle, c: Cpu, m: Flat)
    requires Fetches(c)
    ensures var opcode := OpcodeOf(WordAt(m, c.pc));
      && (opcode in {0x0F, 0x07, 0x27, 0x53} ==> Leads(K, oracle, c, m, Next(c, Wrap(c.pc + 4), c.registers), m))
      && (opcode !in {0x03, 0x23, 0x63, 0x13, 0x1B, 0x33, 0x3B, 0x37, 0x17, 0x6F, 0x67, 0x73, 0x2F, 0x0F, 0x07, 0x27, 0x53} ==>
            Step(K, oracle, c, m).None?)
  {
    hide Leads, Decode, WordAt, Step;
    StepOf(K, oracle, c, m);
    DecodesOther(c.(step := Wrap(c.step + 1)), WordAt(m, c.pc));
  }
}
